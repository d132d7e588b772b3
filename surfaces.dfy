/** The clock surface of one output (src/surface.c): its creation, the
    layer-surface configuration handshake, updates and destruction. */
module Surfaces {
  import opened CTypes
  import opened Records
  import opened Sequences
  import Environment

  /** `min` of two unsigned values. */
  function Min(a: u32, b: u32): (r: u32)
    ensures r <= a && r <= b
    ensures r == a || r == b
  {
    if a > b then b else a
  }

  /** `get_exclusive_zone`: the configured exclusive zone, where the sentinel
      `EXCLUSIVE_ZONE_AUTO` stands for the surface's size. */
  function ExclusiveZone(configured: i32, size: i32): (zone: i32)
    ensures configured == EXCLUSIVE_ZONE_AUTO ==> zone == size
    ensures configured != EXCLUSIVE_ZONE_AUTO ==> zone == configured
  {
    if configured == EXCLUSIVE_ZONE_AUTO then size else configured
  }

  /** Only the sentinel makes the zone depend on the surface size. */
  lemma ExclusiveZoneTracksSizeOnlyForSentinel(configured: i32, size1: i32, size2: i32)
    requires size1 != size2
    ensures ExclusiveZone(configured, size1) != ExclusiveZone(configured, size2)
            <==> configured == EXCLUSIVE_ZONE_AUTO
  {
  }

  /** The requests `configure_layer_surface` sends for `s`. */
  ghost function LayerConfiguration(s: Surface): seq<Call>
    reads s, s.output.clock`anchor, s.output.clock`marginTop, s.output.clock`marginRight, s.output.clock`marginBottom, s.output.clock`marginLeft, s.output.clock`exclusiveZone, s.output.clock`input
  {
    var c := s.output.clock;
    [ SetSize(s, U32OfI32(s.size), U32OfI32(s.size)),
      SetAnchor(s, U32OfI32(c.anchor)),
      SetMargin(s, c.marginTop, c.marginRight, c.marginBottom, c.marginLeft),
      SetExclusiveZone(s, ExclusiveZone(c.exclusiveZone, s.size)) ]
    + (if c.input then [] else [SetEmptyInputRegion(s)])
  }

  /** The layer configuration is a square of the surface's size with the
      clock's anchor, margins and exclusive zone, and it makes the input region
      empty exactly when input is disabled.  It never commits. */
  lemma LayerConfigurationShape(s: Surface)
    ensures var cfg := LayerConfiguration(s);
      && |cfg| == (if s.output.clock.input then 4 else 5)
      && cfg[0] == SetSize(s, U32OfI32(s.size), U32OfI32(s.size))
      && cfg[1] == SetAnchor(s, U32OfI32(s.output.clock.anchor))
      && cfg[2] == SetMargin(s, s.output.clock.marginTop, s.output.clock.marginRight,
                             s.output.clock.marginBottom, s.output.clock.marginLeft)
      && cfg[3].zone == ExclusiveZone(s.output.clock.exclusiveZone, s.size)
      && (SetEmptyInputRegion(s) in cfg <==> !s.output.clock.input)
      && SurfaceCommit(s) !in cfg
      && forall k :: 0 <= k < |cfg| ==> cfg[k].surface == s
  {
  }

  /** `configure_layer_surface`. */
  method ConfigureLayerSurface(s: Surface, ghost log: seq<Call>) returns (ghost log': seq<Call>)
    ensures log' == log + LayerConfiguration(s)
  {
    var clock := s.output.clock;
    log' := log
      + [ SetSize(s, U32OfI32(s.size), U32OfI32(s.size)),
          SetAnchor(s, U32OfI32(clock.anchor)),
          SetMargin(s, clock.marginTop, clock.marginRight, clock.marginBottom, clock.marginLeft),
          SetExclusiveZone(s, ExclusiveZone(clock.exclusiveZone, s.size)) ];
    if !clock.input {
      log' := log' + [SetEmptyInputRegion(s)];
    }
  }

  /** What a successful `render_surface_frame` sends: the output's scale, the
      new buffer and damage over all of it. */
  ghost function RenderCalls(s: Surface): seq<Call>
    reads s.output
  {
    [SetBufferScale(s, I32OfU32(s.output.scale)), Attach(s), DamageBuffer(s)]
  }

  /** `render_surface_frame` (src/render.c), as an opaque step: when
      `next_buffer` fails it does nothing, otherwise it draws into the buffer
      and attaches it.  The drawing itself is not modelled. */
  method RenderSurfaceFrame(s: Surface, ghost log: seq<Call>) returns (rendered: bool, ghost log': seq<Call>)
    ensures log' == log + (if rendered then RenderCalls(s) else [])
  {
    rendered := Environment.NextBuffer();
    log' := log;
    if rendered {
      log' := log' + [SetBufferScale(s, I32OfU32(s.output.scale)), Attach(s), DamageBuffer(s)];
    }
  }

  /** What `update_surface` sends for `s`, given whether rendering found a buffer. */
  ghost function UpdateCalls(s: Surface, rendered: bool): seq<Call>
    reads s, s.output, s.output.clock`anchor, s.output.clock`marginTop, s.output.clock`marginRight, s.output.clock`marginBottom, s.output.clock`marginLeft, s.output.clock`exclusiveZone, s.output.clock`input
  {
    if !s.configured then []
    else LayerConfiguration(s) + (if rendered then RenderCalls(s) else []) + [SurfaceCommit(s)]
  }

  /** Everything an update sends is about the surface updated. */
  lemma UpdateCallsConcern(s: Surface, rendered: bool)
    ensures forall k :: 0 <= k < |UpdateCalls(s, rendered)| ==> UpdateCalls(s, rendered)[k].surface == s
  {
    LayerConfigurationShape(s);
  }

  /** An update of a configured surface commits it exactly once; an update of
      an unconfigured one sends nothing. */
  lemma UpdateCommitsOnce(s: Surface, rendered: bool)
    ensures Count(SurfaceCommit(s), UpdateCalls(s, rendered)) == if s.configured then 1 else 0
    ensures !s.configured ==> UpdateCalls(s, rendered) == []
  {
    if s.configured {
      var cfg := LayerConfiguration(s);
      var drawn := if rendered then RenderCalls(s) else [];
      LayerConfigurationShape(s);
      assert SurfaceCommit(s) !in drawn;
      CountAbsent(SurfaceCommit(s), cfg);
      CountAbsent(SurfaceCommit(s), drawn);
      CountAppend(SurfaceCommit(s), cfg, drawn);
      CountAppend(SurfaceCommit(s), cfg + drawn, [SurfaceCommit(s)]);
      assert Count(SurfaceCommit(s), [SurfaceCommit(s)]) == 1;
    }
  }

  /** `update_surface`: nothing for a null or unconfigured surface; otherwise
      reapply the layer configuration, render, and commit. */
  method UpdateSurface(s: Surface?, ghost log: seq<Call>) returns (rendered: bool, ghost log': seq<Call>)
    ensures s == null || !s.configured ==> !rendered && log' == log
    ensures s != null ==> log' == log + UpdateCalls(s, rendered)
  {
    rendered, log' := false, log;
    if s == null || !s.configured {
      return;
    }
    log' := ConfigureLayerSurface(s, log');
    rendered, log' := RenderSurfaceFrame(s, log');
    log' := log' + [SurfaceCommit(s)];
  }

  /** `layer_surface_handle_configure`: acknowledge the serial, take the
      smaller proposed side as the size when both are positive, become
      configured, and update. */
  method LayerSurfaceHandleConfigure(s: Surface, serial: u32, w: u32, h: u32, ghost log: seq<Call>)
    returns (rendered: bool, ghost log': seq<Call>)
    modifies s`size, s`configured
    ensures s.configured
    ensures s.size == if w > 0 && h > 0 then I32OfU32(Min(w, h)) else old(s.size)
    ensures log' == log + [AckConfigure(s, serial)] + UpdateCalls(s, rendered)
  {
    log' := log + [AckConfigure(s, serial)];
    if w > 0 && h > 0 {
      s.size := I32OfU32(Min(w, h));
    }
    s.configured := true;
    rendered, log' := UpdateSurface(s, log');
  }

  /** A configure event acknowledges its serial first, whatever it proposes,
      and then commits exactly once. */
  lemma ConfigureAcksThenCommitsOnce(s: Surface, serial: u32, rendered: bool)
    requires s.configured
    ensures var calls := [AckConfigure(s, serial)] + UpdateCalls(s, rendered);
      calls[0] == AckConfigure(s, serial) && Count(SurfaceCommit(s), calls) == 1
  {
    UpdateCommitsOnce(s, rendered);
    CountAppend(SurfaceCommit(s), [AckConfigure(s, serial)], UpdateCalls(s, rendered));
  }

  /** When the smaller proposed side fits an int32, the new size is that side:
      positive, no larger than either side and equal to one of them. */
  lemma ConfiguredSizeFits(w: u32, h: u32)
    requires w > 0 && h > 0 && Min(w, h) < 0x8000_0000
    ensures var size := I32OfU32(Min(w, h));
      0 < size && size <= w && size <= h && (size == w || size == h)
  {
  }

  /** What `destroy_surface` does for `s`: destroy the protocol objects that
      exist, finish both buffers, free the record. */
  ghost function DestroyCalls(s: Surface): seq<Call>
    reads s
  {
    (if s.hasLayerSurface then [LayerSurfaceDestroy(s)] else [])
    + (if s.hasWlSurface then [SurfaceDestroy(s)] else [])
    + [FinishBuffer(s, 0), FinishBuffer(s, 1), FreeSurface(s)]
  }

  /** `destroy_surface`.  It changes no field: in particular the owning
      output's `surface` keeps pointing at the freed record. */
  method DestroySurface(s: Surface?, ghost log: seq<Call>) returns (ghost log': seq<Call>)
    ensures s == null ==> log' == log
    ensures s != null ==> log' == log + DestroyCalls(s)
  {
    log' := log;
    if s == null {
      return;
    }
    if s.hasLayerSurface {
      log' := log' + [LayerSurfaceDestroy(s)];
    }
    if s.hasWlSurface {
      log' := log' + [SurfaceDestroy(s)];
    }
    log' := log' + [FinishBuffer(s, 0), FinishBuffer(s, 1), FreeSurface(s)];
  }

  /** Destroying `t` frees `s` once if it is `t`, and not at all otherwise. */
  lemma DestroyFreesOnlyItself(t: Surface, s: Surface)
    ensures Count(FreeSurface(s), DestroyCalls(t)) == if t == s then 1 else 0
  {
    var a := if t.hasLayerSurface then [LayerSurfaceDestroy(t)] else [];
    var b := if t.hasWlSurface then [SurfaceDestroy(t)] else [];
    var c := [FinishBuffer(t, 0), FinishBuffer(t, 1), FreeSurface(t)];
    CountAbsent(FreeSurface(s), a);
    CountAbsent(FreeSurface(s), b);
    CountAppend(FreeSurface(s), a, b);
    CountAppend(FreeSurface(s), a + b, c);
    assert Count(FreeSurface(s), a) == 0 && Count(FreeSurface(s), b) == 0;
    var finish := [FinishBuffer(t, 0), FinishBuffer(t, 1)];
    assert c == finish + [FreeSurface(t)];
    CountAbsent(FreeSurface(s), finish);
    CountAppend(FreeSurface(s), finish, [FreeSurface(t)]);
    assert Count(FreeSurface(s), c) == if t == s then 1 else 0;
  }

  /** Destroying a surface frees it once, finishes both buffers and releases
      exactly the protocol objects it holds. */
  lemma DestroyReleasesEverything(s: Surface)
    ensures Count(FreeSurface(s), DestroyCalls(s)) == 1
    ensures FinishBuffer(s, 0) in DestroyCalls(s) && FinishBuffer(s, 1) in DestroyCalls(s)
    ensures LayerSurfaceDestroy(s) in DestroyCalls(s) <==> s.hasLayerSurface
    ensures SurfaceDestroy(s) in DestroyCalls(s) <==> s.hasWlSurface
  {
    DestroyFreesOnlyItself(s, s);
  }

  /** `layer_surface_handle_closed`: destroy the surface, and nothing else. */
  method LayerSurfaceHandleClosed(s: Surface, ghost log: seq<Call>) returns (ghost log': seq<Call>)
    ensures log' == log + DestroyCalls(s)
  {
    log' := DestroySurface(s, log);
  }

  /** The output keeps its pointer to a closed surface, so the next update of
      that output's surface, if it had been configured, commits the freed
      record after its free. */
  lemma CommitAfterClose(s: Surface, rendered: bool)
    requires s.configured
    ensures var calls := DestroyCalls(s) + UpdateCalls(s, rendered);
      exists i, j :: 0 <= i < j < |calls| && calls[i] == FreeSurface(s) && calls[j] == SurfaceCommit(s)
  {
    var calls := DestroyCalls(s) + UpdateCalls(s, rendered);
    assert calls[|DestroyCalls(s)| - 1] == FreeSurface(s);
    assert calls[|calls| - 1] == SurfaceCommit(s);
  }

  /** How `create_surface` ended: the C function returns true only for `Created`. */
  datatype Creation = AllocationFailed | NoWlSurface | NoLayerSurface | Created

  /** What `create_surface` sends for the new surface `s` of `o`, by outcome. */
  ghost function CreateCalls(o: Output, s: Surface, outcome: Creation): seq<Call>
    reads s, o.clock
    requires s.output == o
  {
    match outcome
    case AllocationFailed => []
    case NoWlSurface => []
    case NoLayerSurface => [CompositorCreateSurface(s)]
    case Created =>
      [CompositorCreateSurface(s), GetLayerSurface(s, o, o.clock.layer, o.clock.namespace)]
      + LayerConfiguration(s) + [SurfaceCommit(s)]
  }

  /** How `create_surface` with `outcome` changed `o` and the log: nothing
      when allocation failed; otherwise `o` points at a new, unconfigured
      surface of the clock's size that holds the protocol objects created
      before the failure, if any. */
  twostate predicate SurfaceCreation(o: Output, outcome: Creation, log: seq<Call>, new log': seq<Call>)
    reads o, o.surface, o.clock
  {
    if outcome == AllocationFailed then o.surface == old(o.surface) && log' == log
    else
      && o.surface != null && fresh(o.surface)
      && o.surface.output == o && o.surface.size == o.clock.size && !o.surface.configured
      && o.surface.hasWlSurface == (outcome != NoWlSurface)
      && o.surface.hasLayerSurface == (outcome == Created)
      && log' == log + CreateCalls(o, o.surface, outcome)
  }

  /** `create_surface`.  The new record is stored in `o.surface` before its
      protocol objects exist, and stays there, partially built, when creating
      one of them fails. */
  method CreateSurface(o: Output, ghost log: seq<Call>) returns (outcome: Creation, ghost log': seq<Call>)
    modifies o`surface
    ensures SurfaceCreation(o, outcome, log, log')
  {
    var clock := o.clock;
    log' := log;
    var alloc := Environment.Allocate();
    if !alloc {
      return AllocationFailed, log';
    }
    var s := new Surface(o, clock.size);
    o.surface := s;
    var ok := Environment.CreateProxy();
    if !ok {
      return NoWlSurface, log';
    }
    s.hasWlSurface := true;
    log' := log' + [CompositorCreateSurface(s)];
    ok := Environment.CreateProxy();
    if !ok {
      return NoLayerSurface, log';
    }
    s.hasLayerSurface := true;
    log' := log' + [GetLayerSurface(s, o, clock.layer, clock.namespace)];
    log' := ConfigureLayerSurface(s, log');
    log' := log' + [SurfaceCommit(s)];
    outcome := Created;
  }

  /** A created surface is committed once, with no buffer attached. */
  lemma CreatedCommitsOnceWithoutBuffer(o: Output, s: Surface)
    requires s.output == o
    ensures Count(SurfaceCommit(s), CreateCalls(o, s, Created)) == 1
    ensures Attach(s) !in CreateCalls(o, s, Created)
  {
    var head := [CompositorCreateSurface(s), GetLayerSurface(s, o, o.clock.layer, o.clock.namespace)];
    LayerConfigurationShape(s);
    CountAbsent(SurfaceCommit(s), head);
    CountAbsent(SurfaceCommit(s), LayerConfiguration(s));
    CountAppend(SurfaceCommit(s), head, LayerConfiguration(s));
    CountAppend(SurfaceCommit(s), head + LayerConfiguration(s), [SurfaceCommit(s)]);
    assert Count(SurfaceCommit(s), [SurfaceCommit(s)]) == 1;
    assert Count(SurfaceCommit(s), head) == 0;
  }

  /** What `update_all_surfaces` sends for the first `|rendered|` outputs of
      the list, given whether each one's rendering found a buffer. */
  ghost function UpdateAllCalls(clock: Clock, rendered: seq<bool>): seq<Call>
    requires clock.Valid() && |rendered| <= |clock.outputs|
    reads clock`outputs, clock.outputs, set o | o in clock.outputs && o.surface != null :: o.surface
    reads clock`anchor, clock`marginTop, clock`marginRight, clock`marginBottom, clock`marginLeft, clock`exclusiveZone, clock`input
  {
    if rendered == [] then []
    else
      var n := |rendered| - 1;
      var o := clock.outputs[n];
      UpdateAllCalls(clock, rendered[..n])
      + (if o.surface == null then [] else UpdateCalls(o.surface, rendered[n]))
  }

  /** `update_all_surfaces`: `update_surface` on the surface of every output
      that has one, in list order; `rendered[i]` says whether the surface of
      the i-th output found a buffer. */
  method UpdateAllSurfaces(clock: Clock, ghost log: seq<Call>) returns (rendered: seq<bool>, ghost log': seq<Call>)
    requires clock.Valid()
    ensures |rendered| == |clock.outputs|
    ensures log' == log + UpdateAllCalls(clock, rendered)
  {
    rendered, log' := [], log;
    var i := 0;
    while i < |clock.outputs|
      invariant 0 <= i <= |clock.outputs| && |rendered| == i
      invariant log' == log + UpdateAllCalls(clock, rendered)
    {
      rendered, log' := UpdateOutputSurface(clock, rendered, log, log');
      i := i + 1;
    }
  }

  /** The turn of `update_all_surfaces` for the output after those that
      `rendered` covers. */
  method UpdateOutputSurface(clock: Clock, rendered: seq<bool>, ghost base: seq<Call>, ghost log: seq<Call>)
    returns (rendered': seq<bool>, ghost log': seq<Call>)
    requires clock.Valid() && |rendered| < |clock.outputs|
    requires log == base + UpdateAllCalls(clock, rendered)
    ensures |rendered'| == |rendered| + 1
    ensures log' == base + UpdateAllCalls(clock, rendered')
  {
    var op := clock.outputs[|rendered|];
    var r := false;
    log' := log;
    if op.surface != null {
      r, log' := UpdateSurface(op.surface, log);
    }
    rendered' := rendered + [r];
    UpdateAllSnoc(clock, rendered, r);
    AppendAssoc(base, UpdateAllCalls(clock, rendered), if op.surface == null then [] else UpdateCalls(op.surface, r));
  }

  /** One more output's update outcome adds the update of its surface. */
  lemma UpdateAllSnoc(clock: Clock, rendered: seq<bool>, r: bool)
    requires clock.Valid() && |rendered| < |clock.outputs|
    ensures var o := clock.outputs[|rendered|];
      UpdateAllCalls(clock, rendered + [r])
      == UpdateAllCalls(clock, rendered) + (if o.surface == null then [] else UpdateCalls(o.surface, r))
  {
    assert (rendered + [r])[..|rendered|] == rendered;
  }

  /** Updating `t` commits `s` once if it is `t` and configured, and not at
      all otherwise. */
  lemma UpdateCommitsOnlyItself(t: Surface, rendered: bool, s: Surface)
    ensures Count(SurfaceCommit(s), UpdateCalls(t, rendered)) == if t == s && s.configured then 1 else 0
  {
    if t == s {
      UpdateCommitsOnce(s, rendered);
    } else {
      UpdateCallsConcern(t, rendered);
      assert SurfaceCommit(s) !in UpdateCalls(t, rendered);
      CountAbsent(SurfaceCommit(s), UpdateCalls(t, rendered));
    }
  }

  /** One more output adds one commit of `s` exactly when it owns `s` and `s`
      is configured. */
  lemma UpdateAllCommitStep(clock: Clock, rendered: seq<bool>, s: Surface)
    requires clock.Valid() && 0 < |rendered| <= |clock.outputs|
    ensures var n := |rendered| - 1;
      Count(SurfaceCommit(s), UpdateAllCalls(clock, rendered))
      == Count(SurfaceCommit(s), UpdateAllCalls(clock, rendered[..n]))
         + if clock.outputs[n].surface == s && s.configured then 1 else 0
  {
    var n := |rendered| - 1;
    var o := clock.outputs[n];
    var piece := if o.surface == null then [] else UpdateCalls(o.surface, rendered[n]);
    CountAppend(SurfaceCommit(s), UpdateAllCalls(clock, rendered[..n]), piece);
    if o.surface != null {
      UpdateCommitsOnlyItself(o.surface, rendered[n], s);
    }
  }

  /** The updates of the first `|rendered|` outputs commit a configured `s`
      as often as its output occurs among them. */
  lemma {:induction false} UpdateAllCommitCount(clock: Clock, rendered: seq<bool>, s: Surface)
    requires clock.Valid() && |rendered| <= |clock.outputs|
    ensures Count(SurfaceCommit(s), UpdateAllCalls(clock, rendered))
            == if s.output.surface == s && s.configured then Count(s.output, clock.outputs[..|rendered|]) else 0
  {
    if rendered != [] {
      var n := |rendered| - 1;
      UpdateAllCommitCount(clock, rendered[..n], s);
      UpdateAllCommitStep(clock, rendered, s);
      TakeSnoc(clock.outputs, n + 1);
      CountAppend(s.output, clock.outputs[..n], [clock.outputs[n]]);
      if clock.outputs[n].surface == s {
        assert clock.outputs[n] == s.output;
      }
    }
  }

  /** `update_all_surfaces` commits each configured surface of the list exactly
      once, and sends nothing for an output without a surface; whether a
      surface's rendering succeeded does not change that. */
  lemma UpdateAllCommitsEachConfiguredOnce(clock: Clock, rendered: seq<bool>, s: Surface)
    requires clock.Valid() && |rendered| <= |clock.outputs|
    ensures Count(SurfaceCommit(s), UpdateAllCalls(clock, rendered))
            == if s.output in clock.outputs[..|rendered|] && s.output.surface == s && s.configured then 1 else 0
  {
    UpdateAllCommitCount(clock, rendered, s);
    CountDistinctPrefix(clock.outputs, |rendered|, s.output);
  }


  /** What `destroy_all_surfaces` does for the first `n` outputs of the list:
      destroy each one's surface, in list order. */
  ghost function DestroyAllCalls(clock: Clock, n: nat): seq<Call>
    requires clock.Valid() && n <= |clock.outputs|
    reads clock`outputs, clock.outputs, set o | o in clock.outputs && o.surface != null :: o.surface
  {
    if n == 0 then []
    else
      var o := clock.outputs[n - 1];
      DestroyAllCalls(clock, n - 1) + (if o.surface == null then [] else DestroyCalls(o.surface))
  }

  /** `destroy_all_surfaces`.  No output's `surface` field is cleared. */
  method DestroyAllSurfaces(clock: Clock, ghost log: seq<Call>) returns (ghost log': seq<Call>)
    requires clock.Valid()
    ensures log' == log + DestroyAllCalls(clock, |clock.outputs|)
  {
    var outs := clock.outputs;
    log' := log;
    var i := 0;
    while i < |outs|
      invariant 0 <= i <= |outs|
      invariant log' == log + DestroyAllCalls(clock, i)
    {
      log' := DestroyOutputSurface(clock, i, log, log');
      i := i + 1;
    }
  }

  /** The turn of `destroy_all_surfaces` for the `i`-th output. */
  method DestroyOutputSurface(clock: Clock, i: nat, ghost base: seq<Call>, ghost log: seq<Call>) returns (ghost log': seq<Call>)
    requires clock.Valid() && i < |clock.outputs|
    requires log == base + DestroyAllCalls(clock, i)
    ensures log' == base + DestroyAllCalls(clock, i + 1)
  {
    var op := clock.outputs[i];
    ghost var piece := if op.surface == null then [] else DestroyCalls(op.surface);
    assert DestroyAllCalls(clock, i + 1) == DestroyAllCalls(clock, i) + piece;
    AppendAssoc(base, DestroyAllCalls(clock, i), piece);
    log' := DestroySurface(op.surface, log);
  }

  /** One more output adds one free of `s` exactly when it owns `s`. */
  lemma DestroyAllFreeStep(clock: Clock, n: nat, s: Surface)
    requires clock.Valid() && 0 < n <= |clock.outputs|
    ensures Count(FreeSurface(s), DestroyAllCalls(clock, n))
            == Count(FreeSurface(s), DestroyAllCalls(clock, n - 1)) + if clock.outputs[n - 1].surface == s then 1 else 0
  {
    var o := clock.outputs[n - 1];
    var piece := if o.surface == null then [] else DestroyCalls(o.surface);
    CountAppend(FreeSurface(s), DestroyAllCalls(clock, n - 1), piece);
    if o.surface != null {
      DestroyFreesOnlyItself(o.surface, s);
    }
  }

  /** The first `n` destructions free `s` as often as its output occurs among
      the first `n` outputs, if that output owns it. */
  lemma {:induction false} DestroyAllFreeCount(clock: Clock, n: nat, s: Surface)
    requires clock.Valid() && n <= |clock.outputs|
    ensures Count(FreeSurface(s), DestroyAllCalls(clock, n))
            == if s.output.surface == s then Count(s.output, clock.outputs[..n]) else 0
  {
    if n > 0 {
      DestroyAllFreeCount(clock, n - 1, s);
      DestroyAllFreeStep(clock, n, s);
      TakeSnoc(clock.outputs, n);
      CountAppend(s.output, clock.outputs[..n - 1], [clock.outputs[n - 1]]);
      if clock.outputs[n - 1].surface == s {
        assert clock.outputs[n - 1] == s.output;
      }
    }
  }

  /** `destroy_all_surfaces` frees the surface of every output that has one
      exactly once, and frees nothing else. */
  lemma DestroyAllFreesEachOnce(clock: Clock, n: nat, s: Surface)
    requires clock.Valid() && n <= |clock.outputs|
    ensures Count(FreeSurface(s), DestroyAllCalls(clock, n))
            == if s.output in clock.outputs[..n] && s.output.surface == s then 1 else 0
  {
    DestroyAllFreeCount(clock, n, s);
    CountDistinctPrefix(clock.outputs, n, s.output);
  }


}
