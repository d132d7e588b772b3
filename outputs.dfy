/** The outputs of the clock (src/output.c): the list of advertised wl_outputs,
    their property events, and the `done` event that creates or updates the
    clock surface of an output. */
module Outputs {
  import opened CTypes
  import opened Records
  import opened Sequences
  import opened Surfaces
  import Environment

  /** The version `create_output` binds wl_output with, whatever the
      compositor advertises. */
  const WL_OUTPUT_VERSION: nat := 3

  /** `output_handle_scale`: the scale becomes the factor's bit pattern. */
  method OutputHandleScale(o: Output, factor: i32)
    modifies o`scale
    ensures o.scale == U32OfI32(factor)
  {
    o.scale := U32OfI32(factor);
  }

  /** `xdg_output_handle_name`: the name is replaced by a copy of the new one. */
  method XdgOutputHandleName(o: Output, name: string)
    modifies o`name
    ensures o.name == Some(name)
  {
    o.name := Some(name);
  }

  /** Whether the clock is meant to be shown on `o`: it is usable and named,
      and either no output was chosen or the chosen name is its name. */
  ghost predicate Selected(o: Output)
    reads o, o.clock
  {
    && o.configured
    && o.name.Some?
    && (o.clock.output.None? || o.clock.output.value == o.name.value)
  }

  /** `output_update_surface`: create the surface of a selected output.  The
      outcome of `create_surface` is reported but, as in the source, not
      acted upon. */
  method OutputUpdateSurface(o: Output, ghost log: seq<Call>)
    returns (outcome: Option<Creation>, ghost log': seq<Call>)
    modifies o`surface
    ensures !Selected(o) ==> outcome == None && o.surface == old(o.surface) && log' == log
    ensures Selected(o) ==> outcome.Some? && SurfaceCreation(o, outcome.value, log, log')
  {
    outcome, log' := None, log;
    if !o.configured || o.name == None {
      return;
    }
    var clock := o.clock;
    if clock.output == None || clock.output.value == o.name.value {
      var created;
      created, log' := CreateSurface(o, log);
      outcome := Some(created);
    }
  }

  /** What the `done` event did. */
  datatype DoneEffect =
    | Updated(rendered: bool)
    | Creating(outcome: Creation)
    | NotSelected

  /** `output_handle_done`: update the existing surface, or else create one if
      the output is selected. */
  method OutputHandleDone(o: Output, ghost log: seq<Call>) returns (effect: DoneEffect, ghost log': seq<Call>)
    modifies o`surface
    ensures old(o.surface) != null ==>
      effect.Updated? && o.surface == old(o.surface) && log' == log + UpdateCalls(o.surface, effect.rendered)
    ensures old(o.surface) == null && !Selected(o) ==>
      effect == NotSelected && o.surface == null && log' == log
    ensures old(o.surface) == null && Selected(o) ==>
      effect.Creating? && SurfaceCreation(o, effect.outcome, log, log')
    ensures old(o.clock.Valid()) && o in o.clock.outputs ==> o.clock.Valid()
  {
    if o.surface != null {
      var rendered;
      rendered, log' := UpdateSurface(o.surface, log);
      effect := Updated(rendered);
    } else {
      var outcome;
      outcome, log' := OutputUpdateSurface(o, log);
      effect := if outcome.Some? then Creating(outcome.value) else NotSelected;
    }
  }

  /** `configure_output`: ask for the xdg_output of `o`.  The source passes
      the manager without checking it, so its callers must have bound it. */
  method ConfigureOutput(o: Output, ghost log: seq<Call>) returns (ok: bool, ghost log': seq<Call>)
    requires o.clock.xdgOutputManager
    modifies o`configured
    ensures ok ==> o.configured && log' == log + [GetXdgOutput(o)]
    ensures !ok ==> o.configured == old(o.configured) && log' == log
  {
    ok := Environment.CreateProxy();
    log' := log;
    if !ok {
      return;
    }
    log' := log' + [GetXdgOutput(o)];
    o.configured := true;
  }

  /** What `create_output` promises: the bind is always sent; a failed
      allocation leaves the list alone; otherwise the new record, with the
      defaults the source gives it, is the new head of the list, and it is
      configured at once exactly when both the xdg-output manager and the layer
      shell are already bound.  `ok` is the C function's return value. */
  twostate predicate OutputCreation(clock: Clock, name: u32, ok: bool, new o: Output?, log: seq<Call>, new log': seq<Call>)
    reads clock, o
  {
    && (o == null ==>
      && !ok && clock.outputs == old(clock.outputs)
      && log' == log + [RegistryBind(name, "wl_output", WL_OUTPUT_VERSION)])
    && (o != null ==>
      && fresh(o) && clock.outputs == [o] + old(clock.outputs)
      && o.clock == clock && o.globalName == name
      && o.scale == 1 && o.name == None && o.surface == null)
    && (o != null && !(clock.xdgOutputManager && clock.layerShell) ==>
      ok && !o.configured && log' == log + [RegistryBind(name, "wl_output", WL_OUTPUT_VERSION)])
    && (o != null && clock.xdgOutputManager && clock.layerShell ==>
      && (ok <==> o.configured)
      && log' == log + [RegistryBind(name, "wl_output", WL_OUTPUT_VERSION)] + (if ok then [GetXdgOutput(o)] else []))
  }

  /** `create_output`: bind the wl_output, allocate its record, put it at the
      head of the list, and configure it at once if both the xdg-output
      manager and the layer shell are already bound.  `o` is the new record,
      null when allocation failed. */
  method CreateOutput(clock: Clock, name: u32, ghost log: seq<Call>)
    returns (ok: bool, o: Output?, ghost log': seq<Call>)
    requires clock.Valid()
    modifies clock`outputs
    ensures clock.Valid()
    ensures OutputCreation(clock, name, ok, o, log, log')
  {
    log' := log + [RegistryBind(name, "wl_output", WL_OUTPUT_VERSION)];
    var alloc := Environment.Allocate();
    if !alloc {
      return false, null, log';
    }
    o := new Output(clock, name);
    clock.outputs := [o] + clock.outputs;
    ok := true;
    if clock.xdgOutputManager && clock.layerShell {
      ok, log' := ConfigureOutput(o, log');
    }
  }

  /** The position of the first output of `outs` with global name `name`,
      if any. */
  function FindGlobal(outs: seq<Output>, name: u32): (r: Option<nat>)
    ensures r.Some? ==>
      && r.value < |outs| && outs[r.value].globalName == name
      && forall j :: 0 <= j < r.value ==> outs[j].globalName != name
    ensures r.None? ==> forall j :: 0 <= j < |outs| ==> outs[j].globalName != name
  {
    if outs == [] then None
    else if outs[0].globalName == name then Some(0)
    else match FindGlobal(outs[1..], name)
      case None => None
      case Some(k) => Some(k + 1)
  }

  /** `get_output_from_global_name`: the first output of the list with that
      global name, or null. */
  method GetOutputFromGlobalName(clock: Clock, name: u32) returns (o: Output?)
    ensures o == null <==> FindGlobal(clock.outputs, name).None?
    ensures o != null ==> o == clock.outputs[FindGlobal(clock.outputs, name).value]
  {
    var outs := clock.outputs;
    var i := 0;
    while i < |outs|
      invariant 0 <= i <= |outs|
      invariant forall j :: 0 <= j < i ==> outs[j].globalName != name
    {
      if outs[i].globalName == name {
        FindGlobalFirst(outs, name, i);
        return outs[i];
      }
      i := i + 1;
    }
    FindGlobalNone(outs, name);
    return null;
  }

  /** An index whose output has the name, after none that has it, is the one
      `FindGlobal` finds. */
  lemma {:induction false} FindGlobalFirst(outs: seq<Output>, name: u32, i: nat)
    requires i < |outs| && outs[i].globalName == name
    requires forall j :: 0 <= j < i ==> outs[j].globalName != name
    ensures FindGlobal(outs, name) == Some(i)
  {
    if i > 0 {
      FindGlobalFirst(outs[1..], name, i - 1);
    }
  }

  /** When no output has the name, `FindGlobal` finds nothing. */
  lemma {:induction false} FindGlobalNone(outs: seq<Output>, name: u32)
    requires forall j :: 0 <= j < |outs| ==> outs[j].globalName != name
    ensures FindGlobal(outs, name) == None
  {
    if outs != [] {
      FindGlobalNone(outs[1..], name);
    }
  }

  /** `outs` with `o` taken out, the others kept in order. */
  function Without<T(==)>(outs: seq<T>, o: T): (r: seq<T>)
    ensures o !in r
    ensures |r| <= |outs|
  {
    if outs == [] then []
    else (if outs[0] == o then [] else [outs[0]]) + Without(outs[1..], o)
  }

  /** In a list without repetitions, taking out a member removes exactly
      that one element at its position and leaves a list without repetitions. */
  lemma WithoutRemovesOne<T>(outs: seq<T>, o: T)
    requires Distinct(outs) && o in outs
    ensures exists i :: 0 <= i < |outs| && outs[i] == o && Without(outs, o) == outs[..i] + outs[i + 1..]
    ensures |Without(outs, o)| == |outs| - 1
    ensures Distinct(Without(outs, o))
  {
    var i :| 0 <= i < |outs| && outs[i] == o;
    WithoutAt(outs, o, i);
    DistinctDropOne(outs, i);
  }

  /** Taking out the element at `i` of a list without repetitions. */
  lemma {:induction false} WithoutAt<T>(outs: seq<T>, o: T, i: nat)
    requires Distinct(outs) && i < |outs| && outs[i] == o
    ensures Without(outs, o) == outs[..i] + outs[i + 1..]
  {
    if i == 0 {
      assert o !in outs[1..];
      WithoutAbsent(outs[1..], o);
    } else {
      assert Distinct(outs[1..]);
      WithoutAt(outs[1..], o, i - 1);
      assert outs[1..][..i - 1] == outs[1..i] && outs[1..][i..] == outs[i + 1..];
      assert [outs[0]] + outs[1..i] == outs[..i];
      AppendAssoc([outs[0]], outs[1..i], outs[i + 1..]);
    }
  }

  /** Dropping one element keeps a list free of repetitions. */
  lemma DistinctDropOne<T>(xs: seq<T>, i: nat)
    requires Distinct(xs) && i < |xs|
    ensures Distinct(xs[..i] + xs[i + 1..])
  {
  }

  /** Taking out an element that is not there changes nothing. */
  lemma {:induction false} WithoutAbsent<T>(outs: seq<T>, o: T)
    requires o !in outs
    ensures Without(outs, o) == outs
  {
    if outs != [] {
      WithoutAbsent(outs[1..], o);
      assert [outs[0]] + outs[1..] == outs;
    }
  }

  /** What `destroy_output` does for `o`: destroy its surface if it has one,
      destroy the wl_output, free the record.  The xdg_output is not
      destroyed. */
  ghost function OutputDestroyCalls(o: Output): seq<Call>
    reads o, o.surface
  {
    (if o.surface == null then [] else DestroyCalls(o.surface)) + [OutputDestroy(o), FreeOutput(o)]
  }

  /** Destroying an output frees that output record and no other. */
  lemma OutputDestroyFreesOnlyItself(t: Output, o: Output)
    ensures Count(FreeOutput(o), OutputDestroyCalls(t)) == if t == o then 1 else 0
  {
    var a := if t.surface == null then [] else DestroyCalls(t.surface);
    CountAppend(FreeOutput(o), a, [OutputDestroy(t), FreeOutput(t)]);
    assert FreeOutput(o) !in a;
    CountAbsent(FreeOutput(o), a);
  }

  /** The surface of a destroyed output is freed once by `destroy_output`. */
  lemma OutputDestroyFreesItsSurface(o: Output)
    requires o.surface != null
    ensures Count(FreeSurface(o.surface), OutputDestroyCalls(o)) == 1
  {
    CountAppend(FreeSurface(o.surface), DestroyCalls(o.surface), [OutputDestroy(o), FreeOutput(o)]);
    DestroyFreesOnlyItself(o.surface, o.surface);
  }

  /** A surface whose compositor sent `closed` is freed by
      `layer_surface_handle_closed`, but its output still points at it, so a
      later `destroy_output` frees it a second time. */
  lemma ClosedSurfaceFreedTwice(s: Surface)
    requires s.output.surface == s
    ensures Count(FreeSurface(s), DestroyCalls(s) + OutputDestroyCalls(s.output)) == 2
  {
    CountAppend(FreeSurface(s), DestroyCalls(s), OutputDestroyCalls(s.output));
    DestroyFreesOnlyItself(s, s);
    OutputDestroyFreesItsSurface(s.output);
  }

  /** `destroy_output`: nothing for null; otherwise destroy the surface the
      output points at, even one a `closed` event has already freed, and take
      the output out of the list. */
  method DestroyOutput(o: Output?, ghost log: seq<Call>) returns (ghost log': seq<Call>)
    requires o != null ==> o.clock.Valid() && o in o.clock.outputs
    modifies (if o == null then {} else {o.clock})`outputs
    ensures o == null ==> log' == log
    ensures o != null ==>
      && o.clock.outputs == Without<Output>(old(o.clock.outputs), o)
      && o.clock.Valid()
      && log' == log + OutputDestroyCalls(o)
  {
    log' := log;
    if o == null {
      return;
    }
    if o.surface != null {
      log' := DestroySurface(o.surface, log');
    }
    var clock := o.clock;
    WithoutRemovesOne<Output>(clock.outputs, o);
    clock.outputs := Without<Output>(clock.outputs, o);
    log' := log' + [OutputDestroy(o), FreeOutput(o)];
  }

  /** What `destroy_all_outputs` does for the first `n` outputs of `outs`. */
  ghost function DestroyAllOutputCalls(outs: seq<Output>, n: nat): seq<Call>
    requires n <= |outs|
    reads outs, set o | o in outs && o.surface != null :: o.surface
  {
    if n == 0 then [] else DestroyAllOutputCalls(outs, n - 1) + OutputDestroyCalls(outs[n - 1])
  }

  /** `destroy_all_outputs`: destroy every output, head first, which leaves
      the list empty. */
  method DestroyAllOutputs(clock: Clock, ghost log: seq<Call>) returns (ghost log': seq<Call>)
    requires clock.Valid()
    modifies clock`outputs
    ensures clock.outputs == [] && clock.Valid()
    ensures log' == log + old(DestroyAllOutputCalls(clock.outputs, |clock.outputs|))
  {
    var outs := clock.outputs;
    log' := log;
    var i := 0;
    while i < |outs|
      invariant 0 <= i <= |outs|
      invariant Distinct(outs) && clock.Valid() && clock.outputs == outs[i..]
      invariant log' == log + DestroyAllOutputCalls(outs, i)
    {
      log' := DestroyHeadOutput(clock, outs, i, log, log');
      i := i + 1;
    }
  }

  /** The turn of `destroy_all_outputs` that destroys `outs[i]`, the head of
      the list. */
  method DestroyHeadOutput(clock: Clock, outs: seq<Output>, i: nat, ghost base: seq<Call>, ghost log: seq<Call>)
    returns (ghost log': seq<Call>)
    requires Distinct(outs) && i < |outs| && clock.Valid() && clock.outputs == outs[i..]
    requires log == base + DestroyAllOutputCalls(outs, i)
    modifies clock`outputs
    ensures clock.Valid() && clock.outputs == outs[i + 1..]
    ensures log' == base + DestroyAllOutputCalls(outs, i + 1)
  {
    var op := clock.outputs[0];
    assert op == outs[i] && op.clock == clock;
    HeadRemoved(outs, i);
    log' := DestroyOutput(op, log);
    AppendAssoc(base, DestroyAllOutputCalls(outs, i), OutputDestroyCalls(op));
  }

  /** Taking the head out of a suffix of a list without repetitions leaves the
      next suffix. */
  lemma HeadRemoved(outs: seq<Output>, i: nat)
    requires Distinct(outs) && i < |outs|
    ensures Without(outs[i..], outs[i]) == outs[i + 1..]
  {
    assert outs[i..] == [outs[i]] + outs[i + 1..];
    assert outs[i] !in outs[i + 1..];
    WithoutAbsent(outs[i + 1..], outs[i]);
  }

  /** One more output destroyed by `destroy_all_outputs`. */
  lemma DestroyAllOutputFreeStep(outs: seq<Output>, n: nat, o: Output)
    requires 0 < n <= |outs|
    ensures Count(FreeOutput(o), DestroyAllOutputCalls(outs, n))
      == Count(FreeOutput(o), DestroyAllOutputCalls(outs, n - 1)) + (if outs[n - 1] == o then 1 else 0)
  {
    CountAppend(FreeOutput(o), DestroyAllOutputCalls(outs, n - 1), OutputDestroyCalls(outs[n - 1]));
    OutputDestroyFreesOnlyItself(outs[n - 1], o);
  }

  /** The first `n` destructions free each output as often as it occurs among
      the first `n` of the list. */
  lemma {:induction false} DestroyAllOutputFreeCount(outs: seq<Output>, n: nat, o: Output)
    requires n <= |outs|
    ensures Count(FreeOutput(o), DestroyAllOutputCalls(outs, n)) == Count(o, outs[..n])
  {
    if n > 0 {
      DestroyAllOutputFreeCount(outs, n - 1, o);
      DestroyAllOutputFreeStep(outs, n, o);
      TakeSnoc(outs, n);
      CountAppend(o, outs[..n - 1], [outs[n - 1]]);
    }
  }

  /** `destroy_all_outputs` frees each output of a proper list exactly once
      and nothing else of that kind. */
  lemma DestroyAllOutputsFreesEachOnce(outs: seq<Output>, n: nat, o: Output)
    requires Distinct(outs) && n <= |outs|
    ensures Count(FreeOutput(o), DestroyAllOutputCalls(outs, n)) == if o in outs[..n] then 1 else 0
  {
    DestroyAllOutputFreeCount(outs, n, o);
    CountDistinctPrefix(outs, n, o);
  }


}
