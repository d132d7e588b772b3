/** The session glue of the clock (src/wlclock.c): the registry listener, the
    startup capability check and output catch-up, the minute-aligned poll
    timeout, and the branch on the poll result in the main loop. */
module Session {
  import opened CTypes
  import opened Records
  import opened Sequences
  import opened Surfaces
  import opened Outputs
  import Environment

  /** The four singleton globals the clock needs, in the order the startup
      check tests them. */
  datatype Global = Compositor | Shm | LayerShell | XdgOutputManager

  /** The protocol interface name of a global. */
  function InterfaceName(g: Global): string
  {
    match g
    case Compositor => "wl_compositor"
    case Shm => "wl_shm"
    case LayerShell => "zwlr_layer_shell_v1"
    case XdgOutputManager => "zxdg_output_manager_v1"
  }

  /** The version the registry listener binds each global with. */
  function BindVersion(g: Global): nat
  {
    match g
    case Compositor => 4
    case Shm => 1
    case LayerShell => 1
    case XdgOutputManager => 3
  }

  /** The position of a global in the startup check. */
  function CheckOrder(g: Global): nat
  {
    match g
    case Compositor => 0
    case Shm => 1
    case LayerShell => 2
    case XdgOutputManager => 3
  }

  const WL_OUTPUT_INTERFACE: string := "wl_output"

  /** The singleton global an advertised interface name denotes, if any. */
  function GlobalNamed(iface: string): (r: Option<Global>)
    ensures r.Some? ==> InterfaceName(r.value) == iface
    ensures r.None? ==> forall g :: InterfaceName(g) != iface
    ensures r.Some? ==> iface != WL_OUTPUT_INTERFACE
  {
    if iface == "wl_compositor" then Some(Compositor)
    else if iface == "wl_shm" then Some(Shm)
    else if iface == "zwlr_layer_shell_v1" then Some(LayerShell)
    else if iface == "zxdg_output_manager_v1" then Some(XdgOutputManager)
    else None
  }

  /** Whether the clock holds a non-null proxy for `g`. */
  predicate Bound(c: Clock, g: Global)
    reads c
  {
    match g
    case Compositor => c.compositor
    case Shm => c.shm
    case LayerShell => c.layerShell
    case XdgOutputManager => c.xdgOutputManager
  }

  /** `registry_handle_global`: bind a singleton global into its field (a
      null proxy overwrites the field too), create an output for a wl_output,
      and ignore every other interface.  A failed output creation stops the
      main loop with `EXIT_FAILURE`.  `ok` and `o` are what `create_output`
      returned, true and null when it was not called. */
  method RegistryHandleGlobal(clock: Clock, name: u32, iface: string, version: u32, ghost log: seq<Call>)
    returns (ok: bool, o: Output?, ghost log': seq<Call>)
    requires clock.Valid()
    modifies clock`compositor, clock`shm, clock`layerShell, clock`xdgOutputManager
    modifies clock`outputs, clock`loop, clock`ret
    ensures clock.Valid()
    ensures GlobalNamed(iface).Some? ==>
      && ok && o == null && clock.outputs == old(clock.outputs)
      && clock.loop == old(clock.loop) && clock.ret == old(clock.ret)
      && (forall h :: h != GlobalNamed(iface).value ==> Bound(clock, h) == old(Bound(clock, h)))
      && log' == log + (if Bound(clock, GlobalNamed(iface).value)
                        then [RegistryBind(name, iface, BindVersion(GlobalNamed(iface).value))] else [])
    ensures iface == WL_OUTPUT_INTERFACE ==>
      && OutputCreation(clock, name, ok, o, log, log')
      && (forall h :: Bound(clock, h) == old(Bound(clock, h)))
      && (ok ==> clock.loop == old(clock.loop) && clock.ret == old(clock.ret))
      && (!ok ==> !clock.loop && clock.ret == EXIT_FAILURE)
    ensures GlobalNamed(iface).None? && iface != WL_OUTPUT_INTERFACE ==>
      && ok && o == null && log' == log
      && unchanged(clock)
  {
    ok, o, log' := true, null, log;
    var g := GlobalNamed(iface);
    if g.Some? {
      var bound := Environment.CreateProxy();
      SetBound(clock, g.value, bound);
      if bound {
        log' := log + [RegistryBind(name, iface, BindVersion(g.value))];
      }
    } else if iface == WL_OUTPUT_INTERFACE {
      ok, o, log' := CreateOutput(clock, name, log);
      if !ok {
        clock.loop := false;
        clock.ret := EXIT_FAILURE;
      }
    }
  }

  /** Store the outcome of binding `g` in its field of the clock. */
  method SetBound(clock: Clock, g: Global, bound: bool)
    modifies clock`compositor, clock`shm, clock`layerShell, clock`xdgOutputManager
    ensures Bound(clock, g) == bound
    ensures forall h :: h != g ==> Bound(clock, h) == old(Bound(clock, h))
  {
    match g
    case Compositor => clock.compositor := bound;
    case Shm => clock.shm := bound;
    case LayerShell => clock.layerShell := bound;
    case XdgOutputManager => clock.xdgOutputManager := bound;
  }

  /** `registry_handle_global_remove`: destroy the output with that global
      name, or do nothing when there is none. */
  method RegistryHandleGlobalRemove(clock: Clock, name: u32, ghost log: seq<Call>)
    returns (o: Output?, ghost log': seq<Call>)
    requires clock.Valid()
    modifies clock`outputs
    ensures clock.Valid()
    ensures FindGlobal(old(clock.outputs), name).None? ==>
      o == null && clock.outputs == old(clock.outputs) && log' == log
    ensures FindGlobal(old(clock.outputs), name).Some? ==>
      && o == old(clock.outputs)[FindGlobal(old(clock.outputs), name).value]
      && clock.outputs == Without<Output>(old(clock.outputs), o)
      && log' == log + old(OutputDestroyCalls(o))
  {
    o := GetOutputFromGlobalName(clock, name);
    if o != null {
      ghost var calls := OutputDestroyCalls(o);
      log' := DestroyOutput(o, log);
      assert OutputDestroyCalls(o) == calls;
    } else {
      log' := log;
    }
  }

  /** The first global missing in the order `init_wayland` tests them with
      `capability_test`, or None when all four are bound. */
  function FirstMissing(c: Clock): (r: Option<Global>)
    reads c
    ensures r.None? <==> c.compositor && c.shm && c.layerShell && c.xdgOutputManager
    ensures r.Some? ==> !Bound(c, r.value)
    ensures r.Some? ==> forall g :: CheckOrder(g) < CheckOrder(r.value) ==> Bound(c, g)
  {
    if !c.compositor then Some(Compositor)
    else if !c.shm then Some(Shm)
    else if !c.layerShell then Some(LayerShell)
    else if !c.xdgOutputManager then Some(XdgOutputManager)
    else None
  }

  /** The xdg_output requests the catch-up pass sends for the first `n`
      outputs of `outs` when every one of them succeeds: one for each output
      not configured yet, in list order. */
  ghost function CatchUpCalls(outs: seq<Output>, n: nat): seq<Call>
    requires n <= |outs|
    reads outs
  {
    if n == 0 then []
    else CatchUpCalls(outs, n - 1) + (if outs[n - 1].configured then [] else [GetXdgOutput(outs[n - 1])])
  }

  /** The check and catch-up part of `init_wayland`: fail with the first
      missing global, else configure every output still unconfigured, head
      first, failing at the first configuration that fails.  `failedAt` is the
      position of that output. */
  method InitCheckAndCatchUp(clock: Clock, ghost log: seq<Call>)
    returns (ok: bool, missing: Option<Global>, failedAt: Option<nat>, ghost log': seq<Call>)
    requires clock.Valid()
    modifies clock.outputs`configured
    ensures clock.Valid()
    ensures missing == FirstMissing(clock)
    ensures missing.Some? ==>
      && !ok && failedAt == None && log' == log
      && forall i :: 0 <= i < |clock.outputs| ==> clock.outputs[i].configured == old(clock.outputs[i].configured)
    ensures missing.None? && ok ==>
      && failedAt == None
      && (forall i :: 0 <= i < |clock.outputs| ==> clock.outputs[i].configured)
      && log' == log + old(CatchUpCalls(clock.outputs, |clock.outputs|))
    ensures missing.None? && !ok ==>
      && failedAt.Some? && failedAt.value < |clock.outputs|
      && !old(clock.outputs[failedAt.value].configured)
      && (forall i :: 0 <= i < failedAt.value ==> clock.outputs[i].configured)
      && (forall i :: failedAt.value <= i < |clock.outputs| ==>
            clock.outputs[i].configured == old(clock.outputs[i].configured))
      && log' == log + old(CatchUpCalls(clock.outputs, failedAt.value))
  {
    log', failedAt := log, None;
    missing := FirstMissing(clock);
    if missing.Some? {
      return false, missing, None, log;
    }
    assert Bound(clock, XdgOutputManager);
    var outs := clock.outputs;
    var i := 0;
    while i < |outs|
      invariant 0 <= i <= |outs|
      invariant Distinct(outs) && clock.Valid() && clock.outputs == outs
      invariant forall j :: 0 <= j < i ==> outs[j].configured
      invariant forall j :: i <= j < |outs| ==> outs[j].configured == old(outs[j].configured)
      invariant log' == log + old(CatchUpCalls(clock.outputs, i))
    {
      var op := outs[i];
      ghost var before := log';
      assert old(CatchUpCalls(clock.outputs, i + 1))
        == old(CatchUpCalls(clock.outputs, i)) + (if old(op.configured) then [] else [GetXdgOutput(op)]);
      if !op.configured {
        var configured;
        configured, log' := ConfigureOutput(op, log');
        if !configured {
          return false, None, Some(i), log';
        }
      }
      AppendAssoc(log, old(CatchUpCalls(clock.outputs, i)), if old(op.configured) then [] else [GetXdgOutput(op)]);
      i := i + 1;
    }
    ok := true;
  }

  /** `get_timeout`: milliseconds until the next whole minute, computed with
      the truncating division of `time_t`. */
  function GetTimeout(now: int): (t: int)
    ensures t % 1000 == 0
  {
    ((CDiv(now, 60) * 60) + 60 - now) * 1000
  }

  /** Waking after the timeout lands on a whole minute, for every time. */
  lemma TimeoutAligned(now: int)
    ensures (now + GetTimeout(now) / 1000) % 60 == 0
  {
  }

  /** For times after the epoch the timeout is more than nothing and at most a
      minute, and a whole minute exactly on a minute boundary. */
  lemma TimeoutBounds(now: int)
    requires now >= 0
    ensures 0 < GetTimeout(now) <= 60000
    ensures GetTimeout(now) == 60000 <==> now % 60 == 0
  {
  }

  /** Before the epoch the truncating division rounds toward zero, so the
      timeout is one minute plus the time back to the minute before. */
  lemma TimeoutBeforeEpoch(now: int)
    requires now < 0
    ensures GetTimeout(now) / 1000 == 60 + (-now) % 60
    ensures 60000 <= GetTimeout(now) < 120000
  {
  }

  /** The outcome of one `poll` as the loop sees it: the current time, the
      return value, and the POLLIN and POLLOUT bits of `revents`. */
  datatype Poll = Poll(now: int, result: int, pollIn: bool, pollOut: bool)
  {
    /** Some file descriptor is ready: the turn dispatches or flushes. */
    predicate Active()
    {
      result > 0 && (pollIn || pollOut)
    }

    /** The turn leaves for the error label: a ready descriptor whose
        dispatch or flush failed. */
    predicate Fails(dispatched: bool, flushed: bool)
    {
      result > 0 && ((pollIn && !dispatched) || (pollOut && !flushed))
    }
  }

  /** One turn of `clock_run`'s loop after the flush: record the time, poll
      with the timeout, then redraw on a timeout, dispatch and flush on
      activity, and only log a poll error.  `dispatched` and `flushed` are the
      outcomes of `wl_display_dispatch` and `wl_display_flush`, true for a
      call that is not made; `failed` means the loop is left for the error
      label. */
  method ClockRunStep(clock: Clock, p: Poll, ghost log: seq<Call>)
    returns (timeout: int, dispatched: bool, flushed: bool, failed: bool, rendered: seq<bool>, ghost log': seq<Call>)
    requires clock.Valid()
    modifies clock`now
    ensures clock.now == p.now && timeout == GetTimeout(p.now)
    ensures p.result == 0 ==>
      !failed && |rendered| == |clock.outputs| && log' == log + UpdateAllCalls(clock, rendered)
    ensures p.result != 0 ==> rendered == [] && log' == log
    ensures !(p.result > 0 && p.pollIn) ==> dispatched
    ensures !(p.result > 0 && p.pollOut && dispatched) ==> flushed
    ensures failed <==> p.Fails(dispatched, flushed)
  {
    clock.now := p.now;
    timeout := GetTimeout(clock.now);
    dispatched, flushed, failed, rendered, log' := true, true, false, [], log;
    if p.result == 0 {
      rendered, log' := UpdateAllSurfaces(clock, log);
    } else if p.result > 0 {
      if p.pollIn {
        dispatched := Environment.Dispatch();
      }
      if dispatched && p.pollOut {
        flushed := Environment.Flush();
      }
      failed := !dispatched || !flushed;
    }
  }

  /** The number of polls in `ps` that timed out. */
  function Timeouts(ps: seq<Poll>): (n: nat)
    ensures n <= |ps|
  {
    if ps == [] then 0 else Timeouts(ps[..|ps| - 1]) + (if ps[|ps| - 1].result == 0 then 1 else 0)
  }

  /** `rs` holds, for each poll of `ps`, the render outcomes of one redraw of
      `width` outputs after a timeout, and nothing after any other poll. */
  predicate RendersFit(ps: seq<Poll>, rs: seq<seq<bool>>, width: nat)
  {
    && |rs| == |ps|
    && forall k :: 0 <= k < |rs| ==> |rs[k]| == if ps[k].result == 0 then width else 0
  }

  /** One more poll and its render outcomes. */
  lemma RendersFitSnoc(ps: seq<Poll>, rs: seq<seq<bool>>, width: nat, p: Poll, r: seq<bool>)
    requires RendersFit(ps, rs, width) && |r| == if p.result == 0 then width else 0
    ensures RendersFit(ps + [p], rs + [r], width)
  {
  }

  /** The effects of a run over the polls `ps`, with `rs[k]` the render
      outcomes of the `k`-th poll. */
  ghost function RunCalls(clock: Clock, ps: seq<Poll>, rs: seq<seq<bool>>): seq<Call>
    requires clock.Valid() && |rs| == |ps|
    requires forall k :: 0 <= k < |rs| ==> |rs[k]| <= |clock.outputs|
    reads clock`outputs, clock.outputs, set o | o in clock.outputs && o.surface != null :: o.surface
    reads clock`anchor, clock`marginTop, clock`marginRight, clock`marginBottom, clock`marginLeft, clock`exclusiveZone, clock`input
  {
    if ps == [] then []
    else
      var n := |ps| - 1;
      RunCalls(clock, ps[..n], rs[..n]) + (if ps[n].result == 0 then UpdateAllCalls(clock, rs[n]) else [])
  }

  /** One more poll adds the effects of its redraw, if it timed out. */
  lemma RunCallsSnoc(clock: Clock, ps: seq<Poll>, rs: seq<seq<bool>>, p: Poll, r: seq<bool>)
    requires clock.Valid() && RendersFit(ps, rs, |clock.outputs|)
    requires |r| == if p.result == 0 then |clock.outputs| else 0
    ensures RendersFit(ps + [p], rs + [r], |clock.outputs|)
    ensures RunCalls(clock, ps + [p], rs + [r])
         == RunCalls(clock, ps, rs) + (if p.result == 0 then UpdateAllCalls(clock, r) else [])
  {
    RendersFitSnoc(ps, rs, |clock.outputs|, p, r);
    assert (ps + [p])[..|ps|] == ps && (rs + [r])[..|rs|] == rs;
  }

  /** Turn `steps` of the run: `log` holds the effects of the polls before
      it after `base`, and `log'` those of one more poll. */
  method ClockRunTurn(clock: Clock, polls: seq<Poll>, steps: nat, renders: seq<seq<bool>>,
                      ghost base: seq<Call>, ghost log: seq<Call>)
    returns (dispatched: bool, flushed: bool, failed: bool, renders': seq<seq<bool>>, ghost log': seq<Call>)
    requires clock.Valid() && steps < |polls| && RendersFit(polls[..steps], renders, |clock.outputs|)
    requires log == base + RunCalls(clock, polls[..steps], renders)
    modifies clock`now
    ensures clock.now == polls[steps].now
    ensures failed ==> polls[steps].Active()
    ensures failed <==> polls[steps].Fails(dispatched, flushed)
    ensures RendersFit(polls[..steps + 1], renders', |clock.outputs|)
    ensures log' == base + RunCalls(clock, polls[..steps + 1], renders')
  {
    ghost var ps, p := polls[..steps], polls[steps];
    var timeout, rendered;
    timeout, dispatched, flushed, failed, rendered, log' := ClockRunStep(clock, polls[steps], log);
    RunCallsSnoc(clock, ps, renders, p, rendered);
    renders' := renders + [rendered];
    TakeSnoc(polls, steps + 1);
    AppendAssoc(base, RunCalls(clock, ps, renders), if p.result == 0 then UpdateAllCalls(clock, rendered) else []);
  }

  /** `clock_run` over a finite sequence of poll outcomes: set `ret` to
      success, then take turns while the loop flag is set and polls remain;
      a failed dispatch or flush ends the run with `EXIT_FAILURE`.  `steps`
      is the number of polls taken. */
  method ClockRun(clock: Clock, polls: seq<Poll>, ghost log: seq<Call>)
    returns (steps: nat, dispatched: bool, flushed: bool, renders: seq<seq<bool>>, ghost log': seq<Call>)
    requires clock.Valid()
    modifies clock`now, clock`ret
    ensures steps <= |polls| && RendersFit(polls[..steps], renders, |clock.outputs|)
    ensures clock.ret == EXIT_SUCCESS || clock.ret == EXIT_FAILURE
    ensures clock.ret == EXIT_SUCCESS ==> steps == |polls| || !clock.loop
    ensures !clock.loop ==> steps == 0 && clock.ret == EXIT_SUCCESS
    ensures clock.ret == EXIT_FAILURE ==>
      0 < steps && polls[steps - 1].Active()
    ensures clock.ret == EXIT_FAILURE <==> 0 < steps && polls[steps - 1].Fails(dispatched, flushed)
    ensures steps > 0 ==> clock.now == polls[steps - 1].now
    ensures log' == log + RunCalls(clock, polls[..steps], renders)
  {
    clock.ret := EXIT_SUCCESS;
    steps, dispatched, flushed, renders, log' := 0, true, true, [], log;
    var failed := false;
    while clock.loop && steps < |polls| && !failed
      invariant steps <= |polls| && clock.Valid()
      invariant RendersFit(polls[..steps], renders, |clock.outputs|)
      invariant clock.ret == EXIT_SUCCESS
      invariant steps > 0 ==> clock.now == polls[steps - 1].now
      invariant failed ==> 0 < steps && polls[steps - 1].Active()
      invariant failed <==> 0 < steps && polls[steps - 1].Fails(dispatched, flushed)
      invariant !clock.loop ==> steps == 0 && !failed
      invariant log' == log + RunCalls(clock, polls[..steps], renders)
      decreases |polls| - steps
    {
      dispatched, flushed, failed, renders, log' := ClockRunTurn(clock, polls, steps, renders, log, log');
      steps := steps + 1;
    }
    if failed {
      clock.ret := EXIT_FAILURE;
    }
  }

  /** The startup roundtrip, the check and the run in `main`'s order, when
      the roundtrip advertises one `wl_output`.  A record that cannot be
      created clears the loop flag and sets `EXIT_FAILURE`, but the check does
      not look at either: when it passes, `clock_run` stores `EXIT_SUCCESS`
      and takes no turn, so the program exits with success. */
  method OutputFailureAtStartup(clock: Clock, name: u32, version: u32, polls: seq<Poll>, ghost log: seq<Call>)
    returns (created: bool, initialised: bool, steps: nat, ghost log': seq<Call>)
    requires clock.Valid()
    modifies clock, clock.outputs
    ensures !created ==> !clock.loop && steps == 0
    ensures !created ==> clock.ret == if initialised then EXIT_SUCCESS else EXIT_FAILURE
  {
    var o, missing, failedAt;
    ghost var l;
    created, o, l := RegistryHandleGlobal(clock, name, WL_OUTPUT_INTERFACE, version, log);
    initialised, missing, failedAt, l := InitCheckAndCatchUp(clock, l);
    steps, log' := 0, l;
    if initialised {
      var dispatched, flushed, renders;
      steps, dispatched, flushed, renders, log' := ClockRun(clock, polls, l);
    }
  }

  /** One more poll of a run. */
  lemma RunCommitStep(clock: Clock, ps: seq<Poll>, rs: seq<seq<bool>>, s: Surface)
    requires clock.Valid() && |rs| == |ps| && ps != []
    requires forall k :: 0 <= k < |rs| ==> |rs[k]| <= |clock.outputs|
    ensures var n := |ps| - 1;
      Count(SurfaceCommit(s), RunCalls(clock, ps, rs))
      == Count(SurfaceCommit(s), RunCalls(clock, ps[..n], rs[..n]))
         + (if ps[n].result == 0 then Count(SurfaceCommit(s), UpdateAllCalls(clock, rs[n])) else 0)
  {
    var n := |ps| - 1;
    CountAppend(SurfaceCommit(s), RunCalls(clock, ps[..n], rs[..n]),
      if ps[n].result == 0 then UpdateAllCalls(clock, rs[n]) else []);
  }

  /** Over a run, a configured surface attached to one of the clock's outputs
      is committed once for every poll that timed out, that is once a
      minute, and any other surface never. */
  lemma {:induction false} RunCommitsOncePerTimeout(clock: Clock, ps: seq<Poll>, rs: seq<seq<bool>>, s: Surface)
    requires clock.Valid() && RendersFit(ps, rs, |clock.outputs|)
    ensures Count(SurfaceCommit(s), RunCalls(clock, ps, rs))
      == if s.output in clock.outputs && s.output.surface == s && s.configured then Timeouts(ps) else 0
  {
    if ps != [] {
      var n := |ps| - 1;
      RunCommitsOncePerTimeout(clock, ps[..n], rs[..n], s);
      RunCommitStep(clock, ps, rs, s);
      UpdateAllCommitsEachConfiguredOnce(clock, rs[n], s);
      if ps[n].result == 0 {
        assert clock.outputs[..|rs[n]|] == clock.outputs;
      }
    }
  }
}
