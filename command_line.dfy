/** The option switch of `handle_command_flags` (src/wlclock.c:158-211) over an
    already parsed option list: what each option does to the clock record, and
    where parsing stops. */
module CommandLine {
  import opened Records
  import opened Sequences

  /** One option as `getopt_long` reports it.  `Unrecognised` stands for every
      other value it returns: an unknown option, or `--output` without its
      argument. */
  datatype Opt =
    | Help
    | Verbose
    | Version
    | OutputName(name: string)
    | NoInput
    | Unrecognised

  /** The options that end parsing with false. */
  predicate Stops(o: Opt)
  {
    o.Help? || o.Version? || o.Unrecognised?
  }

  /** The position of the first option that ends parsing, or `|opts|` when
      none does. */
  function Stop(opts: seq<Opt>): (n: nat)
    ensures n <= |opts|
    ensures forall i :: 0 <= i < n ==> !Stops(opts[i])
    ensures n < |opts| ==> Stops(opts[n])
  {
    if opts == [] then 0
    else if Stops(opts[0]) then 0
    else 1 + Stop(opts[1..])
  }

  /** The fields of the clock record the options set. */
  datatype Flags = Flags(ret: int, verbosity: int, output: Option<string>, input: bool)

  /** What an option that does not end parsing does to the fields. */
  function Step(o: Opt, f: Flags): Flags
  {
    match o
      case Verbose => f.(verbosity := f.verbosity + 1)
      case OutputName(name) => f.(output := Some(name))
      case NoInput => f.(input := false)
      case _ => f
  }

  /** The switch applied to the options in order, from the fields `f`: whether
      parsing got through all of them, and the fields it leaves.  `-h` and
      `-V` end parsing with a success status; an unrecognised option ends it
      with the status as it was. */
  function Apply(opts: seq<Opt>, f: Flags): (bool, Flags)
  {
    if opts == [] then (true, f)
    else if opts[0].Help? || opts[0].Version? then (false, f.(ret := EXIT_SUCCESS))
    else if opts[0].Unrecognised? then (false, f)
    else Apply(opts[1..], Step(opts[0], f))
  }

  /** The output name chosen by the options `opts` over the initial `d`. */
  function LastOutput(opts: seq<Opt>, d: Option<string>): Option<string>
  {
    if opts == [] then d
    else LastOutput(opts[1..], if opts[0].OutputName? then Some(opts[0].name) else d)
  }

  /** The last `--output` wins. */
  lemma {:induction false} LastOutputIsLast(opts: seq<Opt>, d: Option<string>, k: nat)
    requires k < |opts| && opts[k].OutputName?
    requires forall j :: k < j < |opts| ==> !opts[j].OutputName?
    ensures LastOutput(opts, d) == Some(opts[k].name)
  {
    if k == 0 {
      LastOutputAbsent(opts[1..], Some(opts[0].name));
    } else {
      LastOutputIsLast(opts[1..], if opts[0].OutputName? then Some(opts[0].name) else d, k - 1);
    }
  }

  /** Without `--output` the name stays as it was. */
  lemma {:induction false} LastOutputAbsent(opts: seq<Opt>, d: Option<string>)
    requires forall j :: 0 <= j < |opts| ==> !opts[j].OutputName?
    ensures LastOutput(opts, d) == d
  {
    if opts != [] {
      LastOutputAbsent(opts[1..], d);
    }
  }

  /** One option of the switch: the options from position `i` on, over the
      fields `f`. */
  lemma ApplyAt(opts: seq<Opt>, i: nat, f: Flags)
    requires i < |opts|
    ensures Apply(opts[i..], f)
      == if opts[i].Help? || opts[i].Version? then (false, f.(ret := EXIT_SUCCESS))
         else if opts[i].Unrecognised? then (false, f)
         else Apply(opts[i + 1..], Step(opts[i], f))
  {
  }

  /** The prefix of the options before the stop, one option at a time. */
  lemma StopPrefix(opts: seq<Opt>)
    requires opts != [] && !Stops(opts[0])
    ensures opts[..Stop(opts)] == [opts[0]] + opts[1..][..Stop(opts[1..])]
    ensures opts[..Stop(opts)][1..] == opts[1..][..Stop(opts[1..])]
  {
    TakeTail(opts, Stop(opts));
  }


  /** Parsing gets through the options exactly when none of them stops it. */
  lemma {:induction false} ApplyCompletes(opts: seq<Opt>, f: Flags)
    ensures Apply(opts, f).0 <==> Stop(opts) == |opts|
  {
    if opts != [] && !Stops(opts[0]) {
      ApplyCompletes(opts[1..], Step(opts[0], f));
    }
  }

  /** The status becomes a success when parsing stops at `-h` or `-V`, and is
      left as it was otherwise. */
  lemma {:induction false} ApplyStatus(opts: seq<Opt>, f: Flags)
    ensures var n := Stop(opts);
      Apply(opts, f).1.ret == if n < |opts| && !opts[n].Unrecognised? then EXIT_SUCCESS else f.ret
  {
    if opts != [] && !Stops(opts[0]) {
      ApplyStatus(opts[1..], Step(opts[0], f));
    }
  }

  /** Each `-v` before the stop raises the verbosity by one. */
  lemma {:induction false} ApplyVerbosity(opts: seq<Opt>, f: Flags)
    ensures Apply(opts, f).1.verbosity == f.verbosity + Count(Verbose, opts[..Stop(opts)])
  {
    if opts != [] && !Stops(opts[0]) {
      ApplyVerbosity(opts[1..], Step(opts[0], f));
      StopPrefix(opts);
      var pre := opts[..Stop(opts)];
      assert Count(Verbose, pre) == (if opts[0] == Verbose then 1 else 0) + Count(Verbose, pre[1..]);
    }
  }

  /** The last `--output` before the stop names the output. */
  lemma {:induction false} ApplyOutput(opts: seq<Opt>, f: Flags)
    ensures Apply(opts, f).1.output == LastOutput(opts[..Stop(opts)], f.output)
  {
    if opts != [] && !Stops(opts[0]) {
      ApplyOutput(opts[1..], Step(opts[0], f));
      StopPrefix(opts);
      var pre := opts[..Stop(opts)];
      assert LastOutput(pre, f.output) == LastOutput(pre[1..], Step(opts[0], f).output);
    }
  }

  /** Input stays enabled unless a `--no-input` comes before the stop. */
  lemma {:induction false} ApplyInput(opts: seq<Opt>, f: Flags)
    ensures Apply(opts, f).1.input == (f.input && NoInput !in opts[..Stop(opts)])
  {
    if opts != [] && !Stops(opts[0]) {
      ApplyInput(opts[1..], Step(opts[0], f));
      StopPrefix(opts);
      var pre := opts[..Stop(opts)];
      assert NoInput in pre <==> opts[0] == NoInput || NoInput in pre[1..];
    }
  }

  /** `handle_command_flags`: apply the options in order until one ends
      parsing.  `-h` and `-V` (whose text output is not modelled) make the
      exit status a success, `-v` raises the verbosity, `--output` replaces
      the output name and `--no-input` disables input; an unrecognised
      option ends parsing with the status unchanged.  The result is true
      exactly when every option was applied. */
  method HandleCommandFlags(clock: Clock, opts: seq<Opt>) returns (cont: bool)
    modifies clock`ret, clock`verbosity, clock`output, clock`input
    ensures (cont, Flags(clock.ret, clock.verbosity, clock.output, clock.input))
      == Apply(opts, Flags(old(clock.ret), old(clock.verbosity), old(clock.output), old(clock.input)))
    ensures cont <==> Stop(opts) == |opts|
    ensures clock.ret == if Stop(opts) < |opts| && !opts[Stop(opts)].Unrecognised? then EXIT_SUCCESS else old(clock.ret)
    ensures clock.verbosity == old(clock.verbosity) + Count(Verbose, opts[..Stop(opts)])
    ensures clock.output == LastOutput(opts[..Stop(opts)], old(clock.output))
    ensures clock.input == (old(clock.input) && NoInput !in opts[..Stop(opts)])
  {
    ghost var start := Flags(clock.ret, clock.verbosity, clock.output, clock.input);
    cont := true;
    var i := 0;
    while cont && i < |opts|
      invariant 0 <= i <= |opts|
      invariant Apply(opts, start)
        == if cont then Apply(opts[i..], Flags(clock.ret, clock.verbosity, clock.output, clock.input))
           else (false, Flags(clock.ret, clock.verbosity, clock.output, clock.input))
    {
      ApplyAt(opts, i, Flags(clock.ret, clock.verbosity, clock.output, clock.input));
      match opts[i] {
        case Help =>
          clock.ret := EXIT_SUCCESS;
          cont := false;
        case Verbose =>
          clock.verbosity := clock.verbosity + 1;
        case Version =>
          clock.ret := EXIT_SUCCESS;
          cont := false;
        case OutputName(name) =>
          clock.output := Some(name);
        case NoInput =>
          clock.input := false;
        case Unrecognised =>
          cont := false;
      }
      i := i + 1;
    }
    ApplyCompletes(opts, start);
    ApplyStatus(opts, start);
    ApplyVerbosity(opts, start);
    ApplyOutput(opts, start);
    ApplyInput(opts, start);
  }

  /** Options after the first one that ends parsing have no effect: adding
      more of them after it does not move the stop. */
  lemma {:induction false} StopIgnoresRest(opts: seq<Opt>, rest: seq<Opt>)
    requires Stop(opts) < |opts|
    ensures Stop(opts + rest) == Stop(opts)
  {
    if !Stops(opts[0]) {
      assert (opts + rest)[1..] == opts[1..] + rest;
      StopIgnoresRest(opts[1..], rest);
    }
  }
}
