/** The driver script whoop.py: the time budget shared by repeated runs of one tool, and the
    staged pipeline with its skip and stop options. What a tool does when it is run, and how
    long it takes, are inputs. */
module Toolchain {
  import opened Options

  datatype Tool = Chauffeur | Clang | Smack | Engine | Cruncher | RaceChecker | Corral {
    // The place of a tool in the chain.
    function Rank(): nat {
      match this
      case Chauffeur => 0
      case Clang => 1
      case Smack => 2
      case Engine => 3
      case Cruncher => 4
      case RaceChecker => 5
      case Corral => 6
    }
  }

  const SUCCESS := 0
  const COMMAND_LINE_ERROR := 1
  const CLANG_ERROR := 3
  const SMACK_ERROR := 4
  const WHOOP_ERROR := 5
  const DRIVER_ERROR := 6
  const CORRAL_ERROR := 7
  const TIMEOUT := 8

  // The error code each tool is run with.
  function ErrorCode(tool: Tool): int {
    match tool
    case Chauffeur => CLANG_ERROR
    case Clang => CLANG_ERROR
    case Smack => SMACK_ERROR
    case Engine => WHOOP_ERROR
    case Cruncher => WHOOP_ERROR
    case RaceChecker => DRIVER_ERROR
    case Corral => CORRAL_ERROR
  }

  // ----- Time budget -----

  /** How one invocation of a tool ended. */
  datatype Ending = Completed(code: int, elapsed: real) | TimedOut | NotInvoked

  /** The limit handed to an invocation: what is left of the timeout, but at least one second. */
  function Limit(timeout: nat, spent: Option<real>): int {
    if timeout > 0 && spent.Some? then
      var remaining := timeout - spent.value.Floor;
      if remaining < 1 then 1 else remaining
    else timeout
  }

  function Spend(spent: Option<real>, more: real): Option<real> {
    Some(if spent.Some? then spent.value + more else more)
  }

  /** What is left of the timeout, rounded up to a second; a second once it is used up; and all of it
      for a tool that has not been charged, or when there is no timeout. */
  ghost predicate IsRest(timeout: nat, charged: Option<real>, limit: int) {
    if timeout == 0 || charged.None? then limit == timeout
    else if charged.value < timeout as real then
      timeout as real <= charged.value + limit as real < (timeout + 1) as real
    else limit == 1
  }

  lemma LimitIsRest(timeout: nat, charged: Option<real>)
    ensures IsRest(timeout, charged, Limit(timeout, charged))
  {
    if timeout != 0 && charged.Some? {
      var s := charged.value;
      assert s.Floor as real <= s < (s.Floor + 1) as real;
    }
  }

  /** The invocation lets the chain go on: the tool ran to its end with code 0, or it is the race
      checker and bugs are looked for. */
  predicate Passes(findBugs: bool, tool: Tool, end: Ending) {
    end.Completed? && (end.code == 0 || (findBugs && tool.RaceChecker?))
  }

  /** The exit code for an invocation that does not. */
  function Reported(tool: Tool, end: Ending): int {
    if end.TimedOut? then 8 else [3, 3, 4, 5, 5, 6, 7][tool.Rank()]
  }

  function ExitAfter(findBugs: bool, tool: Tool, end: Ending): int {
    if Passes(findBugs, tool, end) then 0 else Reported(tool, end)
  }

  // The invocations of Corral that take place are the first `n`: up to one that ends the chain, or all.
  ghost predicate CorralRun(ends: seq<Ending>, n: nat) {
    && n <= |ends|
    && (forall k :: 0 <= k < n - 1 ==> Passes(true, Corral, ends[k]))
    && (n < |ends| ==> 0 < n && !Passes(true, Corral, ends[n - 1]))
  }

  function CorralExit(ends: seq<Ending>, n: nat): int
    requires n <= |ends|
  {
    if n == 0 then 0 else ExitAfter(true, Corral, ends[n - 1])
  }

  // What has been charged to one tool after these invocations, with timing enabled.
  ghost function Accumulated(timeout: nat, ends: seq<Ending>): Option<real>
    decreases |ends|
  {
    if ends == [] then None
    else
      var before := Accumulated(timeout, ends[..|ends| - 1]);
      match ends[|ends| - 1]
      case NotInvoked => before
      case TimedOut => Spend(before, Limit(timeout, before) as real)
      case Completed(_, elapsed) => Spend(before, elapsed)
  }

  // No invocation outlasts the limit it was handed.
  ghost predicate WithinLimits(timeout: nat, ends: seq<Ending>) {
    forall k :: 0 <= k < |ends| && ends[k].Completed? ==>
      0.0 <= ends[k].elapsed <= Limit(timeout, Accumulated(timeout, ends[..k])) as real
  }

  lemma WithinPrefix(timeout: nat, ends: seq<Ending>, n: nat)
    requires n <= |ends| && WithinLimits(timeout, ends)
    ensures WithinLimits(timeout, ends[..n])
  {
    assert forall k :: 0 <= k < n ==> ends[..n][..k] == ends[..k];
    assert forall k :: 0 <= k < n ==> ends[..n][k] == ends[k];
  }

  lemma OneMoreRun(timeout: nat, spent: real)
    requires timeout > 0 && 0.0 <= spent
    ensures var limit := Limit(timeout, Some(spent));
      spent + limit as real <= spent + 1.0 || spent + limit as real <= (timeout + 1) as real
  {
    assert spent.Floor as real <= spent < (spent.Floor + 1) as real;
  }

  /** However often a tool is invoked, it overdraws its timeout by less than a second each time
      after the first, and every invocation gets between one second and the whole timeout. */
  lemma {:induction false} BudgetHolds(timeout: nat, ends: seq<Ending>)
    requires timeout > 0 && WithinLimits(timeout, ends)
    ensures Accumulated(timeout, ends).Some? ==>
      0.0 <= Accumulated(timeout, ends).value <= (timeout + |ends|) as real - 1.0
    ensures 1 <= Limit(timeout, Accumulated(timeout, ends)) <= timeout
    decreases |ends|
  {
    if ends != [] {
      var n := |ends| - 1;
      WithinPrefix(timeout, ends, n);
      BudgetHolds(timeout, ends[..n]);
      var before := Accumulated(timeout, ends[..n]);
      if before.Some? {
        OneMoreRun(timeout, before.value);
      }
      assert ends[n].Completed? ==> 0.0 <= ends[n].elapsed <= Limit(timeout, before) as real;
      assert n == 0 ==> ends[..n] == [];
    }
  }

  // The time all invocations took together.
  function Total(ends: seq<Ending>): real
    decreases |ends|
  {
    if ends == [] then 0.0
    else Total(ends[..|ends| - 1]) + if ends[|ends| - 1].Completed? then ends[|ends| - 1].elapsed else 0.0
  }

  ghost predicate NoneTimedOut(ends: seq<Ending>) {
    forall k :: 0 <= k < |ends| ==> !ends[k].TimedOut? && (ends[k].Completed? ==> 0.0 <= ends[k].elapsed)
  }

  lemma {:induction false} ChargedIsTotal(timeout: nat, ends: seq<Ending>)
    requires NoneTimedOut(ends)
    ensures Accumulated(timeout, ends).GetOr(0.0) == Total(ends) && 0.0 <= Total(ends)
    decreases |ends|
  {
    if ends != [] {
      ChargedIsTotal(timeout, ends[..|ends| - 1]);
    }
  }

  lemma {:induction false} TotalGrows(ends: seq<Ending>, k: nat)
    requires NoneTimedOut(ends) && k < |ends| && ends[k].Completed?
    ensures Total(ends[..k]) + ends[k].elapsed <= Total(ends)
    decreases |ends|
  {
    var init := ends[..|ends| - 1];
    if k < |init| {
      TotalGrows(init, k);
      assert init[..k] == ends[..k];
    } else {
      assert ends[..k] == init;
    }
  }

  /** Invocations that together stay within the timeout each get a limit they stay within. */
  lemma FairShare(timeout: nat, ends: seq<Ending>)
    requires 0 < timeout && NoneTimedOut(ends) && Total(ends) <= timeout as real
    ensures WithinLimits(timeout, ends)
  {
    forall k | 0 <= k < |ends| && ends[k].Completed?
      ensures 0.0 <= ends[k].elapsed <= Limit(timeout, Accumulated(timeout, ends[..k])) as real
    {
      TotalGrows(ends, k);
      ChargedIsTotal(timeout, ends[..k]);
      LimitIsRest(timeout, Accumulated(timeout, ends[..k]));
    }
  }

  // A first run of the full timeout and then runs of a second each.
  function Greedy(timeout: nat, n: nat): seq<Ending> {
    seq(n, i => Completed(SUCCESS, if i == 0 then timeout as real else 1.0))
  }

  /** The bound is attained for every number of invocations. */
  lemma {:induction false} BudgetIsTight(timeout: nat, n: nat)
    requires timeout > 0 && n > 0
    ensures WithinLimits(timeout, Greedy(timeout, n))
    ensures Accumulated(timeout, Greedy(timeout, n)) == Some((timeout + n) as real - 1.0)
  {
    var ends := Greedy(timeout, n);
    if n == 1 {
      assert ends[..0] == [];
    } else {
      var init := Greedy(timeout, n - 1);
      BudgetIsTight(timeout, n - 1);
      assert ends[..n - 1] == init;
      forall k | 0 <= k < n && ends[k].Completed?
        ensures 0.0 <= ends[k].elapsed <= Limit(timeout, Accumulated(timeout, ends[..k])) as real
      {
        if k < n - 1 {
          assert ends[..k] == init[..k] && ends[k] == init[k];
        }
      }
    }
  }

  // ----- Stages -----

  /** The six stages with a skip flag, in order; Corral follows them. */
  const STAGES: seq<Tool> := [Chauffeur, Clang, Smack, Engine, Cruncher, RaceChecker]

  datatype Extension = C | Bc | Bpl | Unknown

  /** The options that steer the stages; the others do not matter here. */
  datatype Opt =
    | SkipUntil(target: Tool)   // --skip-until-clang ... --skip-until-corral
    | StopAt(tool: Tool)        // --stop-at-re, -bc, -bpl, -engine, -cruncher, -race-checker
    | NoInfer
    | FindBugs

  // How many leading stages an input or option switches off.
  function DepthOfExtension(e: Extension): nat {
    match e case C => 0 case Bc => 2 case Bpl => 3 case Unknown => 0
  }

  function DepthOfOption(o: Opt): nat {
    match o
    case SkipUntil(Clang) => 1
    case SkipUntil(Smack) => 2
    case SkipUntil(Engine) => 3
    case SkipUntil(Cruncher) => 4
    case SkipUntil(RaceChecker) => 5
    case SkipUntil(Corral) => 6
    case _ => 0
  }

  function Max(a: nat, b: nat): nat {
    if a < b then b else a
  }

  function DeepestExtension(es: seq<Extension>): (d: nat)
    ensures d <= 3
    decreases |es|
  {
    if es == [] then 0 else Max(DeepestExtension(es[..|es| - 1]), DepthOfExtension(es[|es| - 1]))
  }

  function DeepestOption(opts: seq<Opt>): (d: nat)
    ensures d <= 6
    decreases |opts|
  {
    if opts == [] then 0 else Max(DeepestOption(opts[..|opts| - 1]), DepthOfOption(opts[|opts| - 1]))
  }

  /** Exactly the first `depth` flags are up. */
  ghost predicate SkipsFirst(skip: seq<bool>, depth: nat) {
    |skip| == 6 && forall i :: 0 <= i < 6 ==> (skip[i] <==> i < depth)
  }

  // The flags getSourceFiles raises, or None when it rejects the inputs.
  method GetSourceFiles(es: seq<Extension>) returns (skip: Option<seq<bool>>)
    ensures skip == None <==> es == [] || Unknown in es
    ensures skip.Some? ==> SkipsFirst(skip.value, DeepestExtension(es))
  {
    if |es| == 0 {
      return None;
    }
    var flags := [false, false, false, false, false, false];
    for i := 0 to |es|
      invariant Unknown !in es[..i]
      invariant SkipsFirst(flags, DeepestExtension(es[..i]))
    {
      assert es[..i + 1][..i] == es[..i];
      match es[i]
      case C =>
      case Bc =>
        flags := flags[0 := true][1 := true];
      case Bpl =>
        flags := flags[0 := true][1 := true][2 := true];
      case Unknown =>
        return None;
    }
    assert es[..|es|] == es;
    skip := Some(flags);
  }

  // The first loop of processGeneralOptions on the skip flags.
  method ProcessSkipOptions(start: seq<bool>, opts: seq<Opt>, ghost depth: nat) returns (skip: seq<bool>)
    requires SkipsFirst(start, depth)
    ensures SkipsFirst(skip, Max(depth, DeepestOption(opts)))
  {
    skip := start;
    for i := 0 to |opts|
      invariant SkipsFirst(skip, Max(depth, DeepestOption(opts[..i])))
    {
      assert opts[..i + 1][..i] == opts[..i];
      match opts[i]
      case SkipUntil(Clang) => skip := skip[0 := true];
      case SkipUntil(Smack) => skip := skip[0 := true][1 := true];
      case SkipUntil(Engine) => skip := skip[0 := true][1 := true][2 := true];
      case SkipUntil(Cruncher) => skip := skip[0 := true][1 := true][2 := true][3 := true];
      case SkipUntil(RaceChecker) => skip := skip[0 := true][1 := true][2 := true][3 := true][4 := true];
      case SkipUntil(Corral) => skip := skip[0 := true][1 := true][2 := true][3 := true][4 := true][5 := true];
      case _ =>
    }
    assert opts[..|opts|] == opts;
  }

  // ----- What the chain does -----

  predicate Stops(opts: seq<Opt>, tool: Tool) {
    StopAt(tool) in opts
  }

  // The stages from number `depth` on and before number `last`; without inference the cruncher is not
  // among them.
  function Stretch(depth: nat, last: nat, noInfer: bool): seq<Tool>
    requires last <= 6
  {
    if last <= depth then []
    else Stretch(depth, last - 1, noInfer) + if noInfer && STAGES[last - 1].Cruncher? then [] else [STAGES[last - 1]]
  }

  /** What is given to a run: how each stage would end, how each run of Corral would end, the
      number of stages skipped and the options. */
  datatype Input = Input(ends: Tool -> Ending, corral: seq<Ending>, depth: nat, opts: seq<Opt>, findBugs: bool) {

    // Every stage there is to run.
    function All(): seq<Tool> {
      Stretch(depth, 6, NoInfer in opts)
    }

    // After this stage the chain goes on.
    predicate GoesOn(tool: Tool) {
      Passes(findBugs, tool, ends(tool)) && !Stops(opts, tool)
    }

    // The first three stop options count even for a stage that is skipped.
    predicate StopsBeforeAll() {
      exists i :: 0 <= i < 3 && i < depth && Stops(opts, STAGES[i])
    }
  }

  /** The stages run, in order; the number of runs of Corral; and the exit code. */
  datatype Result = Result(ran: seq<Tool>, corral: nat, exit: int)

  // The stages run are `ran` and the last of them did not let the chain go on.
  ghost predicate EndsAfter(x: Input, ran: seq<Tool>) {
    ran != [] && !x.GoesOn(ran[|ran| - 1])
  }

  /** The whole behaviour: the stages run up to the first after which the chain does not go on,
      which decides the exit code; Corral is run if there was none and bugs are looked for. */
  ghost predicate Outcome(x: Input, r: Result) {
    if x.StopsBeforeAll() then r == Result([], 0, 0)
    else
      && r.ran <= x.All()
      && (forall k :: 0 <= k < |r.ran| - 1 ==> x.GoesOn(r.ran[k]))
      && if EndsAfter(x, r.ran) then
           var last := r.ran[|r.ran| - 1];
           r.corral == 0 && r.exit == ExitAfter(x.findBugs, last, x.ends(last))
         else
           && r.ran == x.All()
           && if !x.findBugs then r.corral == 0 && r.exit == 0
              else CorralRun(x.corral, r.corral) && r.exit == CorralExit(x.corral, r.corral)
  }

  // Stages before number `i` have been passed, having run `ran`.
  ghost predicate Reached(x: Input, i: nat, ran: seq<Tool>) {
    && i <= 6
    && ran == Stretch(x.depth, i, NoInfer in x.opts)
    && (forall k :: 0 <= k < |ran| ==> x.GoesOn(ran[k]))
    && (forall j :: 0 <= j < i && j < 3 && j < x.depth ==> !Stops(x.opts, STAGES[j]))
  }

  lemma {:induction false} StretchGrows(depth: nat, i: nat, last: nat, noInfer: bool)
    requires i <= last <= 6
    ensures Stretch(depth, i, noInfer) <= Stretch(depth, last, noInfer)
    decreases last
  {
    if i < last {
      StretchGrows(depth, i, last - 1, noInfer);
    }
  }

  lemma EndsHere(x: Input, i: nat, ran: seq<Tool>)
    requires i < 6 && Reached(x, i, ran) && x.depth <= i && !(STAGES[i].Cruncher? && NoInfer in x.opts)
    requires !x.GoesOn(STAGES[i])
    ensures Outcome(x, Result(ran + [STAGES[i]], 0, ExitAfter(x.findBugs, STAGES[i], x.ends(STAGES[i]))))
  {
    StretchGrows(x.depth, i + 1, 6, NoInfer in x.opts);
    assert ran + [STAGES[i]] == Stretch(x.depth, i + 1, NoInfer in x.opts);
  }

  lemma Through(x: Input, ran: seq<Tool>)
    requires Reached(x, 6, ran)
    ensures !x.StopsBeforeAll() && ran == x.All() && !EndsAfter(x, ran)
  {
  }

  lemma SameLength(x: Input, r: Result, r': Result)
    requires Outcome(x, r) && Outcome(x, r') && !x.StopsBeforeAll()
    ensures |r.ran| <= |r'.ran|
    ensures r.ran == r'.ran ==> r.corral <= r'.corral
  {
    assert |r'.ran| <= |r.ran| ==> r'.ran <= r.ran;
  }

  /** The outcome is determined by the input. */
  lemma OneOutcome(x: Input, r: Result, r': Result)
    requires Outcome(x, r) && Outcome(x, r')
    ensures r == r'
  {
    if !x.StopsBeforeAll() {
      SameLength(x, r, r');
      SameLength(x, r', r);
      assert r.ran == x.All()[..|r.ran|] && r'.ran == x.All()[..|r'.ran|];
    }
  }

  /** The exit code is zero exactly if every tool that ran, ran to its end, and with code 0 unless it
      was the race checker while bugs are looked for. Otherwise the last tool to run decides it: 8 if
      it ran out of time, else the code that stands for the tool. */
  lemma ExitCode(x: Input, r: Result)
    requires Outcome(x, r)
    ensures r.corral <= |x.corral|
    ensures r.exit == 0 <==>
      && (forall k :: 0 <= k < |r.ran| ==> var end := x.ends(r.ran[k]);
            end.Completed? && (end.code == 0 || (r.ran[k].RaceChecker? && x.findBugs)))
      && (forall k :: 0 <= k < r.corral ==> x.corral[k].Completed? && x.corral[k].code == 0)
    ensures r.exit != 0 && 0 < r.corral ==> r.exit == if x.corral[r.corral - 1].TimedOut? then 8 else 7
    ensures r.exit != 0 && r.corral == 0 ==>
      r.ran != [] && var last := r.ran[|r.ran| - 1];
      r.exit == if x.ends(last).TimedOut? then 8 else [3, 3, 4, 5, 5, 6, 7][last.Rank()]
  {
  }

  lemma {:induction false} StretchIs(depth: nat, last: nat, noInfer: bool)
    requires last <= 6
    ensures forall t :: t in Stretch(depth, last, noInfer) <==> depth <= t.Rank() < last && !(noInfer && t == Cruncher)
    ensures forall j, k :: 0 <= j < k < |Stretch(depth, last, noInfer)| ==>
      Stretch(depth, last, noInfer)[j].Rank() < Stretch(depth, last, noInfer)[k].Rank()
    decreases last
  {
    if depth < last {
      StretchIs(depth, last - 1, noInfer);
      assert forall t: Tool :: t.Rank() == last - 1 <==> t == STAGES[last - 1];
    }
  }

  /** The stages there are to run: those not skipped, the cruncher only with inference, in the order of
      the chain. */
  lemma AllStages(x: Input)
    ensures forall t :: t in x.All() <==> x.depth <= t.Rank() < 6 && !(NoInfer in x.opts && t == Cruncher)
    ensures forall j, k :: 0 <= j < k < |x.All()| ==> x.All()[j].Rank() < x.All()[k].Rank()
  {
    StretchIs(x.depth, 6, NoInfer in x.opts);
  }

  /** Nothing runs after a tool with a stop option that counts: it is one of the first three stages,
      skipped or not, or a later stage that there is to run. */
  lemma StopOption(x: Input, r: Result, tool: Tool)
    requires Outcome(x, r) && StopAt(tool) in x.opts && (tool.Rank() < 3 || tool in x.All())
    ensures r.corral == 0 && forall k :: 0 <= k < |r.ran| ==> r.ran[k].Rank() <= tool.Rank()
  {
    if !x.StopsBeforeAll() {
      AllStages(x);
      assert tool.Rank() < 3 ==> STAGES[tool.Rank()] == tool;
      var at: nat :| at < |x.All()| && x.All()[at] == tool;
      assert at < |r.ran| ==> r.ran[at] == tool;
      assert forall k :: 0 <= k < |r.ran| ==> r.ran[k] == x.All()[k];
    }
  }

  /** Corral is reached only through all the stages there are to run, and only when bugs are looked for. */
  lemma CorralComesLast(x: Input, r: Result)
    requires Outcome(x, r) && 0 < r.corral
    ensures x.findBugs && r.ran == x.All() && forall k :: 0 <= k < |r.ran| ==> x.GoesOn(r.ran[k])
  {
  }

  /** With no stop option and no tool that fails, all stages not skipped run, and Corral on all its files. */
  lemma UndisturbedRun(x: Input, r: Result)
    requires Outcome(x, r)
    requires forall tool :: !Stops(x.opts, tool)
    requires forall k :: 0 <= k < |x.All()| ==> Passes(x.findBugs, x.All()[k], x.ends(x.All()[k]))
    requires forall k :: 0 <= k < |x.corral| ==> Passes(x.findBugs, Corral, x.corral[k])
    ensures r == Result(x.All(), if x.findBugs then |x.corral| else 0, 0)
  {
    assert forall k :: 0 <= k < |r.ran| ==> r.ran[k] == x.All()[k];
    assert !EndsAfter(x, r.ran);
  }

  // ----- From the command line -----

  /** An input or an option keeps this tool from running. */
  ghost predicate Skipped(es: seq<Extension>, opts: seq<Opt>, tool: Tool) {
    || (Bc in es && tool in {Chauffeur, Clang})
    || (Bpl in es && tool in {Chauffeur, Clang, Smack})
    || exists u :: SkipUntil(u) in opts && tool.Rank() < u.Rank()
  }

  lemma {:induction false} ExtensionsSkip(es: seq<Extension>, tool: Tool)
    ensures tool.Rank() < DeepestExtension(es) <==>
      (Bc in es && tool in {Chauffeur, Clang}) || (Bpl in es && tool in {Chauffeur, Clang, Smack})
    decreases |es|
  {
    if es != [] {
      var init, last := es[..|es| - 1], es[|es| - 1];
      ExtensionsSkip(init, tool);
      assert es == init + [last];
    }
  }

  lemma {:induction false} OptionsSkip(opts: seq<Opt>, tool: Tool)
    ensures tool.Rank() < DeepestOption(opts) <==> exists u :: SkipUntil(u) in opts && tool.Rank() < u.Rank()
    decreases |opts|
  {
    if opts != [] {
      var init, last := opts[..|opts| - 1], opts[|opts| - 1];
      OptionsSkip(init, tool);
      assert opts == init + [last];
      if tool.Rank() < DeepestOption(opts) {
        if tool.Rank() < DeepestOption(init) {
          var u :| SkipUntil(u) in init && tool.Rank() < u.Rank();
          assert SkipUntil(u) in opts;
        } else {
          assert SkipUntil(last.target) in opts;
        }
      }
    }
  }

  // What the inputs and options make of a run.
  function InputOf(es: seq<Extension>, opts: seq<Opt>, ends: Tool -> Ending, corral: seq<Ending>): Input {
    Input(ends, corral, Max(DeepestExtension(es), DeepestOption(opts)), opts, FindBugs in opts)
  }

  /** The stages there are to run, from inputs and options alone. */
  lemma StagesFromCommandLine(es: seq<Extension>, opts: seq<Opt>, ends: Tool -> Ending, corral: seq<Ending>, tool: Tool)
    ensures tool in InputOf(es, opts, ends, corral).All() <==>
      tool != Corral && !Skipped(es, opts, tool) && !(NoInfer in opts && tool == Cruncher)
  {
    AllStages(InputOf(es, opts, ends, corral));
    ExtensionsSkip(es, tool);
    OptionsSkip(opts, tool);
  }

  // ----- The driver -----

  class Driver {
    const time: bool       // --time
    const timeout: nat     // --timeout
    const findBugs: bool   // --find-bugs
    var timing: map<Tool, real>

    constructor (time: bool, timeout: nat, findBugs: bool)
      ensures this.time == time && this.timeout == timeout && this.findBugs == findBugs && timing == map[]
    {
      this.time := time;
      this.timeout := timeout;
      this.findBugs := findBugs;
      timing := map[];
    }

    function Spent(tool: Tool): Option<real>
      reads this
    {
      if tool in timing then Some(timing[tool]) else None
    }

    // runTool: `exit` is the error code reported, or None when the chain goes on.
    method RunTool(tool: Tool, end: Ending) returns (limit: int, exit: Option<int>)
      modifies this
      ensures limit == Limit(timeout, old(Spent(tool))) && IsRest(timeout, old(Spent(tool)), limit)
      ensures forall t :: t != tool ==> Spent(t) == old(Spent(t))
      ensures Spent(tool) == if !time || end.NotInvoked? then old(Spent(tool))
                             else Spend(old(Spent(tool)), if end.TimedOut? then limit as real else end.elapsed)
      ensures end.TimedOut? ==> exit == Some(8)
      ensures end.NotInvoked? ==> exit == Some([3, 3, 4, 5, 5, 6, 7][tool.Rank()])
      ensures end.Completed? && end.code == 0 ==> exit == None
      ensures end.Completed? && end.code != 0 ==>
        exit == if findBugs && tool == RaceChecker then None else Some([3, 3, 4, 5, 5, 6, 7][tool.Rank()])
    {
      LimitIsRest(timeout, Spent(tool));
      limit := timeout;
      if timeout > 0 && tool in timing {
        limit := timeout - timing[tool].Floor;
        if limit < 1 {
          limit := 1;
        }
      }
      match end
      case NotInvoked =>
        exit := Some(ErrorCode(tool));
      case TimedOut =>
        if time {
          timing := if tool in timing then timing[tool := timing[tool] + limit as real] else timing[tool := timeout as real];
        }
        exit := Some(TIMEOUT);
      case Completed(code, elapsed) =>
        if time {
          timing := if tool in timing then timing[tool := timing[tool] + elapsed] else timing[tool := elapsed];
        }
        exit := None;
        if code != SUCCESS && !(findBugs && tool.RaceChecker?) {
          exit := Some(ErrorCode(tool));
        }
    }

    // runCorral: one invocation per generated file until one of them ends the chain. With
    // timing on, later invocations get what is left; with timing off, each gets the full timeout.
    method RunCorral(ends: seq<Ending>) returns (limits: seq<int>, exit: Option<int>)
      modifies this
      ensures CorralRun(ends, |limits|) && exit.GetOr(0) == CorralExit(ends, |limits|)
      ensures forall t :: t != Corral ==> Spent(t) == old(Spent(t))
      ensures limits == [] ==> Spent(Corral) == old(Spent(Corral))
      ensures time && old(Spent(Corral)) == None ==>
        && Spent(Corral) == Accumulated(timeout, ends[..|limits|])
        && (forall k :: 0 <= k < |limits| ==> limits[k] == Limit(timeout, Accumulated(timeout, ends[..k])))
        && (forall k :: 0 <= k < |limits| ==> IsRest(timeout, Accumulated(timeout, ends[..k]), limits[k]))
      ensures time && old(Spent(Corral)) == None && 0 < timeout && WithinLimits(timeout, ends) && Spent(Corral).Some? ==>
        Spent(Corral).value <= (timeout + |limits|) as real - 1.0
      ensures !time && old(Spent(Corral)) == None ==>
        Spent(Corral) == None && forall k :: 0 <= k < |limits| ==> limits[k] == timeout
    {
      limits, exit := [], None;
      while |limits| < |ends| && exit == None
        invariant |limits| <= |ends|
        invariant forall k :: 0 <= k < |limits| - 1 ==> Passes(true, Corral, ends[k])
        invariant exit.GetOr(0) == CorralExit(ends, |limits|) && (exit == None <==> CorralExit(ends, |limits|) == 0)
        invariant forall t :: t != Corral ==> Spent(t) == old(Spent(t))
        invariant limits == [] ==> Spent(Corral) == old(Spent(Corral))
        invariant time && old(Spent(Corral)) == None ==>
          && Spent(Corral) == Accumulated(timeout, ends[..|limits|])
          && (forall k :: 0 <= k < |limits| ==> limits[k] == Limit(timeout, Accumulated(timeout, ends[..k])))
        invariant !time && old(Spent(Corral)) == None ==>
          Spent(Corral) == None && forall k :: 0 <= k < |limits| ==> limits[k] == timeout
        decreases |ends| - |limits|
      {
        var n := |limits|;
        assert ends[..n + 1][..n] == ends[..n];
        var limit;
        limit, exit := RunTool(Corral, ends[n]);
        limits := limits + [limit];
      }
      forall k | 0 <= k < |limits|
        ensures IsRest(timeout, Accumulated(timeout, ends[..k]), Limit(timeout, Accumulated(timeout, ends[..k])))
      {
        LimitIsRest(timeout, Accumulated(timeout, ends[..k]));
      }
      if 0 < timeout && WithinLimits(timeout, ends) {
        WithinPrefix(timeout, ends, |limits|);
        BudgetHolds(timeout, ends[..|limits|]);
      }
    }

    // One stage: run unless skipped, then the stop option, which for the first three stages is
    // looked at even when the stage was skipped. `over` is set when the chain ends here.
    method RunStage(i: nat, skip: bool, x: Input, before: seq<Tool>) returns (r: Result, over: bool)
      requires i < 6 && skip == (i < x.depth) && Reached(x, i, before) && x.findBugs == findBugs
      requires STAGES[i].Cruncher? ==> NoInfer !in x.opts
      modifies this
      ensures if over then Outcome(x, r) else Reached(x, i + 1, r.ran)
      ensures r.corral == 0 && before <= r.ran && forall t :: t !in r.ran ==> Spent(t) == old(Spent(t))
    {
      var tool := STAGES[i];
      r, over := Result(before, 0, SUCCESS), true;
      if !skip {
        var limit, exit := RunTool(tool, x.ends(tool));
        r := Result(before + [tool], 0, exit.GetOr(SUCCESS));
        if exit.Some? || Stops(x.opts, tool) {
          EndsHere(x, i, before);
          return;
        }
      } else if i < 3 && Stops(x.opts, tool) {
        return;
      }
      over := false;
    }

    method RunTwoStages(i: nat, skip: seq<bool>, x: Input, before: seq<Tool>) returns (r: Result, over: bool)
      requires i <= 2 && SkipsFirst(skip, x.depth) && Reached(x, i, before) && x.findBugs == findBugs
      modifies this
      ensures if over then Outcome(x, r) else Reached(x, i + 2, r.ran)
      ensures r.corral == 0 && before <= r.ran && forall t :: t !in r.ran ==> Spent(t) == old(Spent(t))
    {
      r, over := RunStage(i, skip[i], x, before);
      if !over {
        r, over := RunStage(i + 1, skip[i + 1], x, r.ran);
      }
    }

    // Chauffeur, Clang, Smack and the instrumentation engine.
    method RunFrontEnd(skip: seq<bool>, x: Input) returns (r: Result, over: bool)
      requires SkipsFirst(skip, x.depth) && x.findBugs == findBugs
      modifies this
      ensures if over then Outcome(x, r) else Reached(x, 4, r.ran)
      ensures r.corral == 0 && forall t :: t !in r.ran ==> Spent(t) == old(Spent(t))
    {
      r, over := RunTwoStages(0, skip, x, []);
      if !over {
        r, over := RunTwoStages(2, skip, x, r.ran);
      }
    }

    // Inference and race checking.
    method RunBackEnd(skip: seq<bool>, x: Input, before: seq<Tool>) returns (r: Result, over: bool)
      requires SkipsFirst(skip, x.depth) && x.findBugs == findBugs && Reached(x, 4, before)
      modifies this
      ensures if over then Outcome(x, r) else Reached(x, 6, r.ran)
      ensures r.corral == 0 && before <= r.ran && forall t :: t !in r.ran ==> Spent(t) == old(Spent(t))
    {
      r, over := Result(before, 0, SUCCESS), false;
      if NoInfer !in x.opts {
        r, over := RunStage(4, skip[4], x, before);
      }
      if !over {
        r, over := RunStage(5, skip[5], x, r.ran);
      }
    }

    /** startToolChain from the first stage on: the outcome is the one described, and only tools
        that ran are charged time. */
    method RunStages(skip: seq<bool>, x: Input) returns (r: Result)
      requires SkipsFirst(skip, x.depth) && x.findBugs == findBugs
      modifies this
      ensures Outcome(x, r)
      ensures forall t :: t !in r.ran && (t != Corral || r.corral == 0) ==> Spent(t) == old(Spent(t))
    {
      var over;
      r, over := RunFrontEnd(skip, x);
      if !over {
        r, over := RunBackEnd(skip, x, r.ran);
      }
      if over {
        return;
      }
      Through(x, r.ran);
      r := Result(r.ran, 0, SUCCESS);
      if findBugs {
        var limits, exit := RunCorral(x.corral);
        r := Result(r.ran, |limits|, exit.GetOr(SUCCESS));
      }
    }
  }

  /** From the command line to the exit code: the whole chain for inputs and options at once. */
  method StartToolChain(es: seq<Extension>, opts: seq<Opt>, time: bool, timeout: nat,
                        ends: Tool -> Ending, corral: seq<Ending>)
    returns (r: Result)
    ensures es == [] || Unknown in es ==> r == Result([], 0, COMMAND_LINE_ERROR)
    ensures es != [] && Unknown !in es ==> Outcome(InputOf(es, opts, ends, corral), r)
    ensures forall tool :: tool in r.ran ==>
      tool != Corral && !Skipped(es, opts, tool) && !(NoInfer in opts && tool == Cruncher)
  {
    var flags := GetSourceFiles(es);
    if flags == None {
      return Result([], 0, COMMAND_LINE_ERROR);
    }
    var skip := ProcessSkipOptions(flags.value, opts, DeepestExtension(es));
    var driver := new Driver(time, timeout, FindBugs in opts);
    r := driver.RunStages(skip, InputOf(es, opts, ends, corral));
    forall tool | tool in r.ran
      ensures tool != Corral && !Skipped(es, opts, tool) && !(NoInfer in opts && tool == Cruncher)
    {
      StagesFromCommandLine(es, opts, ends, corral, tool);
    }
  }
}
