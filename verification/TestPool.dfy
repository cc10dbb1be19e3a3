/** The worker pool of tester.py: threads that take tests from a shared queue, some of which
    may die inside a test, and a main thread that polls the queue's count of unfinished tasks. */
module TestPool {
  import opened Options

  // Each added test object is one task.
  type Test = nat

  /** Queue.Queue: its items and its private count of tasks put but not yet reported done. */
  class TaskQueue {
    var items: seq<Test>
    var unfinished: int

    constructor ()
      ensures items == [] && unfinished == 0
    {
      items := [];
      unfinished := 0;
    }

    method Put(t: Test)
      modifies this
      ensures items == old(items) + [t] && unfinished == old(unfinished) + 1
    {
      items := items + [t];
      unfinished := unfinished + 1;
    }

    // The blocking get, at the moment it is served.
    method Get() returns (t: Test)
      requires items != []
      modifies this
      ensures [t] + items == old(items) && unfinished == old(unfinished)
    {
      t := items[0];
      items := items[1..];
    }

    // Raises ValueError when called more often than there were items.
    method TaskDone() returns (raised: bool)
      modifies this
      ensures items == old(items)
      ensures raised <==> old(unfinished) <= 0
      ensures unfinished == if raised then old(unfinished) else old(unfinished) - 1
    {
      raised := unfinished <= 0;
      if !raised {
        unfinished := unfinished - 1;
      }
    }
  }

  datatype Worker =
    | Idle
    | Running(test: Test)
    | Ran(test: Test)        // test.run() has returned, task_done() not yet called
    | Dead(test: Test)       // test.run() raised, and the thread is gone
  {
    predicate Holds() {
      Running? || Dead?
    }

    predicate Owes() {
      !Idle?
    }
  }

  datatype Main =
    | Adding
    | Polling
    | Returned                      // waitForCompletion returned normally
    | Draining(hand: Option<Test>)  // clearing the queue after KeyboardInterrupt
    | Fetching                      // has seen a test in the queue and is in the blocking get
    | Raised

  datatype Pool = Pool(
    items: seq<Test>,
    unfinished: int,
    workers: seq<Worker>,
    main: Main,
    added: seq<Test>,
    completed: seq<Test>,
    discarded: seq<Test>)

  datatype Step =
    | Add(test: Test)
    | Start
    | Take(worker: nat)
    | Finish(worker: nat)
    | Die(worker: nat)
    | Report(worker: nat)
    | Poll
    | Interrupt
    | DrainCheck
    | DrainTake
    | DrainReport
    | Reraise

  function Init(threads: nat): Pool {
    Pool([], 0, seq(threads, _ => Idle), Adding, [], [], [])
  }

  predicate Enabled(s: Pool, step: Step) {
    match step
    case Add(_) => s.main.Adding?
    case Start => s.main.Adding?
    case Take(w) => w < |s.workers| && s.workers[w].Idle? && !s.main.Adding? && s.items != []
    case Finish(w) => w < |s.workers| && s.workers[w].Running?
    case Die(w) => w < |s.workers| && s.workers[w].Running?
    case Report(w) => w < |s.workers| && s.workers[w].Ran?
    case Poll => s.main.Polling?
    case Interrupt => s.main.Polling?
    case DrainCheck => s.main == Draining(None) && s.items != []
    case DrainTake => s.main.Fetching? && s.items != []
    case DrainReport => s.main.Draining? && s.main.hand.Some?
    case Reraise => s.main == Draining(None) && s.items == []
  }

  function Apply(s: Pool, step: Step): Pool
    requires Enabled(s, step)
  {
    match step
    case Add(t) => s.(items := s.items + [t], unfinished := s.unfinished + 1, added := s.added + [t])
    case Start => s.(main := Polling)
    case Take(w) => s.(items := s.items[1..], workers := s.workers[w := Running(s.items[0])])
    case Finish(w) =>
      s.(workers := s.workers[w := Ran(s.workers[w].test)], completed := s.completed + [s.workers[w].test])
    case Die(w) => s.(workers := s.workers[w := Dead(s.workers[w].test)])
    case Report(w) => s.(workers := s.workers[w := Idle], unfinished := s.unfinished - 1)
    case Poll => if s.unfinished > 0 then s else s.(main := Returned)
    case Interrupt => s.(main := Draining(None))
    case DrainCheck => s.(main := Fetching)
    case DrainTake => s.(items := s.items[1..], main := Draining(Some(s.items[0])))
    case DrainReport =>
      s.(unfinished := s.unfinished - 1, main := Draining(None), discarded := s.discarded + [s.main.hand.value])
    case Reraise => s.(main := Raised)
  }

  function Run(s: Pool, steps: seq<Step>): Option<Pool>
    decreases |steps|
  {
    if steps == [] then Some(s)
    else
      match Run(s, steps[..|steps| - 1])
      case None => None
      case Some(mid) =>
        if Enabled(mid, steps[|steps| - 1]) then Some(Apply(mid, steps[|steps| - 1])) else None
  }

  ghost predicate Reachable(threads: nat, s: Pool) {
    exists steps :: Run(Init(threads), steps) == Some(s)
  }

  // ----- Accounting -----

  function One(b: bool): nat {
    if b then 1 else 0
  }

  // How many workers hold test `t`: running it, or dead with it in their hands.
  ghost function Held(workers: seq<Worker>, t: Test): nat {
    if workers == [] then 0 else Held(workers[1..], t) + One(workers[0].Holds() && workers[0].test == t)
  }

  // How many workers have taken a task and not reported it done.
  ghost function Owing(workers: seq<Worker>): nat {
    if workers == [] then 0 else Owing(workers[1..]) + One(workers[0].Owes())
  }

  predicate InHand(main: Main) {
    main.Draining? && main.hand.Some?
  }

  ghost function Occurrences(s: seq<Test>, t: Test): nat {
    multiset(s)[t]
  }

  lemma {:induction false} WorkerChanges(workers: seq<Worker>, w: nat, now: Worker, t: Test)
    requires w < |workers|
    ensures Owing(workers[w := now]) + One(workers[w].Owes()) == Owing(workers) + One(now.Owes())
    ensures Held(workers[w := now], t) + One(workers[w].Holds() && workers[w].test == t)
         == Held(workers, t) + One(now.Holds() && now.test == t)
  {
    if w != 0 {
      WorkerChanges(workers[1..], w - 1, now, t);
      assert workers[w := now][1..] == workers[1..][w - 1 := now];
    } else {
      assert workers[w := now][1..] == workers[1..];
    }
  }

  lemma {:induction false} NobodyOwes(workers: seq<Worker>, t: Test)
    ensures Owing(workers) == 0 ==> Held(workers, t) == 0
    ensures Owing(workers) == 0 <==> forall w :: 0 <= w < |workers| ==> workers[w].Idle?
  {
    if workers != [] {
      NobodyOwes(workers[1..], t);
      assert (forall w :: 0 <= w < |workers| ==> workers[w].Idle?)
        <==> workers[0].Idle? && forall w :: 0 <= w < |workers[1..]| ==> workers[1..][w].Idle?;
    }
  }

  // Every time `t` was added it is still queued, held by a worker, completed, discarded or in
  // the drainer's hand, and in one of these places only.
  ghost predicate Accounted(s: Pool, t: Test) {
    Occurrences(s.added, t)
    == Occurrences(s.items, t) + Held(s.workers, t) + Occurrences(s.completed, t) + Occurrences(s.discarded, t)
       + One(InHand(s.main) && s.main.hand.value == t)
  }

  ghost predicate CountExact(s: Pool) {
    s.unfinished == |s.items| + Owing(s.workers) + One(InHand(s.main))
  }

  /** The unfinished count is exactly what is queued, in flight, abandoned or in the drainer's
      hand, and no test is lost or run twice. */
  ghost predicate Inv(s: Pool) {
    && CountExact(s)
    && (forall t :: Accounted(s, t))
    && (s.main.Adding? || s.main.Polling? || s.main.Returned? ==> s.discarded == [])
    && (s.main.Returned? ==> s.unfinished == 0)
  }

  lemma TakeFront(s: seq<Test>, t: Test)
    requires s != []
    ensures Occurrences(s, t) == One(s[0] == t) + Occurrences(s[1..], t)
  {
    assert s == [s[0]] + s[1..];
  }

  lemma Append(s: seq<Test>, x: Test, t: Test)
    ensures Occurrences(s + [x], t) == Occurrences(s, t) + One(x == t)
  {
  }

  lemma AddKeepsAccount(s: Pool, x: Test, t: Test)
    requires Enabled(s, Add(x)) && Accounted(s, t)
    ensures Accounted(Apply(s, Add(x)), t)
  {
    Append(s.items, x, t);
    Append(s.added, x, t);
  }

  lemma TakeKeepsAccount(s: Pool, w: nat, t: Test)
    requires Enabled(s, Take(w)) && Accounted(s, t)
    ensures Accounted(Apply(s, Take(w)), t)
  {
    TakeFront(s.items, t);
    WorkerChanges(s.workers, w, Running(s.items[0]), t);
  }

  lemma FinishKeepsAccount(s: Pool, w: nat, t: Test)
    requires Enabled(s, Finish(w)) && Accounted(s, t)
    ensures Accounted(Apply(s, Finish(w)), t)
  {
    WorkerChanges(s.workers, w, Ran(s.workers[w].test), t);
    Append(s.completed, s.workers[w].test, t);
  }

  lemma DrainKeepsAccount(s: Pool, step: Step, t: Test)
    requires step.DrainTake? || step.DrainReport?
    requires Enabled(s, step) && Accounted(s, t)
    ensures Accounted(Apply(s, step), t)
  {
    match step
    case DrainTake => TakeFront(s.items, t);
    case DrainReport => Append(s.discarded, s.main.hand.value, t);
  }

  lemma StepKeepsAccount(s: Pool, step: Step, t: Test)
    requires Enabled(s, step) && Accounted(s, t)
    ensures Accounted(Apply(s, step), t)
  {
    match step
    case Add(x) => AddKeepsAccount(s, x, t);
    case Take(w) => TakeKeepsAccount(s, w, t);
    case Finish(w) => FinishKeepsAccount(s, w, t);
    case Die(w) => WorkerChanges(s.workers, w, Dead(s.workers[w].test), t);
    case Report(w) => WorkerChanges(s.workers, w, Idle, t);
    case DrainTake => DrainKeepsAccount(s, step, t);
    case DrainReport => DrainKeepsAccount(s, step, t);
    case _ =>
  }

  lemma StepKeepsCount(s: Pool, step: Step)
    requires Enabled(s, step) && CountExact(s)
    ensures CountExact(Apply(s, step))
  {
    match step
    case Take(w) => WorkerChanges(s.workers, w, Running(s.items[0]), 0);
    case Finish(w) => WorkerChanges(s.workers, w, Ran(s.workers[w].test), 0);
    case Die(w) => WorkerChanges(s.workers, w, Dead(s.workers[w].test), 0);
    case Report(w) => WorkerChanges(s.workers, w, Idle, 0);
    case _ =>
  }

  lemma StepKeepsInv(s: Pool, step: Step)
    requires Inv(s) && Enabled(s, step)
    ensures Inv(Apply(s, step))
  {
    forall t
      ensures Accounted(Apply(s, step), t)
    {
      StepKeepsAccount(s, step, t);
    }
    StepKeepsCount(s, step);
  }

  lemma InitInv(threads: nat)
    ensures Inv(Init(threads))
  {
    forall t
      ensures Accounted(Init(threads), t)
    {
      NobodyOwes(Init(threads).workers, t);
    }
    NobodyOwes(Init(threads).workers, 0);
  }

  lemma {:induction false} RunInv(threads: nat, steps: seq<Step>, s: Pool)
    requires Run(Init(threads), steps) == Some(s)
    ensures Inv(s)
    decreases |steps|
  {
    if steps == [] {
      InitInv(threads);
    } else {
      var mid := Run(Init(threads), steps[..|steps| - 1]).value;
      RunInv(threads, steps[..|steps| - 1], mid);
      StepKeepsInv(mid, steps[|steps| - 1]);
    }
  }

  /** A normal return means every added test ran to completion, exactly as often as it was added. */
  lemma ReturnMeansAllRan(threads: nat, s: Pool)
    requires Reachable(threads, s) && s.main.Returned?
    ensures multiset(s.completed) == multiset(s.added)
    ensures s.items == [] && forall w :: 0 <= w < |s.workers| ==> s.workers[w].Idle?
  {
    var steps :| Run(Init(threads), steps) == Some(s);
    RunInv(threads, steps, s);
    forall t
      ensures multiset(s.completed)[t] == multiset(s.added)[t]
    {
      assert Accounted(s, t);
      NobodyOwes(s.workers, t);
    }
    NobodyOwes(s.workers, 0);
  }

  /** In every reachable state: the count is exact, no report can find it already at zero, and
      the poll returns exactly when nothing is queued and every worker is idle. */
  lemma CountIsExact(threads: nat, s: Pool)
    requires Reachable(threads, s)
    ensures CountExact(s)
    ensures forall w :: 0 <= w < |s.workers| && s.workers[w].Ran? ==> 0 < s.unfinished
    ensures InHand(s.main) ==> 0 < s.unfinished
    ensures s.main.Polling? ==>
      (Apply(s, Poll).main.Returned? <==> s.items == [] && forall w :: 0 <= w < |s.workers| ==> s.workers[w].Idle?)
  {
    var steps :| Run(Init(threads), steps) == Some(s);
    RunInv(threads, steps, s);
    NobodyOwes(s.workers, 0);
  }

  // ----- A worker that dies -----

  ghost predicate SomebodyDied(s: Pool) {
    exists w :: 0 <= w < |s.workers| && s.workers[w].Dead?
  }

  lemma {:induction false} DeathIsForever(s: Pool, steps: seq<Step>)
    requires SomebodyDied(s) && Run(s, steps).Some?
    ensures SomebodyDied(Run(s, steps).value)
    decreases |steps|
  {
    if steps != [] {
      DeathIsForever(s, steps[..|steps| - 1]);
      var mid := Run(s, steps[..|steps| - 1]).value;
      var w :| 0 <= w < |mid.workers| && mid.workers[w].Dead?;
      assert Run(s, steps).value.workers[w].Dead?;
    }
  }

  lemma {:induction false} RunConcat(s: Pool, a: seq<Step>, b: seq<Step>)
    requires Run(s, a).Some?
    ensures Run(s, a + b) == Run(Run(s, a).value, b)
    decreases |b|
  {
    if b == [] {
      assert a + b == a;
    } else {
      assert (a + b)[..|a + b| - 1] == a + b[..|b| - 1];
      RunConcat(s, a, b[..|b| - 1]);
    }
  }

  lemma {:induction false} RunPrefix(s: Pool, a: seq<Step>, b: seq<Step>)
    requires Run(s, a + b).Some?
    ensures Run(s, a).Some?
    decreases |b|
  {
    if b == [] {
      assert a + b == a;
    } else {
      assert (a + b)[..|a + b| - 1] == a + b[..|b| - 1];
      RunPrefix(s, a, b[..|b| - 1]);
    }
  }

  /** Once a worker has died inside a test, no continuation ever returns normally. */
  lemma DeathPreventsReturn(threads: nat, s: Pool, steps: seq<Step>)
    requires Reachable(threads, s) && SomebodyDied(s) && Run(s, steps).Some?
    ensures !Run(s, steps).value.main.Returned?
  {
    var first :| Run(Init(threads), first) == Some(s);
    RunConcat(Init(threads), first, steps);
    var end := Run(s, steps).value;
    assert Run(Init(threads), first + steps) == Some(end);
    assert Reachable(threads, end);
    DeathIsForever(s, steps);
    if end.main.Returned? {
      ReturnMeansAllRan(threads, end);
    }
  }

  lemma DieKills(s: Pool, w: nat)
    requires Enabled(s, Die(w))
    ensures SomebodyDied(Apply(s, Die(w)))
  {
    assert Apply(s, Die(w)).workers[w].Dead?;
  }

  lemma LastStep(s: Pool, steps: seq<Step>)
    requires steps != [] && Run(s, steps).Some?
    ensures var mid := Run(s, steps[..|steps| - 1]); var last := steps[|steps| - 1];
      mid.Some? && Enabled(mid.value, last) && Run(s, steps) == Some(Apply(mid.value, last))
  {
  }

  /** A run in which a worker died has not returned normally. */
  lemma DieMeansNoReturn(threads: nat, steps: seq<Step>, w: nat, rest: seq<Step>)
    requires Run(Init(threads), steps + [Die(w)] + rest).Some?
    ensures !Run(Init(threads), steps + [Die(w)] + rest).value.main.Returned?
  {
    var first := steps + [Die(w)];
    RunPrefix(Init(threads), first, rest);
    LastStep(Init(threads), first);
    assert first[..|first| - 1] == steps;
    var s := Run(Init(threads), first).value;
    DieKills(Run(Init(threads), steps).value, w);
    assert Reachable(threads, s);
    RunConcat(Init(threads), first, rest);
    DeathPreventsReturn(threads, s, rest);
  }

  // ----- When the poll can still return -----

  // Steps the workers need to be done with what they hold.
  ghost function Work(workers: seq<Worker>): nat {
    if workers == [] then 0
    else Work(workers[1..]) + if workers[0].Running? then 2 else if workers[0].Ran? then 1 else 0
  }

  lemma {:induction false} WorkShrinks(workers: seq<Worker>, w: nat, now: Worker)
    requires w < |workers|
    requires (workers[w].Running? && now.Ran?) || (workers[w].Ran? && now.Idle?)
    ensures Work(workers[w := now]) < Work(workers)
  {
    if w != 0 {
      WorkShrinks(workers[1..], w - 1, now);
      assert workers[w := now][1..] == workers[1..][w - 1 := now];
    } else {
      assert workers[w := now][1..] == workers[1..];
    }
  }

  lemma OneStep(s: Pool, step: Step, rest: seq<Step>)
    requires Enabled(s, step)
    ensures Run(s, [step] + rest) == Run(Apply(s, step), rest)
  {
    assert [step][..0] == [];
    assert Run(s, [step]) == Some(Apply(s, step));
    RunConcat(s, [step], rest);
  }

  ghost predicate CanFinish(s: Pool) {
    Inv(s) && s.main.Polling? && !SomebodyDied(s) && (s.items == [] || s.workers != [])
  }

  lemma NobodyDies(s: Pool, step: Step)
    requires Enabled(s, step) && !step.Die? && !SomebodyDied(s)
    ensures !SomebodyDied(Apply(s, step))
  {
    var s' := Apply(s, step);
    forall w | 0 <= w < |s'.workers|
      ensures !s'.workers[w].Dead?
    {
      assert !s.workers[w].Dead?;
    }
  }

  // The next step towards the end, unless the poll returns right away.
  lemma Progress(s: Pool) returns (step: Step)
    requires CanFinish(s) && !(s.items == [] && forall w :: 0 <= w < |s.workers| ==> s.workers[w].Idle?)
    ensures Enabled(s, step) && CanFinish(Apply(s, step))
    ensures 3 * |Apply(s, step).items| + Work(Apply(s, step).workers) < 3 * |s.items| + Work(s.workers)
  {
    if w: nat :| w < |s.workers| && s.workers[w].Running? {
      step := Finish(w);
      WorkShrinks(s.workers, w, Ran(s.workers[w].test));
    } else if w: nat :| w < |s.workers| && s.workers[w].Ran? {
      step := Report(w);
      WorkShrinks(s.workers, w, Idle);
    } else {
      assert forall w :: 0 <= w < |s.workers| ==> !s.workers[w].Dead?;
      assert s.workers[0].Idle?;
      step := Take(0);
      assert s.workers[0 := Running(s.items[0])][1..] == s.workers[1..];
    }
    StepKeepsInv(s, step);
    NobodyDies(s, step);
  }

  lemma {:induction false} Finishes(s: Pool) returns (steps: seq<Step>)
    requires CanFinish(s)
    ensures Run(s, steps).Some? && Run(s, steps).value.main.Returned?
    decreases 3 * |s.items| + Work(s.workers)
  {
    if s.items == [] && forall w :: 0 <= w < |s.workers| ==> s.workers[w].Idle? {
      NobodyOwes(s.workers, 0);
      OneStep(s, Poll, []);
      steps := [Poll] + [];
    } else {
      var step := Progress(s);
      var rest := Finishes(Apply(s, step));
      OneStep(s, step, rest);
      steps := [step] + rest;
    }
  }

  lemma {:induction false} StuckWithoutWorkers(s: Pool, steps: seq<Step>)
    requires Inv(s) && s.workers == [] && s.main.Polling? && s.items != [] && Run(s, steps).Some?
    ensures var e := Run(s, steps).value;
      Inv(e) && e.workers == [] && (e.main.Polling? ==> e.items != []) && !e.main.Returned? && !e.main.Adding?
    decreases |steps|
  {
    if steps != [] {
      var init, last := steps[..|steps| - 1], steps[|steps| - 1];
      StuckWithoutWorkers(s, init);
      StepKeepsInv(Run(s, init).value, last);
    }
  }

  lemma {:induction false} WorkersStay(threads: nat, steps: seq<Step>)
    requires Run(Init(threads), steps).Some?
    ensures |Run(Init(threads), steps).value.workers| == threads
    decreases |steps|
  {
    if steps != [] {
      WorkersStay(threads, steps[..|steps| - 1]);
    }
  }

  /** While main polls, some continuation returns normally exactly if no worker has died and there is
      a worker for what is queued. */
  lemma CanReturnIff(threads: nat, s: Pool)
    requires Reachable(threads, s) && s.main.Polling?
    ensures (exists steps :: Run(s, steps).Some? && Run(s, steps).value.main.Returned?)
            <==> !SomebodyDied(s) && (s.items == [] || 0 < threads)
  {
    var first :| Run(Init(threads), first) == Some(s);
    RunInv(threads, first, s);
    WorkersStay(threads, first);
    if !SomebodyDied(s) && (s.items == [] || 0 < threads) {
      var steps := Finishes(s);
    } else {
      forall steps | Run(s, steps).Some?
        ensures !Run(s, steps).value.main.Returned?
      {
        if SomebodyDied(s) {
          DeathPreventsReturn(threads, s, steps);
        } else {
          StuckWithoutWorkers(s, steps);
        }
      }
    }
  }

  // Add the tests and start polling.
  lemma {:induction false} AddsAll(threads: nat, tests: seq<Test>) returns (steps: seq<Step>)
    ensures Run(Init(threads), steps).Some?
    ensures var s := Run(Init(threads), steps).value;
      s.main.Adding? && s.added == tests && s.items == tests && s.workers == Init(threads).workers
    decreases |tests|
  {
    if tests == [] {
      steps := [];
    } else {
      var before := AddsAll(threads, tests[..|tests| - 1]);
      steps := before + [Add(tests[|tests| - 1])];
      assert steps[..|steps| - 1] == before;
      assert tests == tests[..|tests| - 1] + [tests[|tests| - 1]];
    }
  }

  lemma {:induction false} NothingAdded(s: Pool, steps: seq<Step>)
    requires !s.main.Adding? && Run(s, steps).Some?
    ensures !Run(s, steps).value.main.Adding? && Run(s, steps).value.added == s.added
    decreases |steps|
  {
    if steps != [] {
      NothingAdded(s, steps[..|steps| - 1]);
    }
  }

  /** With at least one worker, any list of tests can be added and run until the poll returns. */
  lemma AnyTestsCanRun(threads: nat, tests: seq<Test>) returns (steps: seq<Step>)
    requires 0 < threads
    ensures Run(Init(threads), steps).Some?
    ensures var s := Run(Init(threads), steps).value; s.main.Returned? && s.added == tests
  {
    var adding := AddsAll(threads, tests);
    var first := adding + [Start];
    assert first[..|first| - 1] == adding;
    var s := Run(Init(threads), first).value;
    RunInv(threads, first, s);
    var rest := Finishes(s);
    steps := first + rest;
    RunConcat(Init(threads), first, rest);
    NothingAdded(s, rest);
  }

  // ----- Interruption -----

  lemma FirstThenRest(before: seq<Test>, items: seq<Test>)
    requires items != []
    ensures before + items == before + [items[0]] + items[1..]
  {
  }

  /** After an interrupt nothing returns normally any more, and the queue is only ever emptied. */
  lemma {:induction false} InterruptedForGood(s: Pool, steps: seq<Step>)
    requires Enabled(s, Interrupt) && Run(Apply(s, Interrupt), steps).Some?
    ensures var e := Run(Apply(s, Interrupt), steps).value;
      && (e.main.Draining? || e.main.Fetching? || e.main.Raised?)
      && e.added == s.added && |e.items| <= |s.items|
    decreases |steps|
  {
    if steps != [] {
      InterruptedForGood(s, steps[..|steps| - 1]);
    }
  }

  // What is left when the first test of the queue has been fetched and reported done.
  function WithoutFirst(s: Pool): Pool
    requires s.items != []
  {
    s.(items := s.items[1..], unfinished := s.unfinished - 1, main := Draining(None),
       discarded := s.discarded + [s.items[0]])
  }

  lemma FetchOne(s: Pool, rest: seq<Step>)
    requires s.main.Fetching? && s.items != []
    ensures Run(s, [DrainTake] + ([DrainReport] + rest)) == Run(WithoutFirst(s), rest)
  {
    OneStep(Apply(s, DrainTake), DrainReport, rest);
    OneStep(s, DrainTake, [DrainReport] + rest);
  }

  lemma CheckAndFetch(s: Pool, rest: seq<Step>)
    requires s.main == Draining(None) && s.items != []
    ensures Run(s, [DrainCheck] + ([DrainTake] + ([DrainReport] + rest))) == Run(WithoutFirst(s), rest)
  {
    FetchOne(s.(main := Fetching), rest);
    OneStep(s, DrainCheck, [DrainTake] + ([DrainReport] + rest));
  }

  lemma {:induction false} Drains(s: Pool) returns (steps: seq<Step>)
    requires s.main == Draining(None)
    ensures Run(s, steps).Some? && Run(s, steps).value.main.Raised? && Run(s, steps).value.items == []
    ensures Run(s, steps).value.discarded == s.discarded + s.items
    decreases |s.items|
  {
    if s.items == [] {
      OneStep(s, Reraise, []);
      steps := [Reraise] + [];
    } else {
      var rest := Drains(WithoutFirst(s));
      CheckAndFetch(s, rest);
      steps := [DrainCheck] + ([DrainTake] + ([DrainReport] + rest));
      FirstThenRest(s.discarded, s.items);
    }
  }

  /** Left alone, the interrupted main thread discards what is queued, in order, and raises. */
  lemma InterruptDrains(s: Pool) returns (steps: seq<Step>)
    requires Enabled(s, Interrupt)
    ensures var e := Run(Apply(s, Interrupt), steps);
      e.Some? && e.value.main.Raised? && e.value.items == [] && e.value.discarded == s.discarded + s.items
  {
    steps := Drains(Apply(s, Interrupt));
  }

  // The queue was emptied between the main thread's look at it and its get.
  predicate Blocked(s: Pool) {
    s.main.Fetching? && s.items == []
  }

  lemma {:induction false} BlockedForGood(s: Pool, steps: seq<Step>)
    requires Blocked(s) && Run(s, steps).Some?
    ensures Blocked(Run(s, steps).value)
    decreases |steps|
  {
    if steps != [] {
      BlockedForGood(s, steps[..|steps| - 1]);
    }
  }

  lemma CanRaise(s: Pool) returns (steps: seq<Step>)
    requires (s.main.Draining? || s.main.Fetching?) && !Blocked(s)
    ensures Run(s, steps).Some? && Run(s, steps).value.main.Raised?
  {
    if s.main.Fetching? {
      var rest := Drains(WithoutFirst(s));
      FetchOne(s, rest);
      steps := [DrainTake] + ([DrainReport] + rest);
    } else if s.main.hand.Some? {
      var rest := Drains(Apply(s, DrainReport));
      OneStep(s, DrainReport, rest);
      steps := [DrainReport] + rest;
    } else {
      steps := Drains(s);
    }
  }

  /** The interrupted main thread can get to raise exactly if it is not waiting on an empty queue:
      the get blocks, so the exception that would end the loop never comes. */
  lemma CanRaiseIff(s: Pool)
    requires s.main.Draining? || s.main.Fetching?
    ensures (exists steps :: Run(s, steps).Some? && Run(s, steps).value.main.Raised?) <==> !Blocked(s)
  {
    if Blocked(s) {
      forall steps | Run(s, steps).Some?
        ensures !Run(s, steps).value.main.Raised?
      {
        BlockedForGood(s, steps);
      }
    } else {
      var steps := CanRaise(s);
    }
  }

  /** With any worker at all that can happen. */
  lemma InterruptMayBlock(threads: nat) returns (s: Pool)
    requires 0 < threads
    ensures Reachable(threads, s) && Blocked(s)
  {
    var s1 := Apply(Init(threads), Add(0));
    var s2 := Apply(s1, Start);
    var s3 := Apply(s2, Interrupt);
    var s4 := Apply(s3, DrainCheck);
    s := Apply(s4, Take(0));
    OneStep(s4, Take(0), []);
    OneStep(s3, DrainCheck, [Take(0)] + []);
    OneStep(s2, Interrupt, [DrainCheck] + ([Take(0)] + []));
    OneStep(s1, Start, [Interrupt] + ([DrainCheck] + ([Take(0)] + [])));
    var steps := [Start] + ([Interrupt] + ([DrainCheck] + ([Take(0)] + [])));
    OneStep(Init(threads), Add(0), steps);
    assert Run(Init(threads), [Add(0)] + steps) == Some(s);
  }

  // ----- The shared queue does what the steps say -----

  method Execute(q: TaskQueue, s: Pool, step: Step) returns (s': Pool)
    requires Enabled(s, step) && q.items == s.items && q.unfinished == s.unfinished
    requires Inv(s)
    modifies q
    ensures s' == Apply(s, step) && q.items == s'.items && q.unfinished == s'.unfinished
  {
    NobodyOwes(s.workers, 0);
    s' := Apply(s, step);
    match step {
      case Add(t) => q.Put(t);
      case Take(_) => var t := q.Get();
      case Report(_) => var raised := q.TaskDone();
      case DrainTake => var t := q.Get();
      case DrainReport => var raised := q.TaskDone();
      case _ =>
    }
  }
}
