/** Any number of threads interleaving the operations of Model/asm/rwsem.h on one semaphore.
    A locker whose fast path fails is left pending with its bias still in the count; from
    there it may also take the form the header's first comment gives to a waiting locker
    (upper half only), through `rwsem_atomic_update`. Nobody is ever granted the lock later. */
module RwSemProtocol {
  import opened Options
  import opened RwSem

  datatype Role =
    | Idle
    | Reading
    | Writing
    | ReadPending
    | WritePending
    | Waiting
    | TryingRead(seen: int)   // inside the trylock loop, holding the value last loaded
    | TryingWrite(seen: int)
  {
    // Contributes RWSEM_ACTIVE_BIAS to the count.
    predicate InLowHalf() {
      Reading? || Writing? || ReadPending? || WritePending?
    }

    // Contributes RWSEM_WAITING_BIAS to the count.
    predicate InHighHalf() {
      Writing? || WritePending? || Waiting?
    }
  }

  datatype State = State(count: int, roles: map<nat, Role>)

  /** Each step is one locked instruction, together with the branch taken on its flags. */
  datatype Step =
    | DownRead(t: nat)
    | DownWrite(t: nat)
    | TryReadLoad(t: nat)
    | TryReadExchange(t: nat)
    | TryWriteLoad(t: nat)
    | TryWriteExchange(t: nat)
    | UpRead(t: nat)
    | UpWrite(t: nat)
    | Downgrade(t: nat)
    | Wait(t: nat)

  function Init(threads: set<nat>): State {
    State(0, map t | t in threads :: Idle)
  }

  /** What one instruction does: the locked add it makes, 0 for none, and where it leaves its thread. */
  datatype Move = Move(delta: int, role: Role)

  // The move of a thread in this role when it finds this count; None if the step is not its to take.
  function Decide(w: Word, count: int, role: Role, step: Step): Option<Move> {
    match step
    case DownRead(_) =>
      if !role.Idle? then None
      else if w.Wrap(count + ACTIVE_BIAS) >= 0 then Some(Move(ACTIVE_BIAS, Reading))
      else Some(Move(ACTIVE_BIAS, ReadPending))
    case DownWrite(_) =>
      if !role.Idle? then None
      else if w.LowHalf(count) == 0 then Some(Move(w.WriteBias(), Writing))
      else Some(Move(w.WriteBias(), WritePending))
    case TryReadLoad(_) =>
      if role.Idle? then Some(Move(0, TryingRead(count))) else None
    case TryReadExchange(_) =>
      if !role.TryingRead? then None
      else if role.seen + ACTIVE_BIAS <= 0 then Some(Move(0, Idle))
      else if count == role.seen then Some(Move(ACTIVE_BIAS, Reading))
      else Some(Move(0, TryingRead(count)))
    case TryWriteLoad(_) =>
      if role.Idle? then Some(Move(0, TryingWrite(count))) else None
    case TryWriteExchange(_) =>
      if !role.TryingWrite? then None
      else if w.LowHalf(role.seen) != 0 then Some(Move(0, Idle))
      else if count == role.seen then Some(Move(w.WriteBias(), Writing))
      else Some(Move(0, TryingWrite(count)))
    case UpRead(_) =>
      if role.Reading? then Some(Move(-ACTIVE_BIAS, Idle)) else None
    case UpWrite(_) =>
      if role.Writing? then Some(Move(-w.WriteBias(), Idle)) else None
    case Downgrade(_) =>
      if role.Writing? then Some(Move(-w.WaitingBias(), Reading)) else None
    case Wait(_) =>
      if role.ReadPending? then Some(Move(w.WaitingBias() - ACTIVE_BIAS, Waiting))
      else if role.WritePending? then Some(Move(-ACTIVE_BIAS, Waiting))
      else None
  }

  function Make(w: Word, s: State, t: nat, move: Move): State {
    State(if move.delta == 0 then s.count else w.Wrap(s.count + move.delta), s.roles[t := move.role])
  }

  /** The state after a step, or None when the thread is not in a position to take it. */
  function Apply(w: Word, s: State, step: Step): Option<State> {
    if step.t !in s.roles then None
    else
      match Decide(w, s.count, s.roles[step.t], step)
      case None => None
      case Some(move) => Some(Make(w, s, step.t, move))
  }

  // The releases branch to the wake routine on the sign of the count they leave.
  predicate Wakes(w: Word, s: State, step: Step) {
    (step.UpRead? || step.UpWrite? || step.Downgrade?) &&
    Apply(w, s, step).Some? && Apply(w, s, step).value.count < 0
  }

  function Run(w: Word, s: State, steps: seq<Step>): Option<State>
    decreases |steps|
  {
    if steps == [] then Some(s)
    else
      match Run(w, s, steps[..|steps| - 1])
      case None => None
      case Some(mid) => Apply(w, mid, steps[|steps| - 1])
  }

  ghost predicate Reachable(w: Word, threads: set<nat>, s: State) {
    exists steps :: Run(w, Init(threads), steps) == Some(s)
  }

  ghost function LowHalfLockers(s: State): set<nat> {
    set t | t in s.roles && s.roles[t].InLowHalf()
  }

  ghost function HighHalfLockers(s: State): set<nat> {
    set t | t in s.roles && s.roles[t].InHighHalf()
  }

  /** At most one active writer, and no active reader beside it. */
  ghost predicate Exclusive(s: State) {
    forall t, u :: t in s.roles && u in s.roles && s.roles[t].Writing? && t != u ==>
      !s.roles[u].Writing? && !s.roles[u].Reading?
  }

  function Encode(w: Word, low: nat, high: nat): int {
    low * ACTIVE_BIAS + high * w.WaitingBias()
  }

  /** The count as the two populations determine it, before truncation to the word. */
  ghost function Encoded(w: Word, s: State): int {
    Encode(w, |LowHalfLockers(s)|, |HighHalfLockers(s)|)
  }

  /** True of every reachable state, however many threads there are. */
  ghost predicate CountEncodes(w: Word, s: State) {
    s.count == w.Wrap(Encoded(w, s))
  }

  // ----- Word arithmetic -----

  lemma WrapTurn(w: Word, x: int)
    ensures w.Wrap(x + 2 * w.SignWeight()) == w.Wrap(x)
  {
  }

  lemma {:induction false} WrapAdd(w: Word, x: int, delta: int)
    ensures w.Wrap(w.Wrap(x) + delta) == w.Wrap(x + delta)
    decreases if x < 0 then -x else x + 1
  {
    var m := 2 * w.SignWeight();
    if x < -w.SignWeight() {
      WrapAdd(w, x + m, delta);
      WrapTurn(w, x + delta);
    } else if w.SignWeight() <= x {
      WrapAdd(w, x - m, delta);
      WrapTurn(w, x + delta - m);
    }
  }

  lemma LowHalfOfSum(w: Word, x: int)
    ensures w.LowHalf(x + w.Unit()) == w.LowHalf(x)
  {
  }

  lemma {:induction false} LowHalfTurns(w: Word, x: int, k: nat)
    ensures w.LowHalf(x + w.Unit() * k) == w.LowHalf(x)
  {
    if k != 0 {
      LowHalfTurns(w, x, k - 1);
      var y := x + w.Unit() * (k - 1);
      assert x + w.Unit() * k == y + w.Unit();
      LowHalfOfSum(w, y);
    }
  }

  lemma LowHalfTurn(w: Word, x: int)
    ensures w.LowHalf(x + 2 * w.SignWeight()) == w.LowHalf(x)
  {
    LowHalfTurns(w, x, w.Unit());
    match w
    case Word32 =>
    case Word64 =>
  }

  lemma {:induction false} WrapKeepsLowHalf(w: Word, x: int)
    ensures w.LowHalf(w.Wrap(x)) == w.LowHalf(x)
    decreases if x < 0 then -x else x + 1
  {
    if x < -w.SignWeight() {
      WrapKeepsLowHalf(w, x + 2 * w.SignWeight());
      LowHalfTurn(w, x);
    } else if w.SignWeight() <= x {
      WrapKeepsLowHalf(w, x - 2 * w.SignWeight());
      LowHalfTurn(w, x - 2 * w.SignWeight());
    }
  }

  // Within the word the sign and the lower half of the count can be read off the populations.
  lemma ReadBack(w: Word, low: nat, high: nat)
    requires low < w.Unit() && high <= w.Unit() / 2
    ensures w.Wrap(Encode(w, low, high)) == Encode(w, low, high)
    ensures w.Fits(Encode(w, low, high))
    ensures Encode(w, low, high) < 0 <==> 0 < high
    ensures Encode(w, low, high) == 0 <==> low == high == 0
  {
    match w
    case Word32 =>
    case Word64 =>
  }

  lemma EncodeOne(w: Word, low: nat, high: nat)
    ensures Encode(w, low + 1, high) == Encode(w, low, high) + ACTIVE_BIAS
    ensures Encode(w, low, high + 1) == Encode(w, low, high) + w.WaitingBias()
    ensures Encode(w, low + 1, high + 1) == Encode(w, low, high) + w.WriteBias()
  {
    match w
    case Word32 =>
    case Word64 =>
  }

  lemma {:induction false} EncodeLowHalf(w: Word, low: nat, high: nat)
    requires low < w.Unit()
    ensures w.LowHalf(Encode(w, low, high)) == low
  {
    if high != 0 {
      EncodeLowHalf(w, low, high - 1);
      EncodeOne(w, low, high - 1);
      LowHalfOfSum(w, Encode(w, low, high));
    }
  }

  lemma LowHalfOfEncoding(w: Word, low: nat, high: nat)
    requires low < w.Unit()
    ensures w.LowHalf(w.Wrap(Encode(w, low, high))) == low
  {
    EncodeLowHalf(w, low, high);
    WrapKeepsLowHalf(w, Encode(w, low, high));
  }

  // ----- One step -----

  // Changing one role moves that thread in or out of each population and nobody else.
  lemma ChangeRole(s: State, s': State, t: nat, role: Role)
    requires t in s.roles && s'.roles == s.roles[t := role]
    ensures LowHalfLockers(s') == if role.InLowHalf() then LowHalfLockers(s) + {t} else LowHalfLockers(s) - {t}
    ensures HighHalfLockers(s') == if role.InHighHalf() then HighHalfLockers(s) + {t} else HighHalfLockers(s) - {t}
    ensures t in LowHalfLockers(s) <==> s.roles[t].InLowHalf()
    ensures t in HighHalfLockers(s) <==> s.roles[t].InHighHalf()
  {
  }

  // What a thread in this role has added to the count.
  function Bias(w: Word, role: Role): int {
    (if role.InLowHalf() then ACTIVE_BIAS else 0) + (if role.InHighHalf() then w.WaitingBias() else 0)
  }

  lemma ChangeCounts(s: State, s': State, t: nat, role: Role) returns (low: nat, high: nat)
    requires t in s.roles && s'.roles == s.roles[t := role]
    ensures |LowHalfLockers(s)| == low + if s.roles[t].InLowHalf() then 1 else 0
    ensures |LowHalfLockers(s')| == low + if role.InLowHalf() then 1 else 0
    ensures |HighHalfLockers(s)| == high + if s.roles[t].InHighHalf() then 1 else 0
    ensures |HighHalfLockers(s')| == high + if role.InHighHalf() then 1 else 0
  {
    ChangeRole(s, s', t, role);
    low, high := |LowHalfLockers(s) - {t}|, |HighHalfLockers(s) - {t}|;
  }

  lemma EncodeBias(w: Word, low: nat, high: nat, role: Role)
    ensures Encode(w, low + (if role.InLowHalf() then 1 else 0), high + (if role.InHighHalf() then 1 else 0))
         == Encode(w, low, high) + Bias(w, role)
  {
    EncodeOne(w, low, high);
  }

  lemma ChangeEncoding(w: Word, s: State, s': State, t: nat, role: Role)
    requires t in s.roles && s'.roles == s.roles[t := role]
    ensures Encoded(w, s') == Encoded(w, s) + Bias(w, role) - Bias(w, s.roles[t])
  {
    var low, high := ChangeCounts(s, s', t, role);
    EncodeBias(w, low, high, s.roles[t]);
    EncodeBias(w, low, high, role);
  }

  // A step adds to the count exactly what it changes about the thread's role.
  lemma MoveIsBias(w: Word, count: int, role: Role, step: Step)
    requires Decide(w, count, role, step).Some?
    ensures var move := Decide(w, count, role, step).value; move.delta == Bias(w, move.role) - Bias(w, role)
  {
  }

  lemma MakeKeepsEncoding(w: Word, s: State, t: nat, move: Move)
    requires t in s.roles && CountEncodes(w, s) && move.delta == Bias(w, move.role) - Bias(w, s.roles[t])
    ensures CountEncodes(w, Make(w, s, t, move))
  {
    var s' := Make(w, s, t, move);
    ChangeEncoding(w, s, s', t, move.role);
    WrapAdd(w, Encoded(w, s), move.delta);
  }

  lemma StepKeepsEncoding(w: Word, s: State, step: Step)
    requires CountEncodes(w, s) && Apply(w, s, step).Some?
    ensures CountEncodes(w, Apply(w, s, step).value)
  {
    var role := s.roles[step.t];
    MoveIsBias(w, s.count, role, step);
    MakeKeepsEncoding(w, s, step.t, Decide(w, s.count, role, step).value);
  }

  // A population never exceeds the number of threads, and a thread outside it leaves room.
  lemma PopulationBound(threads: set<nat>, p: set<nat>)
    requires p <= threads
    ensures |p| <= |threads|
    ensures p != threads ==> |p| < |threads|
  {
    assert threads == p + (threads - p);
  }

  // The largest number of threads for which the sign and the lower half never mislead a locker.
  function SafeLockers(w: Word): int {
    w.Unit() / 2 + 1
  }

  ghost predicate Safe(w: Word, threads: set<nat>, s: State) {
    s.roles.Keys == threads && CountEncodes(w, s) && Exclusive(s)
  }

  lemma NonNegativeMeansNoWaiter(w: Word, threads: set<nat>, s: State, t: nat)
    requires |threads| <= SafeLockers(w) && s.roles.Keys == threads && CountEncodes(w, s)
    requires t in threads && !s.roles[t].InHighHalf()
    ensures s.count < 0 <==> HighHalfLockers(s) != {}
    ensures s.count == Encoded(w, s) && w.Fits(s.count)
  {
    PopulationBound(threads, LowHalfLockers(s));
    PopulationBound(threads, HighHalfLockers(s));
    assert t !in HighHalfLockers(s);
    ReadBack(w, |LowHalfLockers(s)|, |HighHalfLockers(s)|);
  }

  lemma LowHalfCountsLockers(w: Word, threads: set<nat>, s: State)
    requires |threads| <= SafeLockers(w) && s.roles.Keys == threads && CountEncodes(w, s)
    ensures w.LowHalf(s.count) == |LowHalfLockers(s)|
  {
    PopulationBound(threads, LowHalfLockers(s));
    LowHalfOfEncoding(w, |LowHalfLockers(s)|, |HighHalfLockers(s)|);
  }

  lemma OneMoreReader(w: Word, low: nat, high: nat)
    requires low <= w.Unit() / 2 && high <= w.Unit() / 2
    ensures 0 <= w.Wrap(Encode(w, low, high) + ACTIVE_BIAS) <==> high == 0
  {
    EncodeOne(w, low, high);
    ReadBack(w, low + 1, high);
  }

  lemma ReaderAdmitted(w: Word, threads: set<nat>, s: State, t: nat)
    requires |threads| <= SafeLockers(w) && s.roles.Keys == threads && CountEncodes(w, s)
    requires t in threads && s.roles[t].Idle?
    ensures 0 <= w.Wrap(s.count + ACTIVE_BIAS) <==> HighHalfLockers(s) == {}
  {
    NonNegativeMeansNoWaiter(w, threads, s, t);
    assert t !in LowHalfLockers(s) && t !in HighHalfLockers(s);
    PopulationBound(threads, LowHalfLockers(s));
    PopulationBound(threads, HighHalfLockers(s));
    OneMoreReader(w, |LowHalfLockers(s)|, |HighHalfLockers(s)|);
  }

  // A thread outside both populations reads them off the count.
  lemma CountShowsLockers(w: Word, threads: set<nat>, s: State, t: nat)
    requires |threads| <= SafeLockers(w) && s.roles.Keys == threads && CountEncodes(w, s)
    requires t in threads && !s.roles[t].InHighHalf()
    ensures 0 <= s.count <==> HighHalfLockers(s) == {}
    ensures w.LowHalf(s.count) == 0 <==> LowHalfLockers(s) == {}
  {
    NonNegativeMeansNoWaiter(w, threads, s, t);
    LowHalfCountsLockers(w, threads, s);
  }

  /** Whether a step is a thread's to take, by its role alone. */
  predicate MayTake(role: Role, step: Step) {
    match step
    case DownRead(_) => role.Idle?
    case DownWrite(_) => role.Idle?
    case TryReadLoad(_) => role.Idle?
    case TryReadExchange(_) => role.TryingRead?
    case TryWriteLoad(_) => role.Idle?
    case TryWriteExchange(_) => role.TryingWrite?
    case UpRead(_) => role.Reading?
    case UpWrite(_) => role.Writing?
    case Downgrade(_) => role.Writing?
    case Wait(_) => role.ReadPending? || role.WritePending?
  }

  /** Where a lock that looks at its lockers, and not at a count, leaves the thread: a reader is let
      in exactly if nobody writes or waits, a writer exactly if nobody is active. A trylock whose
      loaded value has gone stale gives up if that value told it to, and otherwise tries again. */
  ghost function Next(w: Word, s: State, step: Step): Role
    requires step.t in s.roles && MayTake(s.roles[step.t], step)
  {
    match step
    case DownRead(_) => if HighHalfLockers(s) == {} then Reading else ReadPending
    case DownWrite(_) => if LowHalfLockers(s) == {} then Writing else WritePending
    case TryReadLoad(_) => TryingRead(s.count)
    case TryReadExchange(t) =>
      var seen := s.roles[t].seen;
      if seen == s.count then if HighHalfLockers(s) == {} then Reading else Idle
      else if seen < 0 then Idle else TryingRead(s.count)
    case TryWriteLoad(_) => TryingWrite(s.count)
    case TryWriteExchange(t) =>
      var seen := s.roles[t].seen;
      if seen == s.count then if LowHalfLockers(s) == {} then Writing else Idle
      else if w.LowHalf(seen) != 0 then Idle else TryingWrite(s.count)
    case UpRead(_) => Idle
    case UpWrite(_) => Idle
    case Downgrade(_) => Reading
    case Wait(_) => Waiting
  }

  /** The tests on the count do what that lock does, for every thread and every step. */
  lemma StepIsNext(w: Word, threads: set<nat>, s: State, step: Step)
    requires |threads| <= SafeLockers(w) && s.roles.Keys == threads && CountEncodes(w, s) && step.t in threads
    ensures Apply(w, s, step).Some? <==> MayTake(s.roles[step.t], step)
    ensures Apply(w, s, step).Some? ==> Apply(w, s, step).value.roles == s.roles[step.t := Next(w, s, step)]
  {
    if MayTake(s.roles[step.t], step) {
      match step
      case DownRead(t) => ReaderAdmitted(w, threads, s, t);
      case DownWrite(t) => CountShowsLockers(w, threads, s, t);
      case TryReadExchange(t) => CountShowsLockers(w, threads, s, t);
      case TryWriteExchange(t) => CountShowsLockers(w, threads, s, t);
      case _ =>
    }
  }

  /** A step lets a reader in only when no writer holds or awaits the lock, and a writer only when
      nobody holds it; and the four lock paths let it in whenever that is so. */
  lemma Admission(w: Word, threads: set<nat>, s: State, step: Step)
    requires |threads| <= SafeLockers(w) && s.roles.Keys == threads && CountEncodes(w, s)
    requires Apply(w, s, step).Some?
    ensures var role, role' := s.roles[step.t], Apply(w, s, step).value.roles[step.t];
      && (role'.Reading? && !role.Writing? ==> HighHalfLockers(s) == {})
      && (role'.Writing? ==> LowHalfLockers(s) == {})
      && (step.DownRead? || (step.TryReadExchange? && role.seen == s.count) ==>
            (role'.Reading? <==> HighHalfLockers(s) == {}))
      && (step.DownWrite? || (step.TryWriteExchange? && role.seen == s.count) ==>
            (role'.Writing? <==> LowHalfLockers(s) == {}))
  {
    StepIsNext(w, threads, s, step);
  }

  /** The protocol's steps are what the semaphore object does: running an operation of the
      object for a thread gives the state, and the call of the wake routine, that `Apply` gives. */
  method Execute(sem: RwSemaphore, roles: map<nat, Role>, step: Step) returns (roles': map<nat, Role>, wakes: bool)
    requires sem.Valid() && Apply(sem.word, State(sem.count, roles), step).Some?
    modifies sem
    ensures sem.Valid()
    ensures Some(State(sem.count, roles')) == Apply(sem.word, State(old(sem.count), roles), step)
    ensures wakes <==> Wakes(sem.word, State(old(sem.count), roles), step)
    ensures CountEncodes(sem.word, State(old(sem.count), roles)) && |roles.Keys| <= SafeLockers(sem.word) ==>
      roles' == roles[step.t := Next(sem.word, State(old(sem.count), roles), step)]
  {
    var t, role := step.t, roles[step.t];
    ghost var before := State(sem.count, roles);
    var ok;
    wakes := false;
    match step {
      case DownRead(_) =>
        ok := sem.DownRead();
        role := if ok then Reading else ReadPending;
      case DownWrite(_) =>
        ok := sem.DownWrite();
        role := if ok then Writing else WritePending;
      case TryReadLoad(_) =>
        role := TryingRead(sem.count);
      case TryReadExchange(_) =>
        if role.seen + ACTIVE_BIAS <= 0 {
          role := Idle;
        } else {
          var found := sem.CompareExchange(role.seen, sem.word.Wrap(role.seen + ACTIVE_BIAS));
          role := if found == role.seen then Reading else TryingRead(found);
        }
      case TryWriteLoad(_) =>
        role := TryingWrite(sem.count);
      case TryWriteExchange(_) =>
        if sem.word.LowHalf(role.seen) != 0 {
          role := Idle;
        } else {
          var found := sem.CompareExchange(role.seen, sem.word.Wrap(role.seen + sem.word.WriteBias()));
          role := if found == role.seen then Writing else TryingWrite(found);
        }
      case UpRead(_) =>
        wakes := sem.UpRead();
        role := Idle;
      case UpWrite(_) =>
        wakes := sem.UpWrite();
        role := Idle;
      case Downgrade(_) =>
        wakes := sem.DowngradeWrite();
        role := Reading;
      case Wait(_) =>
        var _ := sem.AtomicUpdate(if role.ReadPending? then sem.word.WaitingBias() - ACTIVE_BIAS else -ACTIVE_BIAS);
        role := Waiting;
    }
    roles' := roles[t := role];
    assert Some(State(sem.count, roles')) == Apply(sem.word, before, step);
    if CountEncodes(sem.word, before) && |roles.Keys| <= SafeLockers(sem.word) {
      StepIsNext(sem.word, roles.Keys, before, step);
    }
  }

  lemma StepKeepsSafe(w: Word, threads: set<nat>, s: State, step: Step)
    requires |threads| <= SafeLockers(w) && Safe(w, threads, s)
    requires Apply(w, s, step).Some?
    ensures Safe(w, threads, Apply(w, s, step).value)
  {
    var s' := Apply(w, s, step).value;
    StepKeepsEncoding(w, s, step);
    Admission(w, threads, s, step);
    forall t, u | t in s'.roles && u in s'.roles && s'.roles[t].Writing? && t != u
      ensures !s'.roles[u].Writing? && !s'.roles[u].Reading?
    {
      assert s.roles[t].Writing? <==> t in LowHalfLockers(s) && s.roles[t].Writing?;
      assert s.roles[t].Writing? ==> t in HighHalfLockers(s);
      assert s.roles[u].Writing? || s.roles[u].Reading? ==> u in LowHalfLockers(s);
    }
  }

  // ----- Whole runs -----

  lemma {:induction false} RunIsSafe(w: Word, threads: set<nat>, steps: seq<Step>, s: State)
    requires |threads| <= SafeLockers(w) && Run(w, Init(threads), steps) == Some(s)
    ensures Safe(w, threads, s)
    decreases |steps|
  {
    if steps == [] {
      assert LowHalfLockers(s) == {} && HighHalfLockers(s) == {};
    } else {
      var mid := Run(w, Init(threads), steps[..|steps| - 1]).value;
      RunIsSafe(w, threads, steps[..|steps| - 1], mid);
      StepKeepsSafe(w, threads, mid, steps[|steps| - 1]);
    }
  }

  /** Mutual exclusion in every run of any interleaving. */
  lemma MutualExclusion(w: Word, threads: set<nat>, s: State)
    requires |threads| <= SafeLockers(w) && Reachable(w, threads, s)
    ensures Exclusive(s)
  {
    var steps :| Run(w, Init(threads), steps) == Some(s);
    RunIsSafe(w, threads, steps, s);
  }

  /** With one thread more than the header promises, the count is still an exact, unwrapped encoding. */
  lemma CountIsExact(w: Word, threads: set<nat>, s: State)
    requires |threads| <= w.PromisedLockers() + 1 && Reachable(w, threads, s)
    ensures s.count == Encoded(w, s) && w.Fits(Encoded(w, s))
    ensures s.count < 0 <==> HighHalfLockers(s) != {}
    ensures w.LowHalf(s.count) == |LowHalfLockers(s)|
    ensures s.count == 0 <==> LowHalfLockers(s) == {} && HighHalfLockers(s) == {}
  {
    var steps :| Run(w, Init(threads), steps) == Some(s);
    RunIsSafe(w, threads, steps, s);
    PopulationBound(threads, LowHalfLockers(s));
    PopulationBound(threads, HighHalfLockers(s));
    ReadBack(w, |LowHalfLockers(s)|, |HighHalfLockers(s)|);
    LowHalfCountsLockers(w, threads, s);
  }

  lemma WaitersAfter(s: State, s': State, t: nat, role: Role)
    requires t in s.roles && s'.roles == s.roles[t := role] && !role.InHighHalf()
    ensures HighHalfLockers(s') != {} <==> exists u :: u in s.roles && u != t && s.roles[u].InHighHalf()
  {
    ChangeRole(s, s', t, role);
    if HighHalfLockers(s') != {} {
      var u :| u in HighHalfLockers(s');
      assert u in s.roles && u != t && s.roles[u].InHighHalf();
    }
    if u :| u in s.roles && u != t && s.roles[u].InHighHalf() {
      assert u in HighHalfLockers(s');
    }
  }

  /** A release calls the wake routine exactly when some other locker's waiting bias remains. */
  lemma WakesIffSomebodyWaits(w: Word, threads: set<nat>, s: State, step: Step)
    requires |threads| <= SafeLockers(w) && Reachable(w, threads, s)
    requires step.UpRead? || step.UpWrite? || step.Downgrade?
    requires Apply(w, s, step).Some?
    ensures Wakes(w, s, step) <==> exists u :: u in s.roles && u != step.t && s.roles[u].InHighHalf()
  {
    var steps :| Run(w, Init(threads), steps) == Some(s);
    RunIsSafe(w, threads, steps, s);
    var s' := Apply(w, s, step).value;
    StepKeepsEncoding(w, s, step);
    NonNegativeMeansNoWaiter(w, threads, s', step.t);
    WaitersAfter(s, s', step.t, s'.roles[step.t]);
  }

  /** A locker that failed to read but does not wait yet has no waiting bias, so a writer that
      releases over it wakes nobody: the slow path must look at the count again. */
  lemma PendingReaderIsNotWoken(w: Word) returns (s: State)
    ensures Reachable(w, {0, 1}, s) && Apply(w, s, UpWrite(0)).Some?
    ensures 1 in s.roles && s.roles[1].ReadPending? && !Wakes(w, s, UpWrite(0))
  {
    var s1 := Make(w, Init({0, 1}), 0, Move(w.WriteBias(), Writing));
    s := Make(w, s1, 1, Move(ACTIVE_BIAS, ReadPending));
    var steps := [DownWrite(0), DownRead(1)];
    assert steps[..1][..0] == [] && steps[..1][0] == DownWrite(0);
    assert Run(w, Init({0, 1}), steps[..1]) == Some(s1);
    assert Run(w, Init({0, 1}), steps) == Some(s);
  }

  lemma ExchangeMoves(w: Word, count: int, role: Role, step: Step)
    requires step.TryReadExchange? || step.TryWriteExchange?
    requires Decide(w, count, role, step).Some?
    ensures var move := Decide(w, count, role, step).value;
      && (move.role.Reading? ==> move == Move(ACTIVE_BIAS, Reading) && 0 <= count)
      && (move.role.Writing? ==> move == Move(w.WriteBias(), Writing))
      && (!move.role.Reading? && !move.role.Writing? ==> move.delta == 0)
  {
  }

  /** An exchange that succeeds is the instant the trylock takes effect: the value the thread
      loaded is still there, and its guard holds of the lockers at that instant. An exchange
      that does not succeed leaves the count alone. */
  lemma TrylockLinearizes(w: Word, threads: set<nat>, s: State, step: Step)
    requires |threads| <= SafeLockers(w) && Reachable(w, threads, s)
    requires step.TryReadExchange? || step.TryWriteExchange?
    requires Apply(w, s, step).Some?
    ensures var s' := Apply(w, s, step).value; var role := s'.roles[step.t];
      && (role.Reading? ==> 0 <= s.count && HighHalfLockers(s) == {} && s' == Make(w, s, step.t, Move(ACTIVE_BIAS, Reading)))
      && (role.Writing? ==> LowHalfLockers(s) == {} && s' == Make(w, s, step.t, Move(w.WriteBias(), Writing)))
      && (!role.Reading? && !role.Writing? ==> s'.count == s.count)
  {
    var steps :| Run(w, Init(threads), steps) == Some(s);
    RunIsSafe(w, threads, steps, s);
    ExchangeMoves(w, s.count, s.roles[step.t], step);
    Admission(w, threads, s, step);
  }

  /** In every reachable state every step does to the lockers what the lock on lockers does. */
  lemma ActsAsLock(w: Word, threads: set<nat>, s: State, step: Step)
    requires |threads| <= SafeLockers(w) && Reachable(w, threads, s) && step.t in threads
    ensures step.t in s.roles && (Apply(w, s, step).Some? <==> MayTake(s.roles[step.t], step))
    ensures Apply(w, s, step).Some? ==> Apply(w, s, step).value.roles == s.roles[step.t := Next(w, s, step)]
  {
    var steps :| Run(w, Init(threads), steps) == Some(s);
    RunIsSafe(w, threads, steps, s);
    StepIsNext(w, threads, s, step);
  }

  /** The value a trylock loads tells it exactly whether it may go in. */
  lemma LoadTells(w: Word, threads: set<nat>, s: State, t: nat)
    requires |threads| <= SafeLockers(w) && Reachable(w, threads, s) && t in threads
    ensures t in s.roles
    ensures s.roles[t].Idle? || s.roles[t].TryingRead? || s.roles[t].TryingWrite? ==>
      && (0 <= s.count <==> HighHalfLockers(s) == {})
      && (w.LowHalf(s.count) == 0 <==> LowHalfLockers(s) == {})
  {
    var steps :| Run(w, Init(threads), steps) == Some(s);
    RunIsSafe(w, threads, steps, s);
    if !s.roles[t].InHighHalf() {
      CountShowsLockers(w, threads, s, t);
    }
  }

  // ----- The bound is exact -----

  ghost predicate Distinct(order: seq<nat>) {
    forall i, j :: 0 <= i < j < |order| ==> order[i] != order[j]
  }

  lemma {:induction false} Enumerate(threads: set<nat>) returns (order: seq<nat>)
    ensures |order| == |threads| && Distinct(order)
    ensures forall t :: t in order ==> t in threads
  {
    if threads == {} {
      order := [];
    } else {
      var t :| t in threads;
      var rest := Enumerate(threads - {t});
      order := rest + [t];
    }
  }

  // After the first `k` threads of `order` have called down_write: one holds, the rest pile up.
  ghost function PileUp(w: Word, threads: set<nat>, order: seq<nat>, k: nat): State
    requires k <= |order|
  {
    State(w.Wrap(Encode(w, k, k)),
          map t | t in threads ::
            if 0 < k && t == order[0] then Writing else if t in order[..k] then WritePending else Idle)
  }

  lemma PileUpRoles(w: Word, threads: set<nat>, order: seq<nat>, k: nat)
    requires k < |order| && Distinct(order) && forall t :: t in order ==> t in threads
    ensures var s := PileUp(w, threads, order, k);
      PileUp(w, threads, order, k + 1).roles == s.roles[order[k] := if k == 0 then Writing else WritePending]
    ensures PileUp(w, threads, order, k).roles[order[k]].Idle?
  {
    assert order[..k + 1] == order[..k] + [order[k]];
    assert order[k] !in order[..k];
  }

  lemma PileUpStep(w: Word, threads: set<nat>, order: seq<nat>, k: nat)
    requires k < |order| && k < w.Unit()
    requires Distinct(order) && forall t :: t in order ==> t in threads
    ensures Apply(w, PileUp(w, threads, order, k), DownWrite(order[k])) == Some(PileUp(w, threads, order, k + 1))
  {
    var s, s' := PileUp(w, threads, order, k), PileUp(w, threads, order, k + 1);
    LowHalfOfEncoding(w, k, k);
    WrapAdd(w, Encode(w, k, k), w.WriteBias());
    EncodeOne(w, k, k);
    PileUpRoles(w, threads, order, k);
  }

  lemma {:induction false} PileUpIsReached(w: Word, threads: set<nat>, order: seq<nat>, k: nat)
    returns (steps: seq<Step>)
    requires k <= |order| && k < w.Unit()
    requires Distinct(order) && forall t :: t in order ==> t in threads
    ensures Run(w, Init(threads), steps) == Some(PileUp(w, threads, order, k))
  {
    if k == 0 {
      steps := [];
      assert order[..0] == [];
      assert PileUp(w, threads, order, 0) == Init(threads);
    } else {
      var before := PileUpIsReached(w, threads, order, k - 1);
      steps := before + [DownWrite(order[k - 1])];
      assert steps[..|steps| - 1] == before;
      PileUpStep(w, threads, order, k - 1);
    }
  }

  lemma SignIsLost(w: Word)
    ensures 0 <= w.Wrap(w.Wrap(Encode(w, SafeLockers(w), SafeLockers(w))) + ACTIVE_BIAS)
  {
    match w
    case Word32 =>
    case Word64 =>
  }

  lemma ReaderSlipsIn(w: Word, threads: set<nat>, order: seq<nat>) returns (s: State)
    requires SafeLockers(w) < |order| && Distinct(order) && forall t :: t in order ==> t in threads
    ensures Apply(w, PileUp(w, threads, order, SafeLockers(w)), DownRead(order[SafeLockers(w)])) == Some(s)
    ensures !Exclusive(s)
  {
    var k := SafeLockers(w);
    var full := PileUp(w, threads, order, k);
    assert order[k] !in order[..k] && order[k] in threads && order[0] in threads;
    assert full.roles[order[k]].Idle? && full.roles[order[0]].Writing?;
    SignIsLost(w);
    s := Make(w, full, order[k], Move(ACTIVE_BIAS, Reading));
    assert s.roles[order[0]].Writing? && s.roles[order[k]].Reading?;
  }

  // One thread more and a reader is let in beside the writer that holds the lock.
  lemma OneTooMany(w: Word, threads: set<nat>) returns (s: State)
    requires SafeLockers(w) < |threads|
    ensures Reachable(w, threads, s) && !Exclusive(s)
  {
    var order := Enumerate(threads);
    var k := SafeLockers(w);
    var steps := PileUpIsReached(w, threads, order, k);
    s := ReaderSlipsIn(w, threads, order);
    var all := steps + [DownRead(order[k])];
    assert all[..|all| - 1] == steps;
    assert Run(w, Init(threads), all) == Some(s);
  }

  /** Mutual exclusion holds of all runs exactly up to two threads more than the header promises. */
  lemma ExclusionThreshold(w: Word, threads: set<nat>)
    ensures (forall s :: Reachable(w, threads, s) ==> Exclusive(s)) <==> |threads| <= w.PromisedLockers() + 2
  {
    if |threads| <= SafeLockers(w) {
      forall s | Reachable(w, threads, s)
        ensures Exclusive(s)
      {
        MutualExclusion(w, threads, s);
      }
    } else {
      var s := OneTooMany(w, threads);
    }
  }

  ghost function Members(order: seq<nat>): set<nat> {
    set t | t in order
  }

  lemma {:induction false} DistinctMembers(order: seq<nat>)
    requires Distinct(order)
    ensures |Members(order)| == |order|
  {
    if order == [] {
      assert Members(order) == {};
    } else {
      var init, last := order[..|order| - 1], order[|order| - 1];
      DistinctMembers(init);
      assert Members(order) == Members(init) + {last};
      assert last !in init;
    }
  }

  lemma PileUpPopulation(w: Word, threads: set<nat>, order: seq<nat>, k: nat)
    requires k <= |order| && forall t :: t in order ==> t in threads
    ensures LowHalfLockers(PileUp(w, threads, order, k)) == Members(order[..k])
    ensures HighHalfLockers(PileUp(w, threads, order, k)) == Members(order[..k])
  {
    forall t | t in threads
      ensures t in order[..k] <==> !PileUp(w, threads, order, k).roles[t].Idle?
    {
      assert 0 < k ==> order[..k][0] == order[0];
    }
    forall t | t in order[..k]
      ensures t in threads
    {
      assert t in order;
    }
  }

  lemma TooLowForTheWord(w: Word)
    ensures !w.Fits(Encode(w, w.PromisedLockers() + 2, w.PromisedLockers() + 2))
  {
    match w
    case Word32 =>
    case Word64 =>
  }

  // One thread more and the encoding no longer fits the word.
  lemma EncodingOverflows(w: Word, threads: set<nat>) returns (s: State)
    requires w.PromisedLockers() + 1 < |threads|
    ensures Reachable(w, threads, s) && s.count != Encoded(w, s)
  {
    var order := Enumerate(threads);
    var k := w.PromisedLockers() + 2;
    var steps := PileUpIsReached(w, threads, order, k);
    s := PileUp(w, threads, order, k);
    assert Run(w, Init(threads), steps) == Some(s);
    PileUpPopulation(w, threads, order, k);
    DistinctMembers(order[..k]);
    TooLowForTheWord(w);
  }

  /** The count is the exact encoding in all runs up to one thread more than the header promises,
      and no further. */
  lemma ExactnessThreshold(w: Word, threads: set<nat>)
    ensures (forall s :: Reachable(w, threads, s) ==> s.count == Encoded(w, s))
            <==> |threads| <= w.PromisedLockers() + 1
  {
    if |threads| <= w.PromisedLockers() + 1 {
      forall s | Reachable(w, threads, s)
        ensures s.count == Encoded(w, s)
      {
        CountIsExact(w, threads, s);
      }
    } else {
      var s := EncodingOverflows(w, threads);
    }
  }
}
