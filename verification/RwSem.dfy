/** The reader/writer semaphore of Model/asm/rwsem.h: one signed machine word, updated by
    single locked instructions. This module holds the word arithmetic, the bias constants
    and the semaphore object itself; `RwSemProtocol` runs many threads against it. */
module RwSem {

  /** CONFIG_X86_64 chooses the width of `long` and of RWSEM_ACTIVE_MASK together. */
  datatype Word = Word32 | Word64 {

    // RWSEM_ACTIVE_MASK + 1: the weight of the count's upper half.
    function Unit(): int {
      match this case Word32 => 0x1_0000 case Word64 => 0x1_0000_0000
    }

    // The weight of the count's sign bit.
    function SignWeight(): int {
      match this case Word32 => 0x8000_0000 case Word64 => 0x8000_0000_0000_0000
    }

    predicate Fits(x: int) {
      -SignWeight() <= x < SignWeight()
    }

    // Two's complement truncation to the word.
    function Wrap(x: int): (r: int)
      ensures Fits(r)
      decreases if x < 0 then -x else x + 1
    {
      if x < -SignWeight() then Wrap(x + 2 * SignWeight())
      else if SignWeight() <= x then Wrap(x - 2 * SignWeight())
      else x
    }

    // `value & RWSEM_ACTIVE_MASK`, as `test %w1,%w1` / `test %k1,%k1` see it: the residue
    // modulo Unit().
    function LowHalf(x: int): (r: int)
      ensures 0 <= r < Unit()
      decreases if x < 0 then -x + Unit() else x
    {
      if x < 0 then LowHalf(x + Unit())
      else if Unit() <= x then LowHalf(x - Unit())
      else x
    }

    // RWSEM_WAITING_BIAS
    function WaitingBias(): int {
      -Unit()
    }

    // RWSEM_ACTIVE_WRITE_BIAS
    function WriteBias(): int {
      WaitingBias() + ACTIVE_BIAS
    }

    // The number of potential readers/writers the header promises to support.
    function PromisedLockers(): int {
      Unit() / 2 - 1
    }
  }

  const ACTIVE_BIAS := 1

  /** One access this processor made to the count: what it found and what it left. */
  datatype Access = Access(before: int, after: int)

  // What access `k` finds.
  ghost function Found(start: int, interference: seq<int>, trace: seq<Access>, k: nat): int
    requires k < |trace|
  {
    if k < |interference| then interference[k]
    else if k == 0 then start
    else trace[k - 1].after
  }

  /** What the accesses of one processor see when the others interfere: before access `k`
      the others have stored `interference[k]`, and once that list is used up they store nothing. */
  ghost predicate Sees(start: int, interference: seq<int>, trace: seq<Access>) {
    forall k :: 0 <= k < |trace| ==> trace[k].before == Found(start, interference, trace, k)
  }

  lemma SeesOneMore(start: int, interference: seq<int>, trace: seq<Access>, a: Access)
    requires 0 < |trace| && Sees(start, interference, trace)
    requires a.before == Found(start, interference, trace + [a], |trace|)
    ensures Sees(start, interference, trace + [a])
  {
    forall k | 0 <= k < |trace|
      ensures Found(start, interference, trace + [a], k) == Found(start, interference, trace, k)
    {
    }
  }

  ghost predicate NeverWrites(trace: seq<Access>) {
    forall k :: 0 <= k < |trace| ==> trace[k].after == trace[k].before
  }

  /** Every access but the last is a pure load; the last one adds `bias`. */
  ghost predicate AddsOnceAtEnd(w: Word, trace: seq<Access>, bias: int) {
    && 0 < |trace|
    && NeverWrites(trace[..|trace| - 1])
    && trace[|trace| - 1].after == w.Wrap(trace[|trace| - 1].before + bias)
  }

  class RwSemaphore {
    const word: Word
    var count: int

    ghost predicate Valid()
      reads this
    {
      word.Fits(count)
    }

    constructor (word: Word)
      ensures Valid() && this.word == word && count == 0
    {
      this.word := word;
      count := 0;
    }

    // The locked read-modify-write every operation is made of.
    method AtomicUpdate(delta: int) returns (result: int)
      requires Valid()
      modifies this
      ensures Valid() && count == word.Wrap(old(count) + delta) && result == count
    {
      count := word.Wrap(count + delta);
      result := count;
    }

    method DownRead() returns (acquired: bool)
      requires Valid()
      modifies this
      ensures Valid() && count == word.Wrap(old(count) + ACTIVE_BIAS)
      ensures acquired <==> 0 <= count
    {
      var result := AtomicUpdate(ACTIVE_BIAS);
      acquired := result >= 0;
    }

    method DownWrite() returns (acquired: bool)
      requires Valid()
      modifies this
      ensures Valid() && count == word.Wrap(old(count) + word.WriteBias())
      ensures acquired <==> word.LowHalf(old(count)) == 0
    {
      var before := count;
      var _ := AtomicUpdate(word.WriteBias());
      acquired := word.LowHalf(before) == 0;
    }

    method UpRead() returns (wakes: bool)
      requires Valid()
      modifies this
      ensures Valid() && count == word.Wrap(old(count) - ACTIVE_BIAS)
      ensures wakes <==> count < 0
    {
      var result := AtomicUpdate(-ACTIVE_BIAS);
      wakes := result < 0;
    }

    method UpWrite() returns (wakes: bool)
      requires Valid()
      modifies this
      ensures Valid() && count == word.Wrap(old(count) - word.WriteBias())
      ensures wakes <==> count < 0
    {
      var result := AtomicUpdate(-word.WriteBias());
      wakes := result < 0;
    }

    method DowngradeWrite() returns (wakes: bool)
      requires Valid()
      modifies this
      ensures Valid() && count == word.Wrap(old(count) - word.WaitingBias())
      ensures wakes <==> count < 0
    {
      var result := AtomicUpdate(-word.WaitingBias());
      wakes := result < 0;
    }

    // `cmpxchg`: store `desired` if the count is `expected`; either way report what was found.
    method CompareExchange(expected: int, desired: int) returns (found: int)
      requires Valid() && word.Fits(desired)
      modifies this
      ensures Valid() && found == old(count)
      ensures count == if found == expected then desired else old(count)
    {
      found := count;
      if found == expected {
        count := desired;
      }
    }

    // The other processors' stores just before this processor's access number `k`.
    method Interfere(interference: seq<int>, k: nat)
      requires Valid()
      requires forall v :: v in interference ==> word.Fits(v)
      modifies this
      ensures Valid()
      ensures count == if k < |interference| then interference[k] else old(count)
    {
      if k < |interference| {
        count := interference[k];
      }
    }

    // A load and then compare-and-exchange until it succeeds or the guard fails. Success is one
    // atomic add of the read bias made while the count was non-negative; failure never writes.
    method DownReadTrylock(interference: seq<int>) returns (ok: bool, trace: seq<Access>)
      requires Valid()
      requires forall v :: v in interference ==> word.Fits(v)
      modifies this
      ensures Valid()
      ensures Sees(old(count), interference, trace)
      ensures 0 < |trace| && count == trace[|trace| - 1].after
      ensures ok ==> AddsOnceAtEnd(word, trace, ACTIVE_BIAS) && 0 <= trace[|trace| - 1].before
      ensures !ok ==> NeverWrites(trace) && trace[|trace| - 1].before < 0
      ensures interference == [] ==> (ok <==> 0 <= old(count))
    {
      Interfere(interference, 0);
      var result := count;
      trace := [Access(count, count)];
      // JLE allows for overflow: it tests the sum before truncation.
      while result + ACTIVE_BIAS > 0
        invariant Valid() && word.Fits(result)
        invariant 0 < |trace| && result == count == trace[|trace| - 1].before
        invariant NeverWrites(trace) && Sees(old(count), interference, trace)
        invariant interference == [] ==> result == old(count)
        decreases |interference| - |trace|
      {
        ghost var loads := trace;
        Interfere(interference, |trace|);
        var found := CompareExchange(result, word.Wrap(result + ACTIVE_BIAS));
        SeesOneMore(old(count), interference, trace, Access(found, count));
        trace := trace + [Access(found, count)];
        assert trace[..|trace| - 1] == loads;
        if found == result {
          return true, trace;
        }
        result := found;
      }
      ok := result >= 0;
    }

    // The same loop for writing: the guard is "no active locker", and the flag of the last
    // comparison is the result.
    method DownWriteTrylock(interference: seq<int>) returns (ok: bool, trace: seq<Access>)
      requires Valid()
      requires forall v :: v in interference ==> word.Fits(v)
      modifies this
      ensures Valid()
      ensures Sees(old(count), interference, trace)
      ensures 0 < |trace| && count == trace[|trace| - 1].after
      ensures ok ==> AddsOnceAtEnd(word, trace, word.WriteBias())
                     && word.LowHalf(trace[|trace| - 1].before) == 0
      ensures !ok ==> NeverWrites(trace) && word.LowHalf(trace[|trace| - 1].before) != 0
      ensures interference == [] ==> (ok <==> word.LowHalf(old(count)) == 0)
    {
      Interfere(interference, 0);
      var result := count;
      trace := [Access(count, count)];
      while word.LowHalf(result) == 0
        invariant Valid() && word.Fits(result)
        invariant 0 < |trace| && result == count == trace[|trace| - 1].before
        invariant NeverWrites(trace) && Sees(old(count), interference, trace)
        invariant interference == [] ==> result == old(count)
        decreases |interference| - |trace|
      {
        ghost var loads := trace;
        Interfere(interference, |trace|);
        var found := CompareExchange(result, word.Wrap(result + word.WriteBias()));
        SeesOneMore(old(count), interference, trace, Access(found, count));
        trace := trace + [Access(found, count)];
        assert trace[..|trace| - 1] == loads;
        if found == result {
          return true, trace;
        }
        result := found;
      }
      ok := false;
    }
  }
}
