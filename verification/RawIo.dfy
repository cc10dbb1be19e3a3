/** The string transfers of Model/asm/raw_io.h: a remainder loop and an unrolled loop, both
    counted by DBRA, which decrements and tests only the low 16 bits of its register
    (M68000 Family Programmer's Reference Manual, DBcc). */
module RawIo {

  type U16 = x: int | 0 <= x < 0x1_0000

  const TWO32 := 0x1_0000_0000

  /** A device register: the successive values it will yield, and what has been sent to it. */
  class Port<T> {
    const source: nat -> T
    var taken: nat
    var sent: seq<T>

    constructor (source: nat -> T)
      ensures this.source == source && taken == 0 && sent == []
    {
      this.source := source;
      taken := 0;
      sent := [];
    }

    method Read() returns (x: T)
      modifies this`taken
      ensures x == source(old(taken)) && taken == old(taken) + 1
    {
      x := source(taken);
      taken := taken + 1;
    }

    method Write(x: T)
      modifies this`sent
      ensures sent == old(sent) + [x]
    {
      sent := sent + [x];
    }
  }

  // DBRA: only the lower half of the register takes part, and the branch is taken unless it was 0.
  function Dbra(low: nat): (nat, bool) {
    if low == 0 then (0xffff, false) else (low - 1, true)
  }

  // How often the body of a loop closed by DBRA runs when the register starts at `d`.
  function Passes(d: nat): nat {
    d % 0x1_0000 + 1
  }

  lemma OneMorePass(copies: nat, done: nat, passes: nat)
    requires done < passes
    ensures copies * (done + 1) == copies * done + copies
    ensures copies * done + copies <= copies * passes
  {
    if done + 1 < passes {
      OneMorePass(copies, done, passes - 1);
    }
  }

  // One pass: `copies` move instructions from the port into the buffer.
  method ReadPass<T>(port: Port<T>, buf: array<T>, at: nat, copies: nat, f: T -> T)
    requires at + copies <= buf.Length
    modifies port`taken, buf
    ensures port.taken == old(port.taken) + copies
    ensures forall k :: 0 <= k < buf.Length ==>
      buf[k] == if at <= k < at + copies then f(port.source(old(port.taken) + k - at)) else old(buf[k])
  {
    for i := 0 to copies
      invariant port.taken == old(port.taken) + i
      invariant forall k :: 0 <= k < buf.Length ==>
        buf[k] == if at <= k < at + i then f(port.source(old(port.taken) + k - at)) else old(buf[k])
    {
      var x := port.Read();
      buf[at + i] := f(x);
    }
  }

  // `1: move...; dbra d,1b` with `copies` move instructions, reading the port into the buffer.
  method ReadLoop<T>(port: Port<T>, buf: array<T>, at: nat, d: nat, copies: nat, f: T -> T)
    requires at + copies * Passes(d) <= buf.Length
    modifies port`taken, buf
    ensures port.taken == old(port.taken) + copies * Passes(d)
    ensures forall k :: 0 <= k < buf.Length ==>
      buf[k] == if at <= k < at + copies * Passes(d) then f(port.source(old(port.taken) + k - at)) else old(buf[k])
  {
    var low: nat, more, pos := d % 0x1_0000, true, at;
    ghost var done: nat, passes := 0, Passes(d);
    while more
      invariant pos == at + copies * done && port.taken == old(port.taken) + copies * done
      invariant if more then done + low + 1 == passes else done == passes
      invariant forall k :: 0 <= k < buf.Length ==>
        buf[k] == if at <= k < pos then f(port.source(old(port.taken) + k - at)) else old(buf[k])
      decreases if more then low + 1 else 0
    {
      OneMorePass(copies, done, passes);
      ReadPass(port, buf, pos, copies, f);
      pos := pos + copies;
      var r := Dbra(low);
      low, more := r.0, r.1;
      done := done + 1;
    }
  }

  function Sent<T>(s: seq<T>, at: nat, n: nat, f: T -> T): (r: seq<T>)
    requires at + n <= |s|
    ensures |r| == n
  {
    seq(n, i requires 0 <= i < n => f(s[at + i]))
  }

  lemma SentJoins<T>(before: seq<T>, s: seq<T>, at: nat, m: nat, n: nat, f: T -> T)
    requires at + m + n <= |s|
    ensures before + Sent(s, at, m, f) + Sent(s, at + m, n, f) == before + Sent(s, at, m + n, f)
  {
  }

  lemma SentPlain<T>(s: seq<T>, at: nat, n: nat)
    requires at + n <= |s|
    ensures Sent(s, at, n, x => x) == s[at..at + n]
  {
  }

  method WritePass<T>(port: Port<T>, buf: array<T>, at: nat, copies: nat, f: T -> T)
    requires at + copies <= buf.Length
    modifies port`sent
    ensures port.sent == old(port.sent) + Sent(buf[..], at, copies, f)
  {
    for i := 0 to copies
      invariant port.sent == old(port.sent) + Sent(buf[..], at, i, f)
    {
      port.Write(f(buf[at + i]));
      assert Sent(buf[..], at, i + 1, f) == Sent(buf[..], at, i, f) + [f(buf[at + i])];
    }
  }

  // The same loop in the other direction.
  method WriteLoop<T>(port: Port<T>, buf: array<T>, at: nat, d: nat, copies: nat, f: T -> T)
    requires at + copies * Passes(d) <= buf.Length
    modifies port`sent
    ensures port.sent == old(port.sent) + Sent(buf[..], at, copies * Passes(d), f)
  {
    var low: nat, more, pos := d % 0x1_0000, true, at;
    ghost var done: nat, passes, s, before, n: nat := 0, Passes(d), buf[..], port.sent, 0;
    while more
      invariant n == copies * done && pos == at + n && at + n <= buf.Length && buf[..] == s
      invariant if more then done + low + 1 == passes else done == passes
      invariant port.sent == before + Sent(s, at, n, f)
      decreases if more then low + 1 else 0
    {
      OneMorePass(copies, done, passes);
      WritePass(port, buf, pos, copies, f);
      SentJoins(before, s, at, n, copies, f);
      n, pos := n + copies, pos + copies;
      var r := Dbra(low);
      low, more := r.0, r.1;
      done := done + 1;
    }
  }

  // ----- Transfers unrolled sixteen times -----

  /** How many items the remainder loop and the unrolled loop move together. */
  function Moved(nr: nat): nat {
    nr % 16 + if nr / 16 == 0 then 0 else 16 * Passes(nr / 16 - 1)
  }

  /** The sixteen-way loop moves `nr` items exactly while its pass count fits DBRA's 16 bits. */
  lemma MovedIsExactIff(nr: nat)
    ensures Moved(nr) == nr <==> nr / 16 <= 0x1_0000
    ensures Moved(nr) <= nr
  {
  }

  // raw_insw and raw_insl: the code is the same, only the item is wider.
  method StringIn<T>(port: Port<T>, buf: array<T>, nr: nat)
    requires nr < TWO32 && Moved(nr) <= buf.Length
    modifies port`taken, buf
    ensures port.taken == old(port.taken) + Moved(nr)
    ensures forall k :: 0 <= k < buf.Length ==>
      buf[k] == if k < Moved(nr) then port.source(old(port.taken) + k) else old(buf[k])
  {
    if nr % 16 != 0 {
      ReadLoop(port, buf, 0, nr % 16 - 1, 1, x => x);
    }
    if nr / 16 != 0 {
      ReadLoop(port, buf, nr % 16, nr / 16 - 1, 16, x => x);
    }
  }

  // The remainder loop and the unrolled loop of raw_outsw and raw_outsl.
  method PlainOut<T>(port: Port<T>, buf: array<T>, at: nat, d: nat, copies: nat)
    requires at + copies * Passes(d) <= buf.Length
    modifies port`sent
    ensures port.sent == old(port.sent) + buf[at..at + copies * Passes(d)]
  {
    WriteLoop(port, buf, at, d, copies, x => x);
    SentPlain(buf[..], at, copies * Passes(d));
    assert buf[..][at..at + copies * Passes(d)] == buf[at..at + copies * Passes(d)];
  }

  // raw_outsw and raw_outsl
  method StringOut<T>(port: Port<T>, buf: array<T>, nr: nat)
    requires nr < TWO32 && Moved(nr) <= buf.Length
    modifies port`sent
    ensures port.sent == old(port.sent) + buf[..Moved(nr)]
  {
    if nr % 16 != 0 {
      PlainOut(port, buf, 0, nr % 16 - 1, 1);
    }
    assert port.sent == old(port.sent) + buf[..nr % 16];
    if nr / 16 != 0 {
      PlainOut(port, buf, nr % 16, nr / 16 - 1, 16);
      assert buf[..nr % 16] + buf[nr % 16..Moved(nr)] == buf[..Moved(nr)];
    }
  }

  // ----- Byte-swapping transfers -----

  // rolw #8
  function Swap(x: U16): U16 {
    x % 256 * 256 + x / 256
  }

  lemma SwapTwice(x: U16)
    ensures Swap(x) / 256 == x % 256 && Swap(x) % 256 == x / 256
    ensures Swap(Swap(x)) == x
  {
  }

  // `subql #1` on a 32-bit register.
  function Decrement(d: nat): nat {
    if d == 0 then TWO32 - 1 else d - 1
  }

  /** How many words the swapping loops move: no guard keeps an empty request out. */
  function SwapMoved(nr: nat): nat {
    if nr % 8 != 0 then Passes(Decrement(nr)) else 8 * Passes(Decrement(nr / 8))
  }

  /** Exactly when the swapping transfers move what they were asked to: a request for nothing
      moves 524288 words, and a long one is cut off where its branch's counter wraps. */
  lemma SwapMovedIsExactIff(nr: nat)
    ensures SwapMoved(nr) == nr <==> 0 < nr && (if nr % 8 == 0 then nr / 8 <= 0x1_0000 else nr <= 0x1_0000)
    ensures SwapMoved(0) == 0x8_0000
  {
  }

  method StringInSwapped(port: Port<U16>, buf: array<U16>, nr: nat)
    requires nr < TWO32 && SwapMoved(nr) <= buf.Length
    modifies port`taken, buf
    ensures port.taken == old(port.taken) + SwapMoved(nr)
    ensures forall k :: 0 <= k < buf.Length ==>
      buf[k] == if k < SwapMoved(nr) then Swap(port.source(old(port.taken) + k)) else old(buf[k])
  {
    if nr % 8 != 0 {
      ReadLoop(port, buf, 0, Decrement(nr), 1, Swap);
    } else {
      ReadLoop(port, buf, 0, Decrement(nr / 8), 8, Swap);
    }
  }

  method StringOutSwapped(port: Port<U16>, buf: array<U16>, nr: nat)
    requires nr < TWO32 && SwapMoved(nr) <= buf.Length
    modifies port`sent
    ensures port.sent == old(port.sent) + Sent(buf[..], 0, SwapMoved(nr), Swap)
  {
    if nr % 8 != 0 {
      WriteLoop(port, buf, 0, Decrement(nr), 1, Swap);
    } else {
      WriteLoop(port, buf, 0, Decrement(nr / 8), 8, Swap);
    }
  }

  // The next `n` values of a device from its read number `start` on.
  function Yielded<T>(source: nat -> T, start: nat, n: nat): (r: seq<T>)
    ensures |r| == n
  {
    seq(n, i requires 0 <= i => source(start + i))
  }

  /** Swapping in and then out sends on, in order, exactly the words the first port yielded. */
  method Relay(from: Port<U16>, to: Port<U16>, buf: array<U16>, nr: nat)
    requires nr < TWO32 && SwapMoved(nr) <= buf.Length
    modifies from`taken, to`sent, buf
    ensures to.sent == old(to.sent) + Yielded(from.source, old(from.taken), SwapMoved(nr))
  {
    StringInSwapped(from, buf, nr);
    StringOutSwapped(to, buf, nr);
    ghost var n := SwapMoved(nr);
    forall k | 0 <= k < n
      ensures Sent(buf[..], 0, n, Swap)[k] == Yielded(from.source, old(from.taken), n)[k]
    {
      SwapTwice(from.source(old(from.taken) + k));
    }
    assert Sent(buf[..], 0, n, Swap) == Yielded(from.source, old(from.taken), n);
  }
}
