/** codepage_convert of Model/asm/ebcdic.h: a buffer translated in place, 256 bytes at a time,
    with a tail whose length is the low byte of a counter that has gone negative. TR, EX, AHI
    and the branch on its condition code are as in chapter 7 of the z/Architecture Principles
    of Operation. */
module Codepage {

  type U8 = x: int | 0 <= x < 256
  type Table = t: seq<U8> | |t| == 256 witness seq(256, _ => 0)

  const TWO31 := 0x8000_0000
  const TWO32 := 0x1_0000_0000

  // Bytes `from` up to `to` looked up in the table, all others left alone.
  function Translate(t: Table, s: seq<U8>, from: nat, to: nat): (r: seq<U8>)
    ensures |r| == |s|
  {
    seq(|s|, i requires 0 <= i < |s| => if from <= i < to then t[s[i]] else s[i])
  }

  // AHI: add to a 32-bit register. The condition code is 0, 1 or 2 for a zero, negative or
  // positive sum, and 3 when the sum does not fit and is truncated.
  function AddHalfword(r: int, immediate: int): (int, int) {
    var sum := r + immediate;
    if sum < -TWO31 then (sum + TWO32, 3)
    else if sum >= TWO31 then (sum - TWO32, 3)
    else (sum, if sum == 0 then 0 else if sum < 0 then 1 else 2)
  }

  // JNM: branch on every condition code but 1, overflow included.
  predicate NotMinus(cc: int) {
    cc != 1
  }

  // TR: translate `length` bytes at `at`, left to right.
  method TranslateBlock(t: Table, buf: array<U8>, at: nat, length: nat)
    requires at + length <= buf.Length
    modifies buf
    ensures buf[..] == Translate(t, old(buf[..]), at, at + length)
  {
    for i := 0 to length
      invariant forall k :: 0 <= k < buf.Length ==>
        buf[k] == if at <= k < at + i then t[old(buf[k])] else old(buf[k])
    {
      buf[at + i] := t[buf[at + i]];
    }
  }

  /** How many bytes from the start of the buffer the loop reaches for a count of `nr`. */
  function Reach(nr: nat): nat {
    if nr == 0 then 0
    else
      var counter := (nr - 1) % TWO32;
      if counter < TWO31 + 256 then counter + 1 else counter % 256 + 1
  }

  lemma TranslateJoins(t: Table, s: seq<U8>, a: nat, b: nat)
    requires a <= b
    ensures Translate(t, Translate(t, s, 0, a), a, b) == Translate(t, s, 0, b)
  {
  }

  // Extend the translated part of the buffer by one TR.
  method TranslateNext(t: Table, buf: array<U8>, at: nat, length: nat, ghost original: seq<U8>)
    requires at + length <= buf.Length && buf[..] == Translate(t, original, 0, at)
    modifies buf
    ensures buf[..] == Translate(t, original, 0, at + length)
  {
    TranslateBlock(t, buf, at, length);
    TranslateJoins(t, original, at, at + length);
  }

  lemma TailLength(low: nat, addr: nat, counter: int)
    requires low < TWO32
    requires if low < TWO31 + 256 then -256 <= counter < 0 && counter == low - addr - 256
             else counter == low - TWO32 - 256
    ensures counter % 256 == if low < TWO31 + 256 then low - addr else low % 256
  {
  }

  // The loop, on the low 32 bits of the counter.
  method ConvertFrom(codepage: Table, buf: array<U8>, low: nat)
    requires low < TWO32
    requires (if low < TWO31 + 256 then low else low % 256) < buf.Length
    modifies buf
    ensures buf[..] == Translate(codepage, old(buf[..]), 0, if low < TWO31 + 256 then low + 1 else low % 256 + 1)
  {
    var addr := 0;
    var step := AddHalfword(if low < TWO31 then low else low - TWO32, -256);
    assert buf[..] == Translate(codepage, buf[..], 0, 0);
    while NotMinus(step.1)
      invariant buf[..] == Translate(codepage, old(buf[..]), 0, addr)
      invariant low < TWO31 + 256 ==>
        addr <= low && step.0 == low - addr - 256 && (NotMinus(step.1) <==> 0 <= step.0)
      invariant TWO31 + 256 <= low ==> addr == 0 && step.0 == low - TWO32 - 256 && !NotMinus(step.1)
      decreases if NotMinus(step.1) then low - addr + 1 else 0
    {
      TranslateNext(codepage, buf, addr, 256, old(buf[..]));
      addr := addr + 256;
      step := AddHalfword(step.0, -256);
    }
    // EX: the low byte of the counter becomes the length field, which is one less than the length.
    TailLength(low, addr, step.0);
    TranslateNext(codepage, buf, addr, step.0 % 256 + 1, old(buf[..]));
  }

  method CodepageConvert(codepage: Table, buf: array<U8>, nr: nat)
    requires nr < 0x1_0000_0000_0000_0000 && Reach(nr) <= buf.Length
    modifies buf
    ensures buf[..] == Translate(codepage, old(buf[..]), 0, Reach(nr))
    ensures forall k :: 0 <= k < buf.Length ==>
      buf[k] == if k < Reach(nr) then codepage[old(buf[k])] else old(buf[k])
  {
    if nr == 0 {
      assert buf[..] == Translate(codepage, buf[..], 0, 0);
      return;
    }
    ConvertFrom(codepage, buf, (nr - 1) % TWO32);
    assert forall k :: 0 <= k < buf.Length ==> buf[..][k] == Translate(codepage, old(buf[..]), 0, Reach(nr))[k];
  }

  /** The loop reaches exactly the `nr` bytes asked for up to 2^31 + 256, and never beyond that; from
      there to 2^32 it reaches only the tail. */
  lemma ReachIsExactIff(nr: nat)
    requires nr < 0x1_0000_0000_0000_0000
    ensures Reach(nr) == nr <==> nr <= TWO31 + 256
    ensures Reach(nr) <= nr
    ensures TWO31 + 256 < nr <= TWO32 ==> Reach(nr) == (nr - 1) % 256 + 1
  {
  }

  /** Only the lower 32 bits of the count less one matter. */
  lemma ReachStartsOver(nr: nat)
    requires 0 < nr
    ensures Reach(nr + TWO32) == Reach(nr)
  {
    assert (nr - 1 + TWO32) % TWO32 == (nr - 1) % TWO32;
  }

  ghost predicate Undoes(inverse: Table, t: Table) {
    forall b: U8 :: inverse[t[b]] == b
  }

  /** Converting forth and back restores every buffer exactly when one table undoes the other. */
  lemma RoundTripIff(t: Table, inverse: Table, n: nat)
    requires 0 < n
    ensures (forall s: seq<U8> :: Translate(inverse, Translate(t, s, 0, n), 0, n) == s) <==> Undoes(inverse, t)
  {
    if !Undoes(inverse, t) {
      var b: U8 :| inverse[t[b]] != b;
      assert Translate(inverse, Translate(t, [b], 0, n), 0, n)[0] != [b][0];
    }
  }
}
