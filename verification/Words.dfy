/** Machine words as bit strings, least significant bit first. */
module Words {

  type Bits = seq<bool>

  function Zeros(n: nat): Bits {
    seq(n, _ => false)
  }

  type Byte = b: Bits | |b| == 8 witness Zeros(8)

  // The `n` low bits of a number.
  function FromNat(n: nat, v: nat): (r: Bits)
    ensures |r| == n
  {
    if n == 0 then [] else [v % 2 == 1] + FromNat(n - 1, v / 2)
  }

  lemma FromNatStep(n: nat, low: bool, rest: nat)
    ensures FromNat(n + 1, (if low then 1 else 0) + 2 * rest) == [low] + FromNat(n, rest)
  {
    var v := (if low then 1 else 0) + 2 * rest;
    assert v / 2 == rest && (v % 2 == 1 <==> low);
  }

  // The number a bit string stands for.
  function Value(x: Bits): (v: nat)
    ensures FromNat(|x|, v) == x
  {
    if x == [] then 0
    else
      var rest := Value(x[1..]);
      FromNatStep(|x| - 1, x[0], rest);
      (if x[0] then 1 else 0) + 2 * rest
  }

  function Pow2(n: nat): nat {
    if n == 0 then 1 else 2 * Pow2(n - 1)
  }

  function Xor(x: Bits, y: Bits): (r: Bits)
    requires |x| == |y|
    ensures |r| == |x|
  {
    seq(|x|, i requires 0 <= i < |x| => x[i] != y[i])
  }

  function And(x: Bits, y: Bits): (r: Bits)
    requires |x| == |y|
    ensures |r| == |x|
  {
    seq(|x|, i requires 0 <= i < |x| => x[i] && y[i])
  }

  function Or(x: Bits, y: Bits): (r: Bits)
    requires |x| == |y|
    ensures |r| == |x|
  {
    seq(|x|, i requires 0 <= i < |x| => x[i] || y[i])
  }

  function Not(x: Bits): (r: Bits)
    ensures |r| == |x|
  {
    seq(|x|, i requires 0 <= i < |x| => !x[i])
  }

  // `x >> n` for an unsigned word.
  function Right(x: Bits, n: nat): (r: Bits)
    requires n <= |x|
    ensures |r| == |x|
  {
    x[n..] + Zeros(n)
  }

  // `x << n`, losing the bits pushed out at the top.
  function Left(x: Bits, n: nat): (r: Bits)
    requires n <= |x|
    ensures |r| == |x|
  {
    Zeros(n) + x[..|x| - n]
  }

  // The word of width `n` with exactly these bits set.
  function Mask(n: nat, bits: set<nat>): (r: Bits)
    ensures |r| == n
  {
    seq(n, i requires 0 <= i => i in bits)
  }

  lemma {:induction false} ValueBound(x: Bits)
    ensures Value(x) < Pow2(|x|)
  {
    if x != [] {
      ValueBound(x[1..]);
    }
  }
}
