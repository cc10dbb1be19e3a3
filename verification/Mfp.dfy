/** The interrupt registers of the two Atari MFP 68901 chips (Model/asm/atariints.h, with the
    register layout of Model/asm/atarihw.h): bits packed into memory-mapped bytes, shown to be
    thirty-two independent interrupt sources. On this chip a zero written to a pending or
    in-service bit clears it and a one leaves it, and a source whose enable bit is off does
    not latch requests. */
module Mfp {
  import opened Words

  type Registers = map<nat, Byte>

  const STMFP_SOURCE_BASE := 8
  const SCC_SOURCE_BASE := 40

  const INT_EN_A := 0xfffffa01 + 6   // &st_mfp.int_en_a

  datatype Kind = ENABLE | PENDING | SERVICE | MASK {
    function Number(): nat {
      match this case ENABLE => 0 case PENDING => 1 case SERVICE => 2 case MASK => 3
    }
  }

  // The range the atari_* functions let through.
  predicate IsMfpIrq(irq: nat) {
    STMFP_SOURCE_BASE <= irq < SCC_SOURCE_BASE
  }

  function Bank(irq: nat): (b: nat)
    ensures b < 2
  {
    irq / 8 % 2
  }

  // Bit 4 of `irq - 8`, an unsigned difference of 32 bits.
  function Chip(irq: nat): (c: nat)
    ensures c < 2
  {
    (irq + 0x1_0000_0000 - 8) / 16 % 2
  }

  function Bit(irq: nat): (b: nat)
    ensures b < 8
  {
    irq % 8
  }

  // Register A or B of the kind, on the first chip or, 0x80 further, on the second.
  function Address(irq: nat, kind: Kind): nat {
    INT_EN_A + kind.Number() * 4 + Bank(irq) * 2 + Chip(irq) * 128
  }

  // The residue modulo 32: the lower five bits.
  function Residue(irq: nat): (r: nat)
    ensures r < 32
  {
    if irq < 32 then irq else Residue(irq - 32)
  }

  // The numbers the address arithmetic cannot tell apart.
  predicate Alias(irq: nat, irq': nat) {
    Residue(irq) == Residue(irq')
  }

  lemma NumberInjective(kind: Kind, kind': Kind)
    ensures kind.Number() < 4 && (kind.Number() == kind'.Number() <==> kind == kind')
  {
  }

  lemma {:induction false} BankOfResidue(irq: nat)
    ensures Bank(irq) == Bank(Residue(irq))
  {
    if 32 <= irq {
      assert irq / 8 == (irq - 32) / 8 + 4;
      BankOfResidue(irq - 32);
    }
  }

  lemma ChipTurn(irq: nat)
    ensures Chip(irq + 32) == Chip(irq)
  {
    var n := irq + 0x1_0000_0000 - 8;
    assert (n + 32) / 16 == n / 16 + 2;
  }

  lemma {:induction false} ChipOfResidue(irq: nat)
    ensures Chip(irq) == Chip(Residue(irq))
  {
    if 32 <= irq {
      ChipTurn(irq - 32);
      ChipOfResidue(irq - 32);
    }
  }

  lemma {:induction false} BitOfResidue(irq: nat)
    ensures Bit(irq) == Bit(Residue(irq))
  {
    if 32 <= irq {
      assert irq % 8 == (irq - 32) % 8;
      BitOfResidue(irq - 32);
    }
  }

  lemma ResidueFromDigits(r: nat)
    requires r < 32
    ensures (if r < 8 then r + 24 else r - 8) == 16 * Chip(r) + 8 * (1 - Bank(r)) + Bit(r)
  {
    assert Chip(r) == if 8 <= r < 24 then 0 else 1;
    assert Bank(r) == if r < 8 || 16 <= r < 24 then 0 else 1;
  }

  lemma DigitsDecide(irq: nat, irq': nat)
    ensures Alias(irq, irq') <==> Chip(irq) == Chip(irq') && Bank(irq) == Bank(irq') && Bit(irq) == Bit(irq')
  {
    BankOfResidue(irq);
    ChipOfResidue(irq);
    BitOfResidue(irq);
    BankOfResidue(irq');
    ChipOfResidue(irq');
    BitOfResidue(irq');
    ResidueFromDigits(Residue(irq));
    ResidueFromDigits(Residue(irq'));
  }

  lemma UniqueOffset(k: nat, b: nat, c: nat, k': nat, b': nat, c': nat)
    requires k < 4 && b < 2 && c < 2 && k' < 4 && b' < 2 && c' < 2
    ensures k * 4 + b * 2 + c * 128 == k' * 4 + b' * 2 + c' * 128 <==> k == k' && b == b' && c == c'
  {
  }

  /** Two interrupt numbers share a register bit exactly if they agree modulo 32 and name the
      same kind of register. */
  lemma AddressInjective(irq: nat, kind: Kind, irq': nat, kind': Kind)
    ensures Address(irq, kind) == Address(irq', kind') && Bit(irq) == Bit(irq') <==> Alias(irq, irq') && kind == kind'
  {
    DigitsDecide(irq, irq');
    NumberInjective(kind, kind');
    UniqueOffset(kind.Number(), Bank(irq), Chip(irq), kind'.Number(), Bank(irq'), Chip(irq'));
  }

  /** Among the MFP interrupts no two share a bit. */
  lemma NoAliases(irq: nat, irq': nat)
    requires IsMfpIrq(irq) && IsMfpIrq(irq')
    ensures Alias(irq, irq') <==> irq == irq'
  {
    assert Residue(irq) == if irq < 32 then irq else irq - 32;
    assert Residue(irq') == if irq' < 32 then irq' else irq' - 32;
  }

  // Offsets of the registers in struct MFP, written out: A then B of each kind.
  function StructOffset(kind: Kind, inA: bool): nat {
    match kind
    case ENABLE => if inA then 6 else 8
    case PENDING => if inA then 10 else 12
    case SERVICE => if inA then 14 else 16
    case MASK => if inA then 18 else 20
  }

  /** The address arithmetic finds the register the chip's layout gives the interrupt: its upper
      eight sources are in register A, lowest bit first, and the second chip's block starts at
      0xfffffa81. */
  lemma AddressMatchesLayout(irq: nat, kind: Kind)
    requires IsMfpIrq(irq)
    ensures Address(irq, kind) == (if irq < 24 then 0xfffffa01 else 0xfffffa81)
                                  + StructOffset(kind, 16 <= irq < 24 || 32 <= irq)
    ensures Bit(irq) == irq - if irq < 16 then 8 else if irq < 24 then 16 else if irq < 32 then 24 else 32
  {
    assert Bank(irq) == if 16 <= irq < 24 || 32 <= irq then 0 else 1;
    assert Chip(irq) == if irq < 24 then 0 else 1;
  }

  function Load(regs: Registers, at: nat): Byte {
    if at in regs then regs[at] else Zeros(8)
  }

  // The chip's answer to a byte written by the processor.
  function BusWrite(regs: Registers, at: nat, value: Byte): Registers {
    var offset := (at - INT_EN_A) % 128;
    if 4 <= offset < 12 then regs[at := And(Load(regs, at), value)] else regs[at := value]
  }

  function GetBit(regs: Registers, irq: nat, kind: Kind): bool {
    Load(regs, Address(irq, kind))[Bit(irq)]
  }

  // What set_mfp_bit and clear_mfp_bit leave in the registers.
  function WithBit(regs: Registers, irq: nat, kind: Kind, value: bool): Registers {
    regs[Address(irq, kind) := Load(regs, Address(irq, kind))[Bit(irq) := value]]
  }

  // A request line going active inside the chip.
  function Request(regs: Registers, irq: nat): Registers {
    if IsMfpIrq(irq) && GetBit(regs, irq, ENABLE) then WithBit(regs, irq, PENDING, true) else regs
  }

  lemma WithBitAt(regs: Registers, irq: nat, kind: Kind, value: bool, irq': nat, kind': Kind)
    ensures GetBit(WithBit(regs, irq, kind, value), irq', kind')
         == if Alias(irq, irq') && kind == kind' then value else GetBit(regs, irq', kind')
  {
    AddressInjective(irq, kind, irq', kind');
  }

  lemma RegisterKind(irq: nat, kind: Kind)
    ensures 4 <= (Address(irq, kind) - INT_EN_A) % 128 < 12 <==> kind.PENDING? || kind.SERVICE?
  {
    assert (Address(irq, kind) - INT_EN_A) % 128 == kind.Number() * 4 + Bank(irq) * 2;
  }

  // ----- Thirty-two sources -----

  datatype Op =
    | Enable(irq: nat)        // atari_enable_irq
    | Disable(irq: nat)       // atari_disable_irq
    | TurnOn(irq: nat)        // atari_turnon_irq
    | TurnOff(irq: nat)       // atari_turnoff_irq
    | ClearPending(irq: nat)  // atari_clear_pending_irq
    | Arrives(irq: nat)       // a request from the device

  function Apply(regs: Registers, op: Op): Registers {
    if !IsMfpIrq(op.irq) then regs
    else
      match op
      case Enable(irq) => WithBit(regs, irq, MASK, true)
      case Disable(irq) => WithBit(regs, irq, MASK, false)
      case TurnOn(irq) => WithBit(regs, irq, ENABLE, true)
      case TurnOff(irq) => WithBit(WithBit(regs, irq, ENABLE, false), irq, PENDING, false)
      case ClearPending(irq) => WithBit(regs, irq, PENDING, false)
      case Arrives(irq) => Request(regs, irq)
  }

  function Run(regs: Registers, ops: seq<Op>): Registers
    decreases |ops|
  {
    if ops == [] then regs else Apply(Run(regs, ops[..|ops| - 1]), ops[|ops| - 1])
  }

  /** One interrupt source on its own. */
  datatype Source = Source(on: bool, pending: bool, inService: bool, unmasked: bool) {
    function After(op: Op): Source {
      match op
      case Enable(_) => this.(unmasked := true)
      case Disable(_) => this.(unmasked := false)
      case TurnOn(_) => this.(on := true)
      case TurnOff(_) => this.(on := false, pending := false)
      case ClearPending(_) => this.(pending := false)
      case Arrives(_) => this.(pending := pending || on)
    }

    // The source after a whole run, of which it sees only what is addressed to it.
    function AfterAll(irq: nat, ops: seq<Op>): Source
      decreases |ops|
    {
      if ops == [] then this
      else
        var before := AfterAll(irq, ops[..|ops| - 1]);
        if ops[|ops| - 1].irq == irq then before.After(ops[|ops| - 1]) else before
    }
  }

  function View(regs: Registers, irq: nat): Source
    requires IsMfpIrq(irq)
  {
    Source(GetBit(regs, irq, ENABLE), GetBit(regs, irq, PENDING), GetBit(regs, irq, SERVICE), GetBit(regs, irq, MASK))
  }

  class MfpPair {
    var regs: Registers

    method GetMfpBit(irq: nat, kind: Kind) returns (b: bool)
      ensures b == GetBit(regs, irq, kind)
    {
      var mask := Mask(8, {Bit(irq)});
      var byte := And(Load(regs, Address(irq, kind)), mask);
      b := byte != Zeros(8);
      assert byte[Bit(irq)] == GetBit(regs, irq, kind);
      assert GetBit(regs, irq, kind) || byte == Zeros(8);
    }

    // `orb`: read, join, write back. Pending and in-service bits cannot be set this way.
    method SetMfpBit(irq: nat, kind: Kind)
      modifies this
      ensures forall i: nat, k ::
        GetBit(regs, i, k) == (old(GetBit(regs, i, k)) || (Alias(irq, i) && k == kind && (kind.ENABLE? || kind.MASK?)))
      ensures kind.ENABLE? || kind.MASK? ==> regs == WithBit(old(regs), irq, kind, true)
    {
      var at, mask := Address(irq, kind), Mask(8, {Bit(irq)});
      ghost var was := regs;
      ghost var same := Load(regs, at);
      regs := BusWrite(regs, at, Or(Load(regs, at), mask));
      RegisterKind(irq, kind);
      assert Or(same, mask) == same[Bit(irq) := true];
      assert And(same, Or(same, mask)) == same;
      forall i: nat, k: Kind
        ensures GetBit(regs, i, k) == (GetBit(was, i, k) || (Alias(irq, i) && k == kind && (kind.ENABLE? || kind.MASK?)))
      {
        WithBitAt(was, irq, kind, true, i, k);
      }
    }

    // `moveb` of the complement for the clear-by-zero registers, `andb` for the others.
    method ClearMfpBit(irq: nat, kind: Kind)
      modifies this
      ensures regs == WithBit(old(regs), irq, kind, false)
      ensures forall i: nat, k ::
        GetBit(regs, i, k) == (old(GetBit(regs, i, k)) && !(Alias(irq, i) && k == kind))
    {
      var at, mask := Address(irq, kind), Not(Mask(8, {Bit(irq)}));
      ghost var was := regs;
      ghost var same := Load(regs, at);
      RegisterKind(irq, kind);
      assert And(same, mask) == same[Bit(irq) := false];
      if kind.PENDING? || kind.SERVICE? {
        regs := BusWrite(regs, at, mask);
      } else {
        regs := BusWrite(regs, at, And(Load(regs, at), mask));
      }
      forall i: nat, k: Kind
        ensures GetBit(regs, i, k) == (GetBit(was, i, k) && !(Alias(irq, i) && k == kind))
      {
        WithBitAt(was, irq, kind, false, i, k);
      }
    }

    // The six operations of the header, as one dispatch: `Apply` says what each leaves behind.
    method Perform(op: Op)
      modifies this
      ensures regs == Apply(old(regs), op)
    {
      if !IsMfpIrq(op.irq) {
        return;
      }
      match op
      case Enable(irq) => SetMfpBit(irq, MASK);
      case Disable(irq) => ClearMfpBit(irq, MASK);
      case TurnOn(irq) => SetMfpBit(irq, ENABLE);
      case TurnOff(irq) =>
        ClearMfpBit(irq, ENABLE);
        ClearMfpBit(irq, PENDING);
      case ClearPending(irq) => ClearMfpBit(irq, PENDING);
      case Arrives(irq) => regs := Request(regs, irq);
    }

    method AtariIrqPending(irq: nat) returns (b: bool)
      ensures b == (IsMfpIrq(irq) && View(regs, irq).pending)
    {
      if !IsMfpIrq(irq) {
        return false;
      }
      b := GetMfpBit(irq, PENDING);
    }
  }

  lemma WithBitView(regs: Registers, irq: nat, kind: Kind, value: bool, i: nat)
    requires IsMfpIrq(irq) && IsMfpIrq(i)
    ensures View(WithBit(regs, irq, kind, value), i)
         == if i != irq then View(regs, i)
            else match kind
                 case ENABLE => View(regs, i).(on := value)
                 case PENDING => View(regs, i).(pending := value)
                 case SERVICE => View(regs, i).(inService := value)
                 case MASK => View(regs, i).(unmasked := value)
  {
    NoAliases(irq, i);
    WithBitAt(regs, irq, kind, value, i, ENABLE);
    WithBitAt(regs, irq, kind, value, i, PENDING);
    WithBitAt(regs, irq, kind, value, i, SERVICE);
    WithBitAt(regs, irq, kind, value, i, MASK);
  }

  lemma StepRefines(regs: Registers, op: Op, i: nat)
    requires IsMfpIrq(i)
    ensures View(Apply(regs, op), i) == if op.irq == i then View(regs, i).After(op) else View(regs, i)
  {
    if IsMfpIrq(op.irq) {
      match op
      case Enable(irq) => WithBitView(regs, irq, MASK, true, i);
      case Disable(irq) => WithBitView(regs, irq, MASK, false, i);
      case TurnOn(irq) => WithBitView(regs, irq, ENABLE, true, i);
      case TurnOff(irq) =>
        WithBitView(regs, irq, ENABLE, false, i);
        WithBitView(WithBit(regs, irq, ENABLE, false), irq, PENDING, false, i);
      case ClearPending(irq) => WithBitView(regs, irq, PENDING, false, i);
      case Arrives(irq) => WithBitView(regs, irq, PENDING, true, i);
    }
  }

  /** Every run on the packed registers is thirty-two separate runs. */
  lemma {:induction false} RunRefines(regs: Registers, ops: seq<Op>, i: nat)
    requires IsMfpIrq(i)
    ensures View(Run(regs, ops), i) == View(regs, i).AfterAll(i, ops)
    decreases |ops|
  {
    if ops != [] {
      RunRefines(regs, ops[..|ops| - 1], i);
      StepRefines(Run(regs, ops[..|ops| - 1]), ops[|ops| - 1], i);
    }
  }

  // ----- What happens to requests -----

  predicate Forgets(op: Op, irq: nat) {
    op.irq == irq && (op.ClearPending? || op.TurnOff?)
  }

  ghost predicate NeverForgets(ops: seq<Op>, irq: nat) {
    forall k :: 0 <= k < |ops| ==> !Forgets(ops[k], irq)
  }

  // Request number `k` was latched and nothing has cleared it since.
  ghost predicate LatchedAt(s: Source, irq: nat, ops: seq<Op>, k: nat) {
    && k < |ops| && ops[k] == Arrives(irq)
    && s.AfterAll(irq, ops[..k]).on
    && NeverForgets(ops[k + 1..], irq)
  }

  lemma NeverForgetsLater(ops: seq<Op>, last: Op, irq: nat)
    ensures NeverForgets(ops + [last], irq) <==> NeverForgets(ops, irq) && !Forgets(last, irq)
  {
    assert (ops + [last])[|ops|] == last;
    assert forall k :: 0 <= k < |ops| ==> (ops + [last])[k] == ops[k];
  }

  // One more operation keeps the latched requests unless it forgets them.
  lemma LatchedLater(s: Source, irq: nat, ops: seq<Op>, last: Op, k: nat)
    requires k < |ops|
    ensures LatchedAt(s, irq, ops + [last], k) <==> LatchedAt(s, irq, ops, k) && !Forgets(last, irq)
  {
    var longer := ops + [last];
    assert longer[..k] == ops[..k];
    assert longer[k + 1..] == ops[k + 1..] + [last];
    NeverForgetsLater(ops[k + 1..], last, irq);
  }

  lemma LatchedNow(s: Source, irq: nat, ops: seq<Op>, last: Op)
    ensures LatchedAt(s, irq, ops + [last], |ops|) <==> last == Arrives(irq) && s.AfterAll(irq, ops).on
  {
    assert (ops + [last])[..|ops|] == ops;
    assert (ops + [last])[|ops| + 1..] == [];
  }

  ghost predicate SomeLatched(s: Source, irq: nat, ops: seq<Op>) {
    exists k :: LatchedAt(s, irq, ops, k)
  }

  lemma SomeLatchedStep(s: Source, irq: nat, ops: seq<Op>, last: Op)
    ensures SomeLatched(s, irq, ops + [last])
            <==> (SomeLatched(s, irq, ops) && !Forgets(last, irq)) || (last == Arrives(irq) && s.AfterAll(irq, ops).on)
  {
    LatchedNow(s, irq, ops, last);
    if SomeLatched(s, irq, ops + [last]) {
      var k: nat :| LatchedAt(s, irq, ops + [last], k);
      if k < |ops| {
        LatchedLater(s, irq, ops, last, k);
      }
    }
    if SomeLatched(s, irq, ops) {
      var k: nat :| LatchedAt(s, irq, ops, k);
      LatchedLater(s, irq, ops, last, k);
    }
  }

  /** A request is pending at the end of a run exactly if it came while the source was turned on
      and nothing cleared it since: masking in between loses nothing, turning off loses all. */
  lemma {:induction false} PendingIff(s: Source, irq: nat, ops: seq<Op>)
    ensures s.AfterAll(irq, ops).pending <==> (s.pending && NeverForgets(ops, irq)) || SomeLatched(s, irq, ops)
    decreases |ops|
  {
    if ops != [] {
      var init, last := ops[..|ops| - 1], ops[|ops| - 1];
      assert ops == init + [last];
      PendingIff(s, irq, init);
      NeverForgetsLater(init, last, irq);
      SomeLatchedStep(s, irq, init, last);
    }
  }

  /** After turning a source off nothing is pending until it is turned on again, whatever arrives. */
  lemma {:induction false} TurnedOffStaysQuiet(s: Source, irq: nat, ops: seq<Op>)
    requires !s.on && !s.pending
    requires forall k :: 0 <= k < |ops| ==> ops[k] != TurnOn(irq)
    ensures !s.AfterAll(irq, ops).on && !s.AfterAll(irq, ops).pending
    decreases |ops|
  {
    if ops != [] {
      TurnedOffStaysQuiet(s, irq, ops[..|ops| - 1]);
    }
  }

  lemma {:induction false} StaysOn(s: Source, irq: nat, ops: seq<Op>)
    requires s.on && NeverForgets(ops, irq)
    ensures s.AfterAll(irq, ops).on
    decreases |ops|
  {
    if ops != [] {
      StaysOn(s, irq, ops[..|ops| - 1]);
    }
  }

  /** A request to a source that is on survives any masking before and after it, and is
      deliverable as soon as the source is unmasked. */
  lemma MaskedRequestSurvives(s: Source, irq: nat, a: seq<Op>, b: seq<Op>)
    requires s.on && NeverForgets(a, irq) && NeverForgets(b, irq)
    ensures s.AfterAll(irq, a + [Arrives(irq)] + b).pending
    ensures var end := s.AfterAll(irq, a + [Arrives(irq)] + b + [Enable(irq)]); end.pending && end.unmasked
  {
    var ops := a + [Arrives(irq)] + b;
    StaysOn(s, irq, a);
    assert ops[..|a|] == a && ops[|a| + 1..] == b;
    assert LatchedAt(s, irq, ops, |a|);
    PendingIff(s, irq, ops);
    assert (ops + [Enable(irq)])[..|ops|] == ops;
  }

  // ----- Vectors -----

  function VectorToSource(v: int): int {
    v - (if v < 0x20 then 0x18 else 0x40 - 8)
  }

  function SourceToVector(i: int): int {
    i + (if i < 8 then 0x18 else 0x40 - 8)
  }

  /** The two numberings invert each other on every source, and on exactly the vectors that stand for one. */
  lemma VectorsRoundTrip(i: int, v: int)
    ensures VectorToSource(SourceToVector(i)) == i
    ensures SourceToVector(VectorToSource(v)) == v <==> v < 0x20 || 0x40 <= v
  {
  }
}
