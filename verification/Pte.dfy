/** Page-table entries as values: changing protection, and the swap entries a non-present
    entry may hold (Model/asm/pgtable.h, pgtable_64.h, pgtable_types.h). */
module Pte {
  import opened Words
  import opened PageTable

  const PWT := 3
  const PCD := 4
  const PAT := 7
  const SPECIAL := 9
  const SOFT_DIRTY := 11
  const PAT_LARGE := 12

  function SetFlags(pte: Word, set_: Word): Word {
    Or(pte, set_)
  }

  function ClearFlags(pte: Word, clear: Word): Word {
    And(pte, Not(clear))
  }

  predicate Present(l: Layout, pte: Word) {
    And(Flags(l, pte), Flag({PRESENT, PROTNONE})) != ZERO
  }

  /** A page is present if either of two bits is up. */
  lemma PresentBits(l: Layout, pte: Word)
    requires ValidLayout(l)
    ensures Present(l, pte) <==> pte[0] || pte[8]
  {
    FlagBits(l, pte, {PRESENT, PROTNONE});
  }

  // _PAGE_CHG_MASK with CONFIG_MEM_SOFT_DIRTY: the bits pte_modify leaves alone.
  function ChangeMask(l: Layout): Word {
    Or(PfnMask(l), Flag({PCD, PWT, SPECIAL, ACCESSED, DIRTY, SOFT_DIRTY}))
  }

  function MassagePgprot(prot: Word, supported: Word): Word {
    if And(prot, Flag({PRESENT})) != ZERO then And(prot, supported) else prot
  }

  function Modify(l: Layout, pte: Word, newprot: Word, supported: Word): Word {
    Or(And(pte, ChangeMask(l)), And(MassagePgprot(newprot, supported), Not(ChangeMask(l))))
  }

  /** Bit by bit: the frame, the cache bits 3 and 4, the accessed and dirty bits 5 and 6, the special
      bit 9 and the soft-dirty bit 11 stay, and every other bit is the new protection's, as far as
      it is supported if the new protection is that of a present page. */
  lemma ModifyBits(l: Layout, pte: Word, newprot: Word, supported: Word, i: nat)
    requires ValidLayout(l) && i < 64
    ensures Modify(l, pte, newprot, supported)[i]
         == if 12 <= i < l.physBits || i in {3, 4, 5, 6, 9, 11} then pte[i]
            else newprot[i] && (newprot[0] ==> supported[i])
  {
    var present := And(newprot, Flag({PRESENT}));
    assert forall k :: 0 <= k < 64 ==> present[k] == (k == 0 && newprot[0]);
    assert newprot[0] ==> present[0];
    assert !newprot[0] ==> present == ZERO;
  }

  /** A second change of protection makes the first one disappear, and none of them moves the frame. */
  lemma ModifyAbsorbs(l: Layout, pte: Word, first: Word, second: Word, supported: Word)
    requires ValidLayout(l)
    ensures Modify(l, Modify(l, pte, first, supported), second, supported) == Modify(l, pte, second, supported)
    ensures PageVaddr(l, Modify(l, pte, first, supported)) == PageVaddr(l, pte)
    ensures And(Modify(l, pte, first, supported), ChangeMask(l)) == And(pte, ChangeMask(l))
  {
    var once := Modify(l, pte, first, supported);
    assert And(once, ChangeMask(l)) == And(pte, ChangeMask(l));
    assert And(once, PfnMask(l)) == And(pte, PfnMask(l));
  }

  // pgprot_4k_2_large and pgprot_large_2_4k move the PAT bit between its two places.
  function SmallToLarge(prot: Word): Word {
    Or(And(prot, Not(Flag({PAT, PAT_LARGE}))), Left(And(prot, Flag({PAT})), PAT_LARGE - PAT))
  }

  function LargeToSmall(prot: Word): Word {
    Or(And(prot, Not(Flag({PAT, PAT_LARGE}))), Right(And(prot, Flag({PAT_LARGE})), PAT_LARGE - PAT))
  }

  lemma MovesPatUp(prot: Word)
    ensures SmallToLarge(prot) == prot[12 := prot[7]][7 := false]
  {
    var moved := Left(And(prot, Flag({PAT})), PAT_LARGE - PAT);
    assert forall i :: 0 <= i < 64 ==> moved[i] == (i == 12 && prot[7]);
  }

  lemma MovesPatDown(prot: Word)
    ensures LargeToSmall(prot) == prot[7 := prot[12]][12 := false]
  {
    var moved := Right(And(prot, Flag({PAT_LARGE})), PAT_LARGE - PAT);
    assert forall i :: 0 <= i < 64 ==> moved[i] == (i == 7 && prot[12]);
  }

  /** The trip to a large page and back is lossless exactly when the large-page PAT bit was clear. */
  lemma PatRoundTrip(prot: Word)
    ensures LargeToSmall(SmallToLarge(prot)) == prot <==> !prot[12]
    ensures SmallToLarge(LargeToSmall(prot)) == prot <==> !prot[7]
  {
    var large, small := SmallToLarge(prot), LargeToSmall(prot);
    MovesPatUp(prot);
    MovesPatDown(prot);
    MovesPatDown(large);
    MovesPatUp(small);
    if !prot[PAT_LARGE] {
      assert LargeToSmall(large) == prot;
    }
    if !prot[PAT] {
      assert SmallToLarge(small) == prot;
    }
  }

  // ----- Swap entries -----

  const SWP_TYPE_BITS := 5
  const SWP_OFFSET_SHIFT := PROTNONE + 1

  function SwpEntry(type_: Word, offset: Word): Word {
    Or(Left(type_, PRESENT + 1), Left(offset, SWP_OFFSET_SHIFT))
  }

  /** The type starts at bit 1 and the offset at bit 9. */
  lemma SwpEntryBits(type_: Word, offset: Word, i: nat)
    requires i < 64
    ensures SwpEntry(type_, offset)[i] == ((1 <= i && type_[i - 1]) || (9 <= i && offset[i - 9]))
  {
  }

  function SwpType(e: Word): Word {
    And(Right(e, PRESENT + 1), Flag({0, 1, 2, 3, 4}))
  }

  function SwpOffset(e: Word): Word {
    Right(e, SWP_OFFSET_SHIFT)
  }

  // The word has no bit at or above position `n`.
  ghost predicate Below(x: Word, n: nat) {
    forall i :: n <= i < 64 ==> !x[i]
  }

  lemma SwpTypeBits(e: Word, i: nat)
    requires i < 64
    ensures SwpType(e)[i] == (i < SWP_TYPE_BITS && e[i + 1])
  {
  }

  /** A swap entry gives back what was packed into it exactly when both parts fit. */
  lemma SwapRoundTrip(type_: Word, offset: Word)
    ensures SwpType(SwpEntry(type_, offset)) == type_ && SwpOffset(SwpEntry(type_, offset)) == offset
            <==> Below(type_, 5) && Below(offset, 55)
  {
    var e := SwpEntry(type_, offset);
    forall i | 0 <= i < 64
      ensures SwpType(e)[i] == (i < SWP_TYPE_BITS && type_[i])
    {
      SwpTypeBits(e, i);
    }
    if Below(type_, SWP_TYPE_BITS) && Below(offset, 64 - SWP_OFFSET_SHIFT) {
      assert SwpType(e) == type_;
      forall i | 0 <= i < 64
        ensures SwpOffset(e)[i] == offset[i]
      {
      }
    }
    if SwpOffset(e) == offset {
      assert forall i :: 64 - SWP_OFFSET_SHIFT <= i < 64 ==> !SwpOffset(e)[i];
    }
  }

  /** It passes for a present page exactly if the type reaches the PROTNONE bit. */
  lemma SwapPresence(l: Layout, type_: Word, offset: Word)
    requires ValidLayout(l)
    ensures Present(l, SwpEntry(type_, offset)) <==> type_[7]
  {
    var e := SwpEntry(type_, offset);
    var m := And(Flags(l, e), Flag({PRESENT, PROTNONE}));
    assert forall i :: 0 <= i < 64 ==> m[i] == (i == PROTNONE && type_[PROTNONE - 1]);
    assert type_[PROTNONE - 1] ==> m[PROTNONE];
    assert !type_[PROTNONE - 1] ==> m == ZERO;
  }

  // pte_swp_mksoft_dirty (true) and pte_swp_clear_soft_dirty (false), in any order.
  function SoftDirty(pte: Word, marks: seq<bool>): Word
    decreases |marks|
  {
    if marks == [] then pte
    else
      var before := SoftDirty(pte, marks[..|marks| - 1]);
      if marks[|marks| - 1] then SetFlags(before, Flag({PSE})) else ClearFlags(before, Flag({PSE}))
  }

  lemma {:induction false} SoftDirtyIsOneBit(pte: Word, marks: seq<bool>)
    ensures SoftDirty(pte, marks) == if marks == [] then pte else pte[7 := marks[|marks| - 1]]
    decreases |marks|
  {
    if marks != [] {
      var init := marks[..|marks| - 1];
      SoftDirtyIsOneBit(pte, init);
      var before := SoftDirty(pte, init);
      assert SetFlags(before, Flag({PSE})) == before[PSE := true];
      assert ClearFlags(before, Flag({PSE})) == before[PSE := false];
    }
  }

  /** However often the soft-dirty mark is set and cleared, the swap entry still says the same. */
  lemma SoftDirtyKeepsSwapEntry(l: Layout, pte: Word, marks: seq<bool>)
    requires ValidLayout(l)
    ensures var after := SoftDirty(pte, marks);
      SwpType(after) == SwpType(pte) && SwpOffset(after) == SwpOffset(pte) && (Present(l, after) <==> Present(l, pte))
  {
    SoftDirtyIsOneBit(pte, marks);
    var after := SoftDirty(pte, marks);
    assert forall i :: 0 <= i < 64 && i != PSE ==> after[i] == pte[i];
    forall i | 0 <= i < 64
      ensures SwpType(after)[i] == SwpType(pte)[i]
    {
      SwpTypeBits(after, i);
      SwpTypeBits(pte, i);
    }
    assert SwpType(after) == SwpType(pte);
    assert SwpOffset(after) == SwpOffset(pte);
    assert And(Flags(l, after), Flag({PRESENT, PROTNONE})) == And(Flags(l, pte), Flag({PRESENT, PROTNONE}));
  }
}
