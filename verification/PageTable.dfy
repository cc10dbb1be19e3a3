/** The four-level x86-64 page-table tree of Model/asm/pgtable.h, pgalloc.h, pgtable_64.h and
    pgtable_types.h, kept in one memory of 64-bit words as the source keeps it: a directory
    entry is a physical address joined with flag bits, and a walk decodes it. The entry format
    is that of section 4.5 of the Intel SDM, volume 3A. */
module PageTable {
  import opened Options
  import opened Words

  type Word = x: Bits | |x| == 64 witness Zeros(64)

  // Flag bits, by position.
  const PRESENT := 0
  const RW := 1
  const USER := 2
  const ACCESSED := 5
  const DIRTY := 6
  const PSE := 7
  const PROTNONE := 8

  const TABLE_FLAGS: set<nat> := {PRESENT, RW, USER, ACCESSED, DIRTY}
  const KERNPG_FLAGS: set<nat> := {PRESENT, RW, ACCESSED, DIRTY}

  const PAGE_SIZE := 4096
  const PTRS_PER_TABLE := 512

  const ZERO: Word := Zeros(64)

  function Flag(bits: set<nat>): Word {
    Mask(64, bits)
  }

  /** What the source leaves to files outside it: the width of a physical address and the
      mapping between physical frames and the addresses at which the kernel sees them. */
  datatype Layout = Layout(physBits: nat, pa: nat -> Word, va: Word -> nat)

  // A page-aligned physical address that fits the physical mask.
  ghost predicate IsFrame(l: Layout, p: Word) {
    forall i :: 0 <= i < 64 && p[i] ==> 12 <= i < l.physBits
  }

  ghost predicate ValidLayout(l: Layout) {
    && 12 <= l.physBits <= 52
    && forall p: Word :: IsFrame(l, p) ==> l.va(p) % PAGE_SIZE == 0 && l.pa(l.va(p)) == p
  }

  // A page of kernel memory that may serve as a table.
  ghost predicate IsTablePage(l: Layout, t: nat) {
    IsFrame(l, l.pa(t)) && l.va(l.pa(t)) == t
  }

  // PTE_PFN_MASK; PTE_FLAGS_MASK is its complement.
  function PfnMask(l: Layout): Word {
    seq(64, i requires 0 <= i => 12 <= i < l.physBits)
  }

  function Flags(l: Layout, e: Word): Word {
    And(e, Not(PfnMask(l)))
  }

  // pgd_page_vaddr, pud_page_vaddr, pmd_page_vaddr
  function PageVaddr(l: Layout, e: Word): nat {
    l.va(And(e, PfnMask(l)))
  }

  // What the populate functions store.
  function DirectoryEntry(l: Layout, table: nat): Word {
    Or(l.pa(table), Flag(TABLE_FLAGS))
  }

  predicate PmdPresent(l: Layout, e: Word) {
    And(Flags(l, e), Flag({PRESENT, PROTNONE, PSE})) != ZERO
  }

  predicate PudPresent(l: Layout, e: Word) {
    And(Flags(l, e), Flag({PRESENT})) != ZERO
  }

  // pmd_bad and pgd_bad
  predicate PmdBad(l: Layout, e: Word) {
    And(Flags(l, e), Not(Flag({USER}))) != Flag(KERNPG_FLAGS)
  }

  predicate PudBad(l: Layout, e: Word) {
    And(Flags(l, e), Not(Or(Flag(KERNPG_FLAGS), Flag({USER})))) != ZERO
  }

  // Masking with flag positions below the frame leaves exactly those bits.
  lemma FlagBits(l: Layout, e: Word, bits: set<nat>)
    requires 12 <= l.physBits && forall i :: i in bits ==> i < 12
    ensures And(Flags(l, e), Flag(bits)) != ZERO <==> exists i :: i in bits && e[i]
  {
    var m := And(Flags(l, e), Flag(bits));
    assert forall i :: 0 <= i < 64 ==> m[i] == (i in bits && e[i]);
    if i :| i in bits && e[i] {
      assert m[i];
    } else {
      assert m == ZERO;
    }
  }

  /** A lowest-level directory entry is present if bit 0, 7 or 8 is up, the entries above it if bit 0 is. */
  lemma PresentFlags(l: Layout, e: Word)
    requires ValidLayout(l)
    ensures PmdPresent(l, e) <==> e[0] || e[7] || e[8]
    ensures PudPresent(l, e) <==> e[0]
  {
    FlagBits(l, e, {PRESENT, PROTNONE, PSE});
    FlagBits(l, e, {PRESENT});
  }

  /** The flag bits, the user bit apart, of an entry that is not bad are exactly 0, 1, 5 and 6; one
      level up they need only be among those. */
  lemma BadFlags(l: Layout, e: Word)
    requires ValidLayout(l)
    ensures !PmdBad(l, e) <==>
      forall i :: 0 <= i < 64 && !(12 <= i < l.physBits) && i != 2 ==> (e[i] <==> i in {0, 1, 5, 6})
    ensures !PudBad(l, e) <==>
      forall i :: 0 <= i < 64 && !(12 <= i < l.physBits) && e[i] ==> i in {0, 1, 2, 5, 6}
  {
    var pmd, pud := And(Flags(l, e), Not(Flag({USER}))), And(Flags(l, e), Not(Or(Flag(KERNPG_FLAGS), Flag({USER}))));
    assert forall i :: 0 <= i < 64 ==> pmd[i] == (e[i] && !(12 <= i < l.physBits) && i != 2);
    assert forall i :: 0 <= i < 64 ==> pud[i] == (e[i] && !(12 <= i < l.physBits) && i !in {0, 1, 2, 5, 6});
    assert forall i :: 0 <= i < 64 ==> Flag(KERNPG_FLAGS)[i] == (i in {0, 1, 5, 6});
    assert forall i :: 0 <= i < 64 ==> !ZERO[i];
  }

  /** The stored entry is the physical address of the table with bits 0, 1, 2, 5 and 6 up. */
  lemma EntryBits(l: Layout, table: nat, i: nat)
    requires ValidLayout(l) && IsTablePage(l, table) && i < 64
    ensures DirectoryEntry(l, table)[i] == if 12 <= i < l.physBits then l.pa(table)[i] else i in {0, 1, 2, 5, 6}
  {
  }

  lemma DecodesToTable(l: Layout, table: nat)
    requires ValidLayout(l) && IsTablePage(l, table)
    ensures DirectoryEntry(l, table) != ZERO && PageVaddr(l, DirectoryEntry(l, table)) == table
  {
    var e := DirectoryEntry(l, table);
    assert e[PRESENT];
    assert And(e, PfnMask(l)) == l.pa(table);
  }

  /** A populated entry is present and not bad at every level, and decodes to the table it was given. */
  lemma PopulatedEntry(l: Layout, table: nat)
    requires ValidLayout(l) && IsTablePage(l, table)
    ensures var e := DirectoryEntry(l, table);
      && PageVaddr(l, e) == table
      && e != ZERO
      && PmdPresent(l, e) && PudPresent(l, e)
      && !PmdBad(l, e) && !PudBad(l, e)
  {
    DecodesToTable(l, table);
    var e := DirectoryEntry(l, table);
    assert Flags(l, e) == Flag(TABLE_FLAGS);
    assert e[PRESENT];
    assert And(Flags(l, e), Flag({PRESENT, PROTNONE, PSE}))[PRESENT];
    assert And(Flags(l, e), Flag({PRESENT}))[PRESENT];
    assert And(Flags(l, e), Not(Flag({USER}))) == Flag(KERNPG_FLAGS);
    assert And(Flags(l, e), Not(Or(Flag(KERNPG_FLAGS), Flag({USER})))) == ZERO;
  }

  // ----- Indices -----

  /** The index taken at each level, lowest level first. */
  type Path = p: seq<nat> | |p| == 4 && forall i :: 0 <= i < 4 ==> p[i] < PTRS_PER_TABLE witness [0, 0, 0, 0]

  // pte_index, pmd_index, pud_index and pgd_index: shift, then keep nine bits.
  function PathOf(address: nat): Path {
    [(address / 0x1000) % PTRS_PER_TABLE,
     (address / 0x20_0000) % PTRS_PER_TABLE,
     (address / 0x4000_0000) % PTRS_PER_TABLE,
     (address / 0x80_0000_0000) % PTRS_PER_TABLE]
  }

  // Two paths take the same entries at this level and at all levels above it.
  predicate Meet(p: Path, q: Path, level: nat)
    requires 1 <= level <= 5
  {
    p[level - 1..] == q[level - 1..]
  }

  lemma MeetSplits(p: Path, q: Path, level: nat)
    requires 1 <= level <= 4
    ensures Meet(p, q, level) <==> p[level - 1] == q[level - 1] && Meet(p, q, level + 1)
  {
    assert p[level - 1..] == [p[level - 1]] + p[level..] && q[level - 1..] == [q[level - 1]] + q[level..];
    if Meet(p, q, level) {
      assert p[level..] == p[level - 1..][1..] && q[level..] == q[level - 1..][1..];
    }
  }

  // The page number a walk can see: the upper sixteen bits of an address take no part.
  function PageNumber(address: nat): nat {
    (address / 0x1000) % 0x10_0000_0000
  }

  lemma PageNumberOfPath(address: nat)
    ensures var p := PathOf(address);
      PageNumber(address) == p[0] + 0x200 * p[1] + 0x4_0000 * p[2] + 0x800_0000 * p[3]
  {
    var v := address / 0x1000;
    assert address / 0x20_0000 == v / 512;
    assert address / 0x4000_0000 == v / 512 / 512;
    assert address / 0x80_0000_0000 == v / 512 / 512 / 512;
  }

  lemma UniqueDigits(p: Path, q: Path)
    requires p[0] + 0x200 * p[1] + 0x4_0000 * p[2] + 0x800_0000 * p[3]
          == q[0] + 0x200 * q[1] + 0x4_0000 * q[2] + 0x800_0000 * q[3]
    ensures p == q
  {
    assert p[3] == q[3];
    assert p[2] == q[2];
    assert p[1] == q[1];
  }

  /** The four indices determine the page number and are determined by it. */
  lemma PathIsPageNumber(a: nat, b: nat)
    ensures PathOf(a) == PathOf(b) <==> PageNumber(a) == PageNumber(b)
  {
    PageNumberOfPath(a);
    PageNumberOfPath(b);
    if PageNumber(a) == PageNumber(b) {
      UniqueDigits(PathOf(a), PathOf(b));
    }
  }

  // ----- Memory -----

  // Byte address of entry `i` of a table: pointer arithmetic on eight-byte entries.
  function Slot(table: nat, i: nat): nat {
    table + 8 * i
  }

  function Load(mem: map<nat, Word>, at: nat): Word {
    if at in mem then mem[at] else ZERO
  }

  lemma SlotsApart(t: nat, i: nat, t': nat, i': nat)
    requires t % PAGE_SIZE == 0 && t' % PAGE_SIZE == 0
    requires i < PTRS_PER_TABLE && i' < PTRS_PER_TABLE
    ensures Slot(t, i) == Slot(t', i') <==> t == t' && i == i'
  {
  }

  // The place of a table in the tree: the indices that lead to it, its own parent's first.
  type Node = seq<nat>

  lemma LoadAfterStore(mem: map<nat, Word>, u: nat, j: nat, e: Word, t: nat, i: nat)
    requires t % PAGE_SIZE == 0 && u % PAGE_SIZE == 0 && i < PTRS_PER_TABLE && j < PTRS_PER_TABLE
    ensures Load(mem[Slot(u, j) := e], Slot(t, i)) == if t == u && i == j then e else Load(mem, Slot(t, i))
  {
    SlotsApart(t, i, u, j);
  }

  /** Memory, the root table, and the pages in use as tables with the place each serves at. */
  datatype Space = Space(mem: map<nat, Word>, root: nat, tables: map<nat, Node>)

  // The table of the given level on a path: pgd_offset, pud_offset, pmd_offset and
  // pte_offset_kernel, each after the check that the entry above is not none.
  function TableAt(l: Layout, s: Space, p: Path, level: nat): Option<nat>
    requires 1 <= level <= 4
    decreases 4 - level
  {
    if level == 4 then Some(s.root)
    else
      match TableAt(l, s, p, level + 1)
      case None => None
      case Some(parent) =>
        var e := Load(s.mem, Slot(parent, p[level]));
        if e == ZERO then None else Some(PageVaddr(l, e))
  }

  /** What a walk finds. */
  datatype View = NoPud | NoPmd | NoPte | Entry(value: Word)

  function Walk(l: Layout, s: Space, p: Path): View {
    if TableAt(l, s, p, 3).None? then NoPud
    else if TableAt(l, s, p, 2).None? then NoPmd
    else
      match TableAt(l, s, p, 1)
      case None => NoPte
      case Some(pte) => Entry(Load(s.mem, Slot(pte, p[0])))
  }

  // What a walk finds below an empty entry of the given level.
  function Missing(level: nat): View {
    match level case 4 => NoPud case 3 => NoPmd case 2 => NoPte case _ => Entry(ZERO)
  }

  // A walk that got this far passed the tables above.
  lemma TablesAbove(l: Layout, s: Space, q: Path, level: nat)
    requires 1 <= level <= 4 && TableAt(l, s, q, level).Some?
    ensures level <= 3 ==> TableAt(l, s, q, 3).Some?
    ensures level <= 2 ==> TableAt(l, s, q, 2).Some?
  {
  }

  // ----- Invariant -----

  // A non-empty entry of a table above the lowest level.
  ghost predicate IsDirectorySlot(s: Space, t: nat, i: nat) {
    t in s.tables && |s.tables[t]| < 3 && i < PTRS_PER_TABLE && Load(s.mem, Slot(t, i)) != ZERO
  }

  ghost predicate PointsDown(l: Layout, s: Space, t: nat, i: nat)
    requires t in s.tables
  {
    var child := PageVaddr(l, Load(s.mem, Slot(t, i)));
    child in s.tables && s.tables[child] == [i] + s.tables[t]
  }

  /** Every table is in its one place: the entries that lead to it are those of that place. */
  ghost predicate Inv(l: Layout, s: Space) {
    && s.root in s.tables && s.tables[s.root] == []
    && (forall t :: t in s.tables ==> t % PAGE_SIZE == 0)
    && (forall t, i :: IsDirectorySlot(s, t, i) ==> PointsDown(l, s, t, i))
  }

  lemma {:induction false} TablePlace(l: Layout, s: Space, p: Path, level: nat)
    requires Inv(l, s) && 1 <= level <= 4 && TableAt(l, s, p, level).Some?
    ensures var t := TableAt(l, s, p, level).value; t in s.tables && s.tables[t] == p[level..]
    decreases 4 - level
  {
    if level != 4 {
      TablePlace(l, s, p, level + 1);
      assert IsDirectorySlot(s, TableAt(l, s, p, level + 1).value, p[level]);
      assert p[level..] == [p[level]] + p[level + 1..];
    }
  }

  /** Walks that arrive at the same table took the same entries. */
  lemma OnePath(l: Layout, s: Space, p: Path, q: Path, level: nat)
    requires Inv(l, s) && 1 <= level <= 4
    requires TableAt(l, s, p, level).Some? && TableAt(l, s, p, level) == TableAt(l, s, q, level)
    ensures Meet(p, q, level + 1)
  {
    TablePlace(l, s, p, level);
    TablePlace(l, s, q, level);
  }

  lemma {:induction false} PathDecides(l: Layout, s: Space, p: Path, q: Path, level: nat)
    requires 1 <= level <= 4 && Meet(p, q, level + 1)
    ensures TableAt(l, s, p, level) == TableAt(l, s, q, level)
    decreases 4 - level
  {
    if level != 4 {
      MeetSplits(p, q, level + 1);
      PathDecides(l, s, p, q, level + 1);
    }
  }

  // ----- One store -----

  function Store(s: Space, at: nat, e: Word): Space {
    s.(mem := s.mem[at := e])
  }

  // A path uses the stored entry exactly if it meets the path it was stored for.
  lemma SlotHit(l: Layout, s: Space, p: Path, level: nat, q: Path, k: nat)
    requires Inv(l, s) && 1 <= level <= 4 && 1 <= k <= 4
    requires TableAt(l, s, p, level).Some? && TableAt(l, s, q, k).Some?
    ensures Slot(TableAt(l, s, p, level).value, p[level - 1]) == Slot(TableAt(l, s, q, k).value, q[k - 1])
            <==> k == level && Meet(p, q, level)
  {
    var t, u := TableAt(l, s, p, level).value, TableAt(l, s, q, k).value;
    TablePlace(l, s, p, level);
    TablePlace(l, s, q, k);
    SlotsApart(t, p[level - 1], u, q[k - 1]);
    MeetSplits(p, q, level);
    if Meet(p, q, level) {
      PathDecides(l, s, p, q, level);
    }
  }

  // A store leaves every table at or above its level, and every path that misses it.
  lemma {:induction false} StoreKeepsTables(l: Layout, s: Space, p: Path, level: nat, e: Word, q: Path, k: nat)
    requires Inv(l, s) && 1 <= level <= 4 && 1 <= k <= 4 && TableAt(l, s, p, level).Some?
    requires level <= k || !Meet(p, q, level)
    ensures TableAt(l, Store(s, Slot(TableAt(l, s, p, level).value, p[level - 1]), e), q, k) == TableAt(l, s, q, k)
    decreases 4 - k
  {
    if k != 4 {
      StoreKeepsTables(l, s, p, level, e, q, k + 1);
      if TableAt(l, s, q, k + 1).Some? {
        SlotHit(l, s, p, level, q, k + 1);
      }
    }
  }

  // A path that arrives at a page table ends in one of its entries.
  lemma WalkArrives(l: Layout, s: Space, q: Path)
    requires TableAt(l, s, q, 1).Some?
    ensures Walk(l, s, q) == Entry(Load(s.mem, Slot(TableAt(l, s, q, 1).value, q[0])))
  {
    TablesAbove(l, s, q, 1);
  }

  // A path that reaches an empty entry stops there.
  lemma WalkStops(l: Layout, s: Space, q: Path, level: nat)
    requires 1 <= level <= 4 && TableAt(l, s, q, level).Some?
    requires Load(s.mem, Slot(TableAt(l, s, q, level).value, q[level - 1])) == ZERO
    ensures Walk(l, s, q) == Missing(level)
  {
    TablesAbove(l, s, q, level);
  }

  // Walks that pass the same tables to the same entry find the same.
  lemma SameWalk(l: Layout, s: Space, s': Space, q: Path)
    requires TableAt(l, s', q, 3) == TableAt(l, s, q, 3)
    requires TableAt(l, s', q, 2) == TableAt(l, s, q, 2)
    requires TableAt(l, s', q, 1) == TableAt(l, s, q, 1)
    requires TableAt(l, s, q, 1).Some? ==>
      var slot := Slot(TableAt(l, s, q, 1).value, q[0]); Load(s'.mem, slot) == Load(s.mem, slot)
    ensures Walk(l, s', q) == Walk(l, s, q)
  {
  }

  // The tables do not depend on the bookkeeping of pages in use.
  lemma {:induction false} BookkeepingIsInvisible(l: Layout, s: Space, tables: map<nat, Node>, q: Path, k: nat)
    requires 1 <= k <= 4
    ensures TableAt(l, s.(tables := tables), q, k) == TableAt(l, s, q, k)
    decreases 4 - k
  {
    if k != 4 {
      BookkeepingIsInvisible(l, s, tables, q, k + 1);
    }
  }

  lemma WalkIgnoresBookkeeping(l: Layout, s: Space, tables: map<nat, Node>, q: Path)
    ensures Walk(l, s.(tables := tables), q) == Walk(l, s, q)
  {
    BookkeepingIsInvisible(l, s, tables, q, 3);
    BookkeepingIsInvisible(l, s, tables, q, 2);
    BookkeepingIsInvisible(l, s, tables, q, 1);
    SameWalk(l, s, s.(tables := tables), q);
  }

  lemma StoreMissesSlot(l: Layout, s: Space, p: Path, level: nat, e: Word, q: Path)
    requires Inv(l, s) && 1 <= level <= 4 && TableAt(l, s, p, level).Some? && TableAt(l, s, q, 1).Some?
    requires !Meet(p, q, level)
    ensures var slot := Slot(TableAt(l, s, q, 1).value, q[0]);
      Load(Store(s, Slot(TableAt(l, s, p, level).value, p[level - 1]), e).mem, slot) == Load(s.mem, slot)
  {
    SlotHit(l, s, p, level, q, 1);
  }

  // A store changes nothing for the pages that do not use its entry.
  lemma StoreMissesPage(l: Layout, s: Space, p: Path, level: nat, e: Word, q: Path)
    requires Inv(l, s) && 1 <= level <= 4 && TableAt(l, s, p, level).Some? && !Meet(p, q, level)
    ensures Walk(l, Store(s, Slot(TableAt(l, s, p, level).value, p[level - 1]), e), q) == Walk(l, s, q)
  {
    StoreKeepsTables(l, s, p, level, e, q, 3);
    StoreKeepsTables(l, s, p, level, e, q, 2);
    StoreKeepsTables(l, s, p, level, e, q, 1);
    if TableAt(l, s, q, 1).Some? {
      StoreMissesSlot(l, s, p, level, e, q);
    }
    SameWalk(l, s, Store(s, Slot(TableAt(l, s, p, level).value, p[level - 1]), e), q);
  }

  // ----- Operations -----

  /** One store into the tree, at the entry of the given level on a path. Levels count from the
      page table (1) to the page directory (4). */
  datatype Op =
    | Populate(level: nat, path: Path, table: nat)   // pmd_populate, pud_populate, pgd_populate
    | Clear(level: nat, path: Path)                  // pte_clear, pmd_clear, pud_clear, pgd_clear
    | SetPte(path: Path, pte: Word)

  function Level(op: Op): nat {
    if op.SetPte? then 1 else op.level
  }

  ghost predicate Zeroed(s: Space, table: nat) {
    forall i :: 0 <= i < PTRS_PER_TABLE ==> Load(s.mem, Slot(table, i)) == ZERO
  }

  // Not the root, and no directory entry leads to it: never used, or taken out of the tree.
  ghost predicate Detached(l: Layout, s: Space, page: nat) {
    page != s.root &&
    forall t, i :: IsDirectorySlot(s, t, i) ==> PageVaddr(l, Load(s.mem, Slot(t, i))) != page
  }

  /** The entry to be written exists, and a new table is a zeroed page outside the tree. */
  ghost predicate Enabled(l: Layout, s: Space, op: Op) {
    && 1 <= Level(op) <= 4
    && TableAt(l, s, op.path, Level(op)).Some?
    && (op.Populate? ==>
          2 <= op.level && IsTablePage(l, op.table) && Detached(l, s, op.table) && Zeroed(s, op.table))
  }

  ghost function Target(l: Layout, s: Space, op: Op): nat
    requires Enabled(l, s, op)
  {
    Slot(TableAt(l, s, op.path, Level(op)).value, op.path[Level(op) - 1])
  }

  function Stored(l: Layout, op: Op): Word {
    match op
    case Populate(_, _, table) => DirectoryEntry(l, table)
    case Clear(_, _) => ZERO
    case SetPte(_, pte) => pte
  }

  ghost function Apply(l: Layout, s: Space, op: Op): Space
    requires Enabled(l, s, op)
  {
    Space(s.mem[Target(l, s, op) := Stored(l, op)],
          s.root,
          if op.Populate? then s.tables[op.table := op.path[op.level - 1..]] else s.tables)
  }

  /** The reference meaning of an operation, one page at a time and with no tables in it. */
  function Effect(op: Op, q: Path, before: View): View
    requires 1 <= Level(op) <= 4
  {
    if !Meet(op.path, q, Level(op)) then before
    else
      match op
      case Populate(level, _, _) => Missing(level - 1)
      case Clear(level, _) => Missing(level)
      case SetPte(_, pte) => Entry(pte)
  }

  lemma ApplyKeepsTables(l: Layout, s: Space, op: Op, q: Path, k: nat)
    requires Inv(l, s) && Enabled(l, s, op) && 1 <= k <= 4
    requires Level(op) <= k || !Meet(op.path, q, Level(op))
    ensures TableAt(l, Apply(l, s, op), q, k) == TableAt(l, s, q, k)
  {
    StoreKeepsTables(l, s, op.path, Level(op), Stored(l, op), q, k);
    BookkeepingIsInvisible(l, Store(s, Target(l, s, op), Stored(l, op)), Apply(l, s, op).tables, q, k);
  }

  // No path comes through a detached page.
  lemma DetachedIsOffPath(l: Layout, s: Space, page: nat, q: Path, k: nat)
    requires Inv(l, s) && Detached(l, s, page) && 1 <= k <= 4
    ensures TableAt(l, s, q, k) != Some(page)
  {
    if k != 4 && TableAt(l, s, q, k).Some? {
      TablePlace(l, s, q, k + 1);
      assert IsDirectorySlot(s, TableAt(l, s, q, k + 1).value, q[k]);
    }
  }

  lemma TargetTable(l: Layout, s: Space, op: Op)
    requires Inv(l, s) && Enabled(l, s, op)
    ensures var u := TableAt(l, s, op.path, Level(op)).value;
      u in s.tables && s.tables[u] == op.path[Level(op)..] && u % PAGE_SIZE == 0
  {
    TablePlace(l, s, op.path, Level(op));
  }

  lemma LoadAfter(l: Layout, s: Space, op: Op, t: nat, i: nat)
    requires Inv(l, s) && Enabled(l, s, op) && t % PAGE_SIZE == 0 && i < PTRS_PER_TABLE
    ensures Load(Apply(l, s, op).mem, Slot(t, i))
         == if Some(t) == TableAt(l, s, op.path, Level(op)) && i == op.path[Level(op) - 1] then Stored(l, op)
            else Load(s.mem, Slot(t, i))
  {
    TargetTable(l, s, op);
    LoadAfterStore(s.mem, TableAt(l, s, op.path, Level(op)).value, op.path[Level(op) - 1], Stored(l, op), t, i);
  }

  // The page a populate operation brings in stays empty.
  lemma NewTableIsEmpty(l: Layout, s: Space, op: Op, i: nat)
    requires ValidLayout(l) && Inv(l, s) && Enabled(l, s, op) && op.Populate? && i < PTRS_PER_TABLE
    ensures op.table % PAGE_SIZE == 0
    ensures TableAt(l, s, op.path, op.level) != Some(op.table)
    ensures Load(Apply(l, s, op).mem, Slot(op.table, i)) == ZERO
  {
    DetachedIsOffPath(l, s, op.table, op.path, op.level);
    LoadAfter(l, s, op, op.table, i);
  }

  // The entry just stored, seen as a directory entry.
  ghost predicate JustStored(l: Layout, s: Space, op: Op, t: nat, i: nat) {
    && op.Populate? && 1 <= op.level <= 4
    && Some(t) == TableAt(l, s, op.path, op.level) && i == op.path[op.level - 1]
    && t in s.tables && s.tables[t] == op.path[op.level..]
  }

  // A directory entry of the new state is an old one or the one just stored.
  lemma NewDirectorySlot(l: Layout, s: Space, op: Op, t: nat, i: nat)
    requires ValidLayout(l) && Inv(l, s) && Enabled(l, s, op)
    requires IsDirectorySlot(Apply(l, s, op), t, i)
    ensures op.Populate? ==> t != op.table
    ensures if JustStored(l, s, op, t, i) then Load(Apply(l, s, op).mem, Slot(t, i)) == Stored(l, op)
            else IsDirectorySlot(s, t, i) && Load(Apply(l, s, op).mem, Slot(t, i)) == Load(s.mem, Slot(t, i))
  {
    if op.Populate? {
      NewTableIsEmpty(l, s, op, i);
    }
    TargetTable(l, s, op);
    LoadAfter(l, s, op, t, i);
  }

  lemma NewSlotPointsDown(l: Layout, s: Space, op: Op, t: nat, i: nat)
    requires ValidLayout(l) && Inv(l, s) && Enabled(l, s, op)
    requires IsDirectorySlot(Apply(l, s, op), t, i)
    ensures PointsDown(l, Apply(l, s, op), t, i)
  {
    NewDirectorySlot(l, s, op, t, i);
    if JustStored(l, s, op, t, i) {
      DecodesToTable(l, op.table);
      assert op.path[op.level - 1..] == [i] + op.path[op.level..];
    } else {
      assert PointsDown(l, s, t, i);
    }
  }

  lemma StepKeepsInv(l: Layout, s: Space, op: Op)
    requires ValidLayout(l) && Inv(l, s) && Enabled(l, s, op)
    ensures Inv(l, Apply(l, s, op))
  {
    var s' := Apply(l, s, op);
    if op.Populate? {
      NewTableIsEmpty(l, s, op, 0);
    }
    forall t, i | IsDirectorySlot(s', t, i)
      ensures PointsDown(l, s', t, i)
    {
      NewSlotPointsDown(l, s, op, t, i);
    }
  }

  /** No two directory entries lead to the same table. */
  ghost predicate OneParent(l: Layout, s: Space) {
    forall t, i, t', i' ::
      && IsDirectorySlot(s, t, i) && IsDirectorySlot(s, t', i')
      && PageVaddr(l, Load(s.mem, Slot(t, i))) == PageVaddr(l, Load(s.mem, Slot(t', i')))
      ==> t == t' && i == i'
  }

  // Where an entry of the new state leads: to the new table, or where it led before, which was elsewhere.
  lemma NewSlotLeads(l: Layout, s: Space, op: Op, t: nat, i: nat)
    requires ValidLayout(l) && Inv(l, s) && Enabled(l, s, op)
    requires IsDirectorySlot(Apply(l, s, op), t, i)
    ensures var child := PageVaddr(l, Load(Apply(l, s, op).mem, Slot(t, i)));
      if JustStored(l, s, op, t, i) then child == op.table
      else
        && IsDirectorySlot(s, t, i) && child == PageVaddr(l, Load(s.mem, Slot(t, i)))
        && (op.Populate? ==> child != op.table)
  {
    NewDirectorySlot(l, s, op, t, i);
    if JustStored(l, s, op, t, i) {
      DecodesToTable(l, op.table);
    }
  }

  lemma StepKeepsOneParent(l: Layout, s: Space, op: Op)
    requires ValidLayout(l) && Inv(l, s) && OneParent(l, s) && Enabled(l, s, op)
    ensures OneParent(l, Apply(l, s, op))
  {
    var s' := Apply(l, s, op);
    forall t, i, t', i' | IsDirectorySlot(s', t, i) && IsDirectorySlot(s', t', i')
      && PageVaddr(l, Load(s'.mem, Slot(t, i))) == PageVaddr(l, Load(s'.mem, Slot(t', i')))
      ensures t == t' && i == i'
    {
      NewSlotLeads(l, s, op, t, i);
      NewSlotLeads(l, s, op, t', i');
    }
  }

  // On a path that meets the operation, the entry just stored decides what lies below.
  lemma BelowTheStore(l: Layout, s: Space, op: Op, q: Path)
    requires Inv(l, s) && Enabled(l, s, op) && Meet(op.path, q, Level(op))
    ensures TableAt(l, Apply(l, s, op), q, Level(op)) == TableAt(l, s, op.path, Level(op))
    ensures var t := TableAt(l, s, op.path, Level(op)).value;
      Load(Apply(l, s, op).mem, Slot(t, q[Level(op) - 1])) == Stored(l, op)
  {
    MeetSplits(op.path, q, Level(op));
    ApplyKeepsTables(l, s, op, q, Level(op));
    PathDecides(l, s, op.path, q, Level(op));
  }

  lemma MissedPage(l: Layout, s: Space, op: Op, q: Path)
    requires Inv(l, s) && Enabled(l, s, op) && !Meet(op.path, q, Level(op))
    ensures Walk(l, Apply(l, s, op), q) == Walk(l, s, q)
  {
    var stored := Store(s, Target(l, s, op), Stored(l, op));
    StoreMissesPage(l, s, op.path, Level(op), Stored(l, op), q);
    WalkIgnoresBookkeeping(l, stored, Apply(l, s, op).tables, q);
  }

  lemma PopulatedPage(l: Layout, s: Space, op: Op, q: Path)
    requires ValidLayout(l) && Inv(l, s) && Enabled(l, s, op) && op.Populate? && Meet(op.path, q, op.level)
    ensures Walk(l, Apply(l, s, op), q) == Missing(op.level - 1)
  {
    BelowTheStore(l, s, op, q);
    DecodesToTable(l, op.table);
    NewTableIsEmpty(l, s, op, q[op.level - 2]);
    WalkStops(l, Apply(l, s, op), q, op.level - 1);
  }

  lemma ClearedPage(l: Layout, s: Space, op: Op, q: Path)
    requires Inv(l, s) && Enabled(l, s, op) && op.Clear? && Meet(op.path, q, op.level)
    ensures Walk(l, Apply(l, s, op), q) == Missing(op.level)
  {
    BelowTheStore(l, s, op, q);
    WalkStops(l, Apply(l, s, op), q, op.level);
  }

  lemma SetPage(l: Layout, s: Space, op: Op, q: Path)
    requires Inv(l, s) && Enabled(l, s, op) && op.SetPte? && Meet(op.path, q, 1)
    ensures Walk(l, Apply(l, s, op), q) == Entry(op.pte)
  {
    BelowTheStore(l, s, op, q);
    WalkArrives(l, Apply(l, s, op), q);
  }

  /** One operation on the tree has the reference effect on every page. */
  lemma StepRefines(l: Layout, s: Space, op: Op, q: Path)
    requires ValidLayout(l) && Inv(l, s) && Enabled(l, s, op)
    ensures Walk(l, Apply(l, s, op), q) == Effect(op, q, Walk(l, s, q))
  {
    if !Meet(op.path, q, Level(op)) {
      MissedPage(l, s, op, q);
    } else {
      match op
      case Populate(_, _, _) => PopulatedPage(l, s, op, q);
      case Clear(_, _) => ClearedPage(l, s, op, q);
      case SetPte(_, _) => SetPage(l, s, op, q);
    }
  }

  // ----- Reusing pages -----

  // The memory after the allocator has zeroed a page.
  ghost function ZeroPage(s: Space, page: nat): Space {
    s.(mem := map at | at in s.mem && !(page <= at < page + PAGE_SIZE) :: s.mem[at])
  }

  lemma LoadAfterZero(s: Space, page: nat, t: nat, i: nat)
    requires page % PAGE_SIZE == 0 && t % PAGE_SIZE == 0 && i < PTRS_PER_TABLE
    ensures Load(ZeroPage(s, page).mem, Slot(t, i)) == if t == page then ZERO else Load(s.mem, Slot(t, i))
  {
    assert page <= Slot(t, i) < page + PAGE_SIZE <==> t == page;
  }

  lemma ZeroKeepsSlot(l: Layout, s: Space, page: nat, q: Path, k: nat)
    requires Inv(l, s) && Detached(l, s, page) && page % PAGE_SIZE == 0 && 1 <= k <= 4
    ensures TableAt(l, s, q, k).Some? ==>
      var slot := Slot(TableAt(l, s, q, k).value, q[k - 1]); Load(ZeroPage(s, page).mem, slot) == Load(s.mem, slot)
  {
    if TableAt(l, s, q, k).Some? {
      DetachedIsOffPath(l, s, page, q, k);
      TablePlace(l, s, q, k);
      LoadAfterZero(s, page, TableAt(l, s, q, k).value, q[k - 1]);
    }
  }

  lemma {:induction false} ZeroKeepsTables(l: Layout, s: Space, page: nat, q: Path, k: nat)
    requires Inv(l, s) && Detached(l, s, page) && page % PAGE_SIZE == 0 && 1 <= k <= 4
    ensures TableAt(l, ZeroPage(s, page), q, k) == TableAt(l, s, q, k)
    decreases 4 - k
  {
    if k != 4 {
      ZeroKeepsTables(l, s, page, q, k + 1);
      ZeroKeepsSlot(l, s, page, q, k + 1);
    }
  }

  /** Zeroing a page outside the tree changes no walk. */
  lemma ZeroIsInvisible(l: Layout, s: Space, page: nat, q: Path)
    requires Inv(l, s) && Detached(l, s, page) && page % PAGE_SIZE == 0
    ensures Walk(l, ZeroPage(s, page), q) == Walk(l, s, q)
  {
    ZeroKeepsTables(l, s, page, q, 3);
    ZeroKeepsTables(l, s, page, q, 2);
    ZeroKeepsTables(l, s, page, q, 1);
    ZeroKeepsSlot(l, s, page, q, 1);
    SameWalk(l, s, ZeroPage(s, page), q);
  }

  lemma ZeroKeepsInv(l: Layout, s: Space, page: nat)
    requires Inv(l, s) && Detached(l, s, page) && page % PAGE_SIZE == 0
    ensures Inv(l, ZeroPage(s, page))
    ensures OneParent(l, s) ==> OneParent(l, ZeroPage(s, page))
  {
    var s' := ZeroPage(s, page);
    forall t, i | IsDirectorySlot(s', t, i)
      ensures IsDirectorySlot(s, t, i) && Load(s'.mem, Slot(t, i)) == Load(s.mem, Slot(t, i))
    {
      LoadAfterZero(s, page, t, i);
    }
    forall t, i | IsDirectorySlot(s', t, i)
      ensures PointsDown(l, s', t, i)
    {
      assert PointsDown(l, s, t, i);
    }
  }

  // ----- Whole runs -----

  /** A store into the tree, or the allocator zeroing a page that is not part of it. */
  datatype Event = Do(op: Op) | Zero(page: nat)

  ghost predicate Allowed(l: Layout, s: Space, e: Event) {
    match e
    case Do(op) => Enabled(l, s, op)
    case Zero(page) => Detached(l, s, page) && page % PAGE_SIZE == 0
  }

  ghost function After(l: Layout, s: Space, e: Event): Space
    requires Allowed(l, s, e)
  {
    match e
    case Do(op) => Apply(l, s, op)
    case Zero(page) => ZeroPage(s, page)
  }

  predicate WellLevelled(e: Event) {
    e.Do? ==> 1 <= Level(e.op) <= 4
  }

  // The operation stores into an entry the path uses.
  predicate Touches(e: Event, q: Path)
    requires WellLevelled(e)
  {
    e.Do? && Meet(e.op.path, q, Level(e.op))
  }

  lemma EventKeepsInv(l: Layout, s: Space, e: Event)
    requires ValidLayout(l) && Inv(l, s) && OneParent(l, s) && Allowed(l, s, e)
    ensures Inv(l, After(l, s, e)) && OneParent(l, After(l, s, e))
  {
    match e
    case Do(op) =>
      StepKeepsInv(l, s, op);
      StepKeepsOneParent(l, s, op);
    case Zero(page) => ZeroKeepsInv(l, s, page);
  }

  lemma EventRefines(l: Layout, s: Space, e: Event, q: Path)
    requires ValidLayout(l) && Inv(l, s) && Allowed(l, s, e)
    ensures Walk(l, After(l, s, e), q) == if e.Do? then Effect(e.op, q, Walk(l, s, q)) else Walk(l, s, q)
  {
    match e
    case Do(op) => StepRefines(l, s, op, q);
    case Zero(page) => ZeroIsInvisible(l, s, page, q);
  }

  function EmptySpace(root: nat): Space {
    Space(map[], root, map[root := []])
  }

  ghost function Run(l: Layout, s: Space, events: seq<Event>): Option<Space>
    decreases |events|
  {
    if events == [] then Some(s)
    else
      match Run(l, s, events[..|events| - 1])
      case None => None
      case Some(mid) =>
        var e := events[|events| - 1];
        if Allowed(l, mid, e) then Some(After(l, mid, e)) else None
  }

  /** The reference run: what page `q` maps to, from the stores alone. */
  ghost function Reference(events: seq<Event>, q: Path): View
    requires forall j :: 0 <= j < |events| ==> WellLevelled(events[j])
    decreases |events|
  {
    if events == [] then NoPud
    else
      var before := Reference(events[..|events| - 1], q);
      var e := events[|events| - 1];
      assert WellLevelled(e);
      if e.Do? then Effect(e.op, q, before) else before
  }

  lemma {:induction false} RunKeepsInv(l: Layout, root: nat, events: seq<Event>)
    requires ValidLayout(l) && root % PAGE_SIZE == 0
    requires Run(l, EmptySpace(root), events).Some?
    ensures var s := Run(l, EmptySpace(root), events).value; Inv(l, s) && OneParent(l, s)
    ensures forall j :: 0 <= j < |events| ==> WellLevelled(events[j])
    decreases |events|
  {
    if events != [] {
      var init, e := events[..|events| - 1], events[|events| - 1];
      RunKeepsInv(l, root, init);
      EventKeepsInv(l, Run(l, EmptySpace(root), init).value, e);
    }
  }

  lemma {:induction false} RunRefinesAt(l: Layout, root: nat, events: seq<Event>, q: Path)
    requires ValidLayout(l) && root % PAGE_SIZE == 0
    requires Run(l, EmptySpace(root), events).Some?
    requires forall j :: 0 <= j < |events| ==> WellLevelled(events[j])
    ensures Walk(l, Run(l, EmptySpace(root), events).value, q) == Reference(events, q)
    decreases |events|
  {
    if events != [] {
      var init := events[..|events| - 1];
      RunRefinesAt(l, root, init, q);
      RunKeepsInv(l, root, init);
      EventRefines(l, Run(l, EmptySpace(root), init).value, events[|events| - 1], q);
    }
  }

  /** A tree grown from an empty root by any sequence of stores, with table pages taken out of it,
      zeroed and used again anywhere, behaves as the plain map. */
  lemma RunRefines(l: Layout, root: nat, events: seq<Event>)
    requires ValidLayout(l) && root % PAGE_SIZE == 0
    requires Run(l, EmptySpace(root), events).Some?
    ensures var s := Run(l, EmptySpace(root), events).value; Inv(l, s) && OneParent(l, s)
    ensures forall j :: 0 <= j < |events| ==> WellLevelled(events[j])
    ensures forall q: Path :: Walk(l, Run(l, EmptySpace(root), events).value, q) == Reference(events, q)
  {
    RunKeepsInv(l, root, events);
    forall q: Path
      ensures Walk(l, Run(l, EmptySpace(root), events).value, q) == Reference(events, q)
    {
      RunRefinesAt(l, root, events, q);
    }
  }

  lemma {:induction false} LastSetInReference(events: seq<Event>, i: nat, q: Path)
    requires forall j :: 0 <= j < |events| ==> WellLevelled(events[j])
    requires i < |events| && events[i].Do? && events[i].op.SetPte? && events[i].op.path == q
    requires forall j :: i < j < |events| ==> !Touches(events[j], q)
    ensures Reference(events, q) == Entry(events[i].op.pte)
    decreases |events|
  {
    if i < |events| - 1 {
      LastSetInReference(events[..|events| - 1], i, q);
      assert !Touches(events[|events| - 1], q);
    }
  }

  /** The walk of an address returns the last entry set for its page, if nothing after that
      stored into an entry on its path. */
  lemma LastSetWins(l: Layout, root: nat, events: seq<Event>, i: nat, a: nat, b: nat)
    requires ValidLayout(l) && root % PAGE_SIZE == 0 && Run(l, EmptySpace(root), events).Some?
    requires forall j :: 0 <= j < |events| ==> WellLevelled(events[j])
    requires i < |events| && events[i].Do? && events[i].op.SetPte? && events[i].op.path == PathOf(a)
    requires PageNumber(a) == PageNumber(b)
    requires forall j :: i < j < |events| ==> !Touches(events[j], PathOf(b))
    ensures Walk(l, Run(l, EmptySpace(root), events).value, PathOf(b)) == Entry(events[i].op.pte)
  {
    RunRefinesAt(l, root, events, PathOf(b));
    PathIsPageNumber(a, b);
    LastSetInReference(events, i, PathOf(b));
  }
}
