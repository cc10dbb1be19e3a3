/** The page-table operations as the source performs them: stores through entry pointers into
    one memory, each proved to have its reference effect on every address. */
module AddressSpaces {
  import opened Options
  import opened Words
  import opened PageTable

  // A step keeps the tree well formed and has the reference effect on all paths at once.
  lemma StepOnAllPaths(l: Layout, s: Space, op: Op)
    requires ValidLayout(l) && Inv(l, s) && Enabled(l, s, op)
    ensures Inv(l, Apply(l, s, op))
    ensures forall q: Path :: Walk(l, Apply(l, s, op), q) == Effect(op, q, Walk(l, s, q))
  {
    StepKeepsInv(l, s, op);
    forall q: Path
      ensures Walk(l, Apply(l, s, op), q) == Effect(op, q, Walk(l, s, q))
    {
      StepRefines(l, s, op, q);
    }
  }

  /** Writing a page's entry changes the look-up of that page and of no other. */
  lemma SetPteAtAddress(l: Layout, s: Space, address: nat, pte: Word, b: nat)
    requires ValidLayout(l) && Inv(l, s) && Enabled(l, s, SetPte(PathOf(address), pte))
    ensures Walk(l, Apply(l, s, SetPte(PathOf(address), pte)), PathOf(b))
         == if PageNumber(b) == PageNumber(address) then Entry(pte) else Walk(l, s, PathOf(b))
  {
    var p, q := PathOf(address), PathOf(b);
    StepRefines(l, s, SetPte(p, pte), q);
    PathIsPageNumber(address, b);
    assert p[0..] == p && q[0..] == q;
  }

  lemma SetPteOnAllAddresses(l: Layout, s: Space, address: nat, pte: Word)
    requires ValidLayout(l) && Inv(l, s) && Enabled(l, s, SetPte(PathOf(address), pte))
    ensures forall b: nat ::
      Walk(l, Apply(l, s, SetPte(PathOf(address), pte)), PathOf(b))
      == if PageNumber(b) == PageNumber(address) then Entry(pte) else Walk(l, s, PathOf(b))
  {
    forall b: nat
      ensures Walk(l, Apply(l, s, SetPte(PathOf(address), pte)), PathOf(b))
           == if PageNumber(b) == PageNumber(address) then Entry(pte) else Walk(l, s, PathOf(b))
    {
      SetPteAtAddress(l, s, address, pte, b);
    }
  }

  lemma ZeroOnAllPaths(l: Layout, s: Space, page: nat)
    requires Inv(l, s) && Detached(l, s, page) && page % PAGE_SIZE == 0
    ensures forall q: Path :: Walk(l, ZeroPage(s, page), q) == Walk(l, s, q)
  {
    forall q: Path
      ensures Walk(l, ZeroPage(s, page), q) == Walk(l, s, q)
    {
      ZeroIsInvisible(l, s, page, q);
    }
  }

  class AddressSpace {
    const layout: Layout
    const pgd: nat
    var mem: map<nat, Word>
    ghost var tables: map<nat, Node>

    ghost function Now(): Space
      reads this
    {
      Space(mem, pgd, tables)
    }

    ghost predicate Valid()
      reads this
    {
      ValidLayout(layout) && Inv(layout, Now())
    }

    // What the walk for an address finds.
    ghost function Lookup(address: nat): View
      reads this
    {
      Walk(layout, Now(), PathOf(address))
    }

    constructor (layout: Layout, pgd: nat)
      requires ValidLayout(layout) && pgd % PAGE_SIZE == 0
      ensures Valid() && this.layout == layout && this.pgd == pgd && Now() == EmptySpace(pgd)
      ensures forall address: nat :: Lookup(address) == NoPud
    {
      this.layout := layout;
      this.pgd := pgd;
      mem := map[];
      tables := map[pgd := []];
    }

    function PgdOffset(address: nat): nat {
      Slot(pgd, PathOf(address)[3])
    }

    function PudOffset(pgdp: nat, address: nat): nat
      reads this
    {
      Slot(PageVaddr(layout, Load(mem, pgdp)), PathOf(address)[2])
    }

    function PmdOffset(pudp: nat, address: nat): nat
      reads this
    {
      Slot(PageVaddr(layout, Load(mem, pudp)), PathOf(address)[1])
    }

    function PteOffset(pmdp: nat, address: nat): nat
      reads this
    {
      Slot(PageVaddr(layout, Load(mem, pmdp)), PathOf(address)[0])
    }

    /** The offset functions, each fed the result of the one above, point at the entries of the
        levels on the path of an address, down to the first level that is not there. */
    lemma OffsetsAreTargets(address: nat)
      ensures var p, s := PathOf(address), Now();
        var pgdp := PgdOffset(address);
        var pudp := PudOffset(pgdp, address);
        var pmdp := PmdOffset(pudp, address);
        var ptep := PteOffset(pmdp, address);
        && pgdp == Target(layout, s, Clear(4, p))
        && (TableAt(layout, s, p, 3).Some? <==> Load(mem, pgdp) != ZERO)
        && (TableAt(layout, s, p, 3).Some? ==> pudp == Target(layout, s, Clear(3, p)))
        && (TableAt(layout, s, p, 2).Some? <==> TableAt(layout, s, p, 3).Some? && Load(mem, pudp) != ZERO)
        && (TableAt(layout, s, p, 2).Some? ==> pmdp == Target(layout, s, Clear(2, p)))
        && (TableAt(layout, s, p, 1).Some? <==> TableAt(layout, s, p, 2).Some? && Load(mem, pmdp) != ZERO)
        && (TableAt(layout, s, p, 1).Some? ==> ptep == Target(layout, s, Clear(1, p)))
    {
      var p, s := PathOf(address), Now();
      assert TableAt(layout, s, p, 4) == Some(pgd);
      if TableAt(layout, s, p, 3).Some? {
        assert TableAt(layout, s, p, 3) == Some(PageVaddr(layout, Load(mem, Slot(pgd, p[3]))));
      }
    }

    // The four-step walk with its none checks.
    method WalkTo(address: nat) returns (view: View, ptep: nat)
      ensures view == Lookup(address)
      ensures view.Entry? ==>
        Enabled(layout, Now(), Clear(1, PathOf(address))) && ptep == Target(layout, Now(), Clear(1, PathOf(address)))
    {
      ptep := 0;
      var pgdp := PgdOffset(address);
      if Load(mem, pgdp) == ZERO {
        return NoPud, ptep;
      }
      var pudp := PudOffset(pgdp, address);
      if Load(mem, pudp) == ZERO {
        return NoPmd, ptep;
      }
      var pmdp := PmdOffset(pudp, address);
      if Load(mem, pmdp) == ZERO {
        return NoPte, ptep;
      }
      ptep := PteOffset(pmdp, address);
      view := Entry(Load(mem, ptep));
    }

    // pgd_populate, pud_populate and pmd_populate: `entry` points at the directory entry of
    // the given level on the path of `address`, and `table` is a zeroed page
    // outside the tree.
    method Populate(entry: nat, table: nat, ghost level: nat, ghost address: nat)
      requires Valid()
      requires Enabled(layout, Now(), Op.Populate(level, PathOf(address), table))
      requires entry == Target(layout, Now(), Op.Populate(level, PathOf(address), table))
      modifies this
      ensures Valid()
      ensures forall q: Path :: Walk(layout, Now(), q)
                == if Meet(PathOf(address), q, level) then Missing(level - 1) else old(Walk(layout, Now(), q))
      ensures mem == old(mem)[entry := DirectoryEntry(layout, table)] && PageVaddr(layout, mem[entry]) == table
      ensures PmdPresent(layout, mem[entry]) && !PmdBad(layout, mem[entry])
      ensures PudPresent(layout, mem[entry]) && !PudBad(layout, mem[entry])
    {
      StepOnAllPaths(layout, Now(), Op.Populate(level, PathOf(address), table));
      PopulatedEntry(layout, table);
      mem := mem[entry := DirectoryEntry(layout, table)];
      tables := tables[table := PathOf(address)[level - 1..]];
    }

    // get_zeroed_page, and alloc_pages with __GFP_ZERO: the allocator hands out a page that is
    // not in the tree and clears it.
    method GetZeroedPage(page: nat)
      requires Valid() && Detached(layout, Now(), page) && page % PAGE_SIZE == 0
      modifies this
      ensures Valid() && Zeroed(Now(), page) && Detached(layout, Now(), page)
      ensures forall q: Path :: Walk(layout, Now(), q) == old(Walk(layout, Now(), q))
    {
      ZeroOnAllPaths(layout, Now(), page);
      ZeroKeepsInv(layout, Now(), page);
      mem := map at | at in mem && !(page <= at < page + PAGE_SIZE) :: mem[at];
    }

    // native_pgd_clear, native_pud_clear, native_pmd_clear
    method ClearEntry(entry: nat, ghost level: nat, ghost address: nat)
      requires Valid() && Enabled(layout, Now(), Clear(level, PathOf(address)))
      requires entry == Target(layout, Now(), Clear(level, PathOf(address)))
      modifies this
      ensures Valid() && mem == old(mem)[entry := ZERO]
      ensures forall q: Path :: Walk(layout, Now(), q)
                == if Meet(PathOf(address), q, level) then Missing(level) else old(Walk(layout, Now(), q))
    {
      StepOnAllPaths(layout, Now(), Clear(level, PathOf(address)));
      mem := mem[entry := ZERO];
    }

    // native_set_pte
    method SetPte(ptep: nat, pte: Word, ghost address: nat)
      requires Valid() && Enabled(layout, Now(), Op.SetPte(PathOf(address), pte))
      requires ptep == Target(layout, Now(), Op.SetPte(PathOf(address), pte))
      modifies this
      ensures Valid() && tables == old(tables)
      ensures forall b: nat :: Lookup(b)
                == if PageNumber(b) == PageNumber(address) then Entry(pte) else old(Lookup(b))
    {
      SetPteOnAllAddresses(layout, Now(), address, pte);
      StepKeepsInv(layout, Now(), Op.SetPte(PathOf(address), pte));
      mem := mem[ptep := pte];
    }

    // ptep_get_and_clear
    method GetAndClear(ptep: nat, ghost address: nat) returns (pte: Word)
      requires Valid() && Enabled(layout, Now(), Op.SetPte(PathOf(address), ZERO))
      requires ptep == Target(layout, Now(), Op.SetPte(PathOf(address), ZERO))
      modifies this
      ensures Valid() && old(Lookup(address)) == Entry(pte)
      ensures forall b: nat :: Lookup(b)
                == if PageNumber(b) == PageNumber(address) then Entry(ZERO) else old(Lookup(b))
    {
      pte := Load(mem, ptep);
      WalkArrives(layout, Now(), PathOf(address));
      SetPte(ptep, ZERO, address);
    }

    // ptep_set_wrprotect: clear one bit of the entry in place.
    method SetWriteProtect(ptep: nat, ghost address: nat)
      requires Valid() && Enabled(layout, Now(), Op.SetPte(PathOf(address), ZERO))
      requires ptep == Target(layout, Now(), Op.SetPte(PathOf(address), ZERO))
      modifies this
      ensures Valid() && old(Lookup(address)).Entry?
      ensures forall b: nat :: Lookup(b)
                == if PageNumber(b) == PageNumber(address)
                   then Entry(old(Lookup(address)).value[RW := false]) else old(Lookup(b))
    {
      var pte := And(Load(mem, ptep), Not(Flag({RW})));
      WalkArrives(layout, Now(), PathOf(address));
      assert pte == Load(mem, ptep)[RW := false];
      SetPte(ptep, pte, address);
    }
  }
}
