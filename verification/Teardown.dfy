/**
 * crates/arch-aarch64/src/addrspace.rs: building a space and tearing it down. The failure path of
 * `new` and the whole of `destroy` are one tree walk, because the tree is the only record.
 */
module Teardown {
  import opened Common
  import opened PageTables
  import opened Ownership
  import opened AddressSpaces

  ghost predicate BelowFirst(mem: Tables, tables: Layout, k: Key, n: nat, f: Frame)
  {
    exists i: nat :: i < n && Below(mem, tables, Child(k, i), f)
  }

  lemma BelowOneMore(mem: Tables, tables: Layout, k: Key, n: nat, f: Frame)
    ensures BelowFirst(mem, tables, k, n + 1, f)
       <==> BelowFirst(mem, tables, k, n, f) || Below(mem, tables, Child(k, n), f)
  {
  }

  /** Frames of the next subtree are still out of the pool when the sweep reaches it. */
  lemma NotYetFreed(mem: Tables, tables: Layout, taken: set<Frame>, k: Key, n: nat, f: Frame)
    requires Conserved(mem, tables, taken) && k in tables && k.level <= LEAF_LEVEL && n < ENTRIES
    requires Below(mem, tables, Child(k, n), f)
    ensures !BelowFirst(mem, tables, k, n, f) && Below(mem, tables, k, f)
  {
  }

  /** The table itself is still out of the pool when its subtrees are done. */
  lemma TableFreedLast(mem: Tables, tables: Layout, taken: set<Frame>, k: Key)
    requires Conserved(mem, tables, taken) && k in tables && k.level <= LEAF_LEVEL
    ensures !BelowFirst(mem, tables, k, ENTRIES, tables[k]) && Below(mem, tables, k, tables[k])
    ensures forall f :: Below(mem, tables, k, f) <==> f == tables[k] || BelowFirst(mem, tables, k, ENTRIES, f)
  {
    forall f ensures Below(mem, tables, k, f) <==> f == tables[k] || BelowFirst(mem, tables, k, ENTRIES, f) {
      BelowIsChildren(mem, tables, k, f);
    }
    if i: nat :| i < ENTRIES && Below(mem, tables, Child(k, i), tables[k]) {
      SubtreesDisjoint(mem, tables, taken, k, i, i, tables[k]);
    }
  }

  /** Everything below slot `n` goes back to the pool. */
  method FreeSlot(ram: Ram, ghost root: Frame, ghost tables: Layout, ghost taken: set<Frame>, ghost k: Key,
                  table: Frame, level: nat, n: nat)
    requires Tree(ram.mem, root, tables) && Conserved(ram.mem, tables, taken)
    requires k in tables && tables[k] == table && k.level == level <= LEAF_LEVEL && n < ENTRIES
    requires forall f :: Below(ram.mem, tables, Child(k, n), f) ==> f !in ram.free
    modifies ram`free
    ensures forall f :: f in ram.free <==> f in old(ram.free) || Below(ram.mem, tables, Child(k, n), f)
    decreases LEAF_LEVEL - level, 0
  {
    assert EntryOk(ram.mem, tables, k, n);
    var desc := ram.mem[table][n];
    if level == LEAF_LEVEL {
      forall f ensures Below(ram.mem, tables, Child(k, n), f) <==> OwnedLeaf(desc, f) {
        SlotIsLeaf(ram.mem, root, tables, k, n, f);
      }
      if desc.Page? && desc.owned {
        ram.Free(desc.frame);
      }
    } else if desc.Table? {
      FreeTable(ram, root, tables, taken, Child(k, n), desc.next, level + 1);
    } else {
      forall f ensures !Below(ram.mem, tables, Child(k, n), f) {
        NothingBelowAbsent(ram.mem, root, tables, Child(k, n), f);
      }
    }
  }

  /** Free the subtree of a table, then the table: each frame exactly once, and no borrowed leaf. */
  method FreeTable(ram: Ram, ghost root: Frame, ghost tables: Layout, ghost taken: set<Frame>, ghost k: Key,
                   table: Frame, level: nat)
    requires Tree(ram.mem, root, tables) && Conserved(ram.mem, tables, taken)
    requires k in tables && tables[k] == table && k.level == level <= LEAF_LEVEL
    requires forall f :: Below(ram.mem, tables, k, f) ==> f !in ram.free
    modifies ram`free
    ensures forall f :: f in ram.free <==> f in old(ram.free) || Below(ram.mem, tables, k, f)
    decreases LEAF_LEVEL - level, 1
  {
    for index := 0 to ENTRIES
      invariant forall f :: f in ram.free <==> f in old(ram.free) || BelowFirst(ram.mem, tables, k, index, f)
    {
      forall f
        ensures Below(ram.mem, tables, Child(k, index), f) ==> f !in ram.free
        ensures BelowFirst(ram.mem, tables, k, index + 1, f)
           <==> BelowFirst(ram.mem, tables, k, index, f) || Below(ram.mem, tables, Child(k, index), f)
      {
        if Below(ram.mem, tables, Child(k, index), f) {
          NotYetFreed(ram.mem, tables, taken, k, index, f);
        }
        BelowOneMore(ram.mem, tables, k, index, f);
      }
      FreeSlot(ram, root, tables, taken, k, table, level, index);
    }
    TableFreedLast(ram.mem, tables, taken, k);
    ram.Free(table);
  }

  /** Every frame the space took goes back to the pool, and nothing else does. */
  method Destroy(space: AddressSpace)
    requires space.Valid()
    modifies space.ram`free
    ensures space.ram.free == old(space.ram.free) + space.taken == old(space.Estate())
  {
    var ram := space.ram;
    forall f ensures f in space.taken <==> Below(ram.mem, space.tables, ROOT, f) {
      TakenIsBelowRoot(ram.mem, space.root, space.tables, space.taken, f);
    }
    FreeTable(ram, space.root, space.tables, space.taken, ROOT, space.root, 0);
  }

  const DATA_PAGE: PageNo := USER_DATA_VA / PAGE_SIZE
  const STACK_PAGE: PageNo := USER_STACK_TOP / PAGE_SIZE - 1

  lemma MapsOneMore(m0: Tables, t0: Layout, m1: Tables, t1: Layout, pn: PageNo, desc: Desc, pages: set<PageNo>)
    requires MapsExactly(m0, t0, pages) && OnlyLeafChanged(m0, t0, m1, t1, pn, desc) && desc.Page?
    ensures MapsExactly(m1, t1, pages + {pn})
  {
  }

  lemma AbsentIsInvalid(mem: Tables, root: Frame, tables: Layout, pn: PageNo)
    requires Tree(mem, root, tables) && !LeafAt(mem, tables, pn).Page?
    ensures LeafAt(mem, tables, pn) == Invalid
  {
    if OnPath(pn, LEAF_LEVEL) in tables {
      assert EntryOk(mem, tables, OnPath(pn, LEAF_LEVEL), Index(pn, LEAF_LEVEL));
    }
  }

  /** One page every space gets. */
  method PopulateOne(space: AddressSpace, pn: PageNo, ghost pages: set<PageNo>) returns (r: Option<Frame>)
    requires space.Valid() && MapsExactly(space.ram.mem, space.tables, pages) && pn !in pages
    modifies space`tables, space`taken, space.ram
    ensures space.Valid() && space.Estate() == old(space.Estate())
    ensures Confined(old(space.ram.mem), space.ram.mem, old(space.Estate()))
    ensures r.Some? ==> MapsExactly(space.ram.mem, space.tables, pages + {pn})
    ensures r.Some? ==> space.Leaf(pn) == Page(r.value, Data, true)
    ensures r.Some? ==> forall q: PageNo :: q != pn ==> space.Leaf(q) == old(space.Leaf(q))
    ensures space.ram.refusals == old(space.ram.refusals) + if r.None? then 1 else 0
  {
    ghost var (mem, tables) := (space.ram.mem, space.tables);
    AbsentIsInvalid(mem, space.root, tables, pn);
    assert FrameOf(space.Leaf(pn)) == {};
    r := space.MapFresh(pn);
    if r.Some? {
      MapsOneMore(mem, tables, space.ram.mem, space.tables, pn, Page(r.value, Data, true), pages);
    }
  }

  /** The pages every space gets: the data page and one stack page. */
  method Populate(space: AddressSpace) returns (ok: bool)
    requires space.Valid() && MapsExactly(space.ram.mem, space.tables, {})
    modifies space`tables, space`taken, space`dataPhys, space.ram
    ensures space.Valid() && space.Estate() == old(space.Estate())
    ensures Confined(old(space.ram.mem), space.ram.mem, old(space.Estate()))
    ensures ok ==> MapsExactly(space.ram.mem, space.tables, {DATA_PAGE, STACK_PAGE})
    ensures ok ==> space.Leaf(DATA_PAGE) == Page(space.dataPhys, Data, true)
    ensures space.ram.refusals == old(space.ram.refusals) + if ok then 0 else 1
  {
    var data := PopulateOne(space, DATA_PAGE, {});
    if data.None? {
      return false;
    }
    space.dataPhys := data.value;
    assert {} + {DATA_PAGE} == {DATA_PAGE};
    ghost var mem1 := space.ram.mem;
    var stack := PopulateOne(space, STACK_PAGE, {DATA_PAGE});
    assert {DATA_PAGE} + {STACK_PAGE} == {DATA_PAGE, STACK_PAGE};
    ConfinedTrans(old(space.ram.mem), mem1, space.ram.mem, old(space.Estate()), old(space.Estate()));
    return stack.Some?;
  }

  /** A root table and nothing else, or nothing at all. */
  method NewRoot(ram: Ram) returns (space: AddressSpace?)
    modifies ram
    ensures Confined(old(ram.mem), ram.mem, old(ram.free))
    ensures ram.refusals == old(ram.refusals) + if space == null then 1 else 0
    ensures space == null ==> ram.free == old(ram.free)
    ensures space != null ==>
      && fresh(space) && space.Valid() && space.ram == ram && space.heapNext == USER_HEAP_BASE && space.tlb == {}
      && space.Estate() == old(ram.free) && MapsExactly(ram.mem, space.tables, {})
  {
    var root := ram.Allocate();
    if root.None? {
      return null;
    }
    ram.mem := ram.mem[root.value := Zeroed()];
    space := new AddressSpace(ram, root.value);
  }

  /** A fresh space, or nothing at all: on failure every frame taken on the way is back in the pool. */
  method New(ram: Ram) returns (space: AddressSpace?)
    modifies ram
    ensures Confined(old(ram.mem), ram.mem, old(ram.free))
    ensures ram.refusals == old(ram.refusals) + if space == null then 1 else 0
    ensures space == null ==> ram.free == old(ram.free)
    ensures space != null ==>
      && fresh(space) && space.Valid() && space.ram == ram && space.heapNext == USER_HEAP_BASE && space.tlb == {}
      && space.Estate() == old(ram.free)
      && MapsExactly(ram.mem, space.tables, {DATA_PAGE, STACK_PAGE})
      && space.Leaf(DATA_PAGE) == Page(space.dataPhys, Data, true)
  {
    space := NewRoot(ram);
    if space != null {
      ghost var (mem1, estate1) := (ram.mem, space.Estate());
      var ok := Populate(space);
      ConfinedTrans(old(ram.mem), mem1, ram.mem, old(ram.free), estate1);
      if !ok {
        Destroy(space);
        space := null;
      }
    }
  }
}
