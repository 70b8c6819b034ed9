/**
 * crates/arch-aarch64/src/addrspace.rs: a process's address space, edited in place through its
 * tables, with an allocator that may run dry at any call.
 */
module AddressSpaces {
  import opened Common
  import opened PageTables
  import opened Ownership

  const PAGE_SIZE: nat := 4096

  const USER_BASE: nat := 0x8000_0000
  const USER_IMAGE_END: nat := 0xC000_0000
  const USER_HEAP_BASE: nat := 0x1_0000_0000
  const USER_HEAP_END: nat := 0x2_0000_0000
  const USER_DATA_VA: nat := 0x4_0000_0000
  const USER_STACK_TOP: nat := 0x8_0000_0000
  const USER_STACK_MAX_PAGES: nat := 256
  const USER_STACK_LIMIT: nat := USER_STACK_TOP - USER_STACK_MAX_PAGES * PAGE_SIZE

  /** A translation held by some core's TLB. */
  datatype Cached = Cached(page: PageNo, desc: Desc)

  /** Physical memory and the frame pool. */
  class Ram {
    var mem: Tables
    var bytes: map<Frame, seq<nat>>
    var free: set<Frame>
    /** How often the pool has been asked for a frame and had none to give. */
    ghost var refusals: nat

    constructor (pool: set<Frame>)
      ensures free == pool && refusals == 0
    {
      mem, bytes, free, refusals := map[], map[], pool, 0;
    }

    /** Any free frame, or none: the pool is shared, and memory pressure is not this module's to predict. */
    method Allocate() returns (r: Option<Frame>)
      modifies this`free, this`refusals
      ensures r.Some? ==> r.value in old(free) && free == old(free) - {r.value}
      ensures r.None? ==> free == old(free)
      ensures refusals == old(refusals) + if r.None? then 1 else 0
    {
      var refused := *;
      if refused || free == {} {
        refusals := refusals + 1;
        return None;
      }
      var f :| f in free;
      free := free - {f};
      return Some(f);
    }

    /** Giving back a frame that is already free is what must never happen. */
    method Free(f: Frame)
      requires f !in free
      modifies this`free
      ensures free == old(free) + {f}
    {
      free := free + {f};
    }
  }

  class AddressSpace {
    const ram: Ram
    const root: Frame
    var dataPhys: Frame
    var heapNext: nat
    /** Where each table is, and the frames this space has taken from the pool and not given back. */
    ghost var tables: Layout
    ghost var taken: set<Frame>
    /** Translations some core still has cached. */
    ghost var tlb: set<Cached>

    /** The leaf descriptor of a page. */
    ghost function Leaf(pn: PageNo): Desc
      reads this`tables, ram`mem
    {
      LeafAt(ram.mem, tables, pn)
    }

    ghost predicate Valid()
      reads this`tables, this`taken, ram`mem, ram`free
    {
      SpaceOk(ram.mem, root, tables, taken, ram.free)
    }

    /** Every frame this space and the pool have between them: what an operation takes from one goes to the other. */
    ghost function Estate(): set<Frame>
      reads this`taken, ram`free
    {
      taken + ram.free
    }

    /** A space with a root table and nothing else, built on a frame just taken and zeroed. */
    constructor (memory: Ram, table: Frame)
      requires table !in memory.free && table in memory.mem && memory.mem[table] == Zeroed()
      ensures Valid() && ram == memory && root == table && taken == {table} && tlb == {} && heapNext == USER_HEAP_BASE
      ensures MapsExactly(ram.mem, tables, {})
    {
      ram, root := memory, table;
      dataPhys, heapNext := 0, USER_HEAP_BASE;
      tables := map[ROOT := table];
      taken, tlb := {table}, {};
      new;
      assert Owns(ram.mem, tables, ROOT, table);
      assert forall q, f :: Owns(ram.mem, tables, q, f) ==> q == ROOT && f == table;
    }

    /** The walk of `lookup`: one table per level, stopping at the first hole. */
    method Lookup(pn: PageNo) returns (desc: Desc)
      requires Valid()
      ensures desc == Leaf(pn) == Walk(ram.mem, root, pn, 0)
    {
      WalkIsLeaf(ram.mem, root, tables, pn);
      var table := root;
      var level := 0;
      while level < LEAF_LEVEL
        invariant level <= LEAF_LEVEL && OnPath(pn, level) in tables && tables[OnPath(pn, level)] == table
      {
        PathStep(pn, level);
        assert EntryOk(ram.mem, tables, OnPath(pn, level), Index(pn, level));
        desc := ram.mem[table][Index(pn, level)];
        if !desc.Table? {
          AbsentBelow(ram.mem, root, tables, pn, level + 1);
          return Invalid;
        }
        table := desc.next;
        level := level + 1;
      }
      return ram.mem[table][Index(pn, LEAF_LEVEL)];
    }

    /** One missing table on the way down: link a fresh zeroed frame into an empty slot. */
    method LinkTable(pn: PageNo, level: nat, table: Frame) returns (next: Option<Frame>)
      requires Valid() && level < LEAF_LEVEL
      requires OnPath(pn, level) in tables && tables[OnPath(pn, level)] == table
      requires ram.mem[table][Index(pn, level)].Invalid?
      modifies this`tables, this`taken, ram`mem, ram`free, ram`refusals
      ensures Valid() && Estate() == old(Estate())
      ensures SameLeaves(old(ram.mem), old(tables), ram.mem, tables)
      ensures Confined(old(ram.mem), ram.mem, old(Estate()))
      ensures ram.free <= old(ram.free) && ram.refusals == old(ram.refusals) + if next.None? then 1 else 0
      ensures next.Some? ==> OnPath(pn, level + 1) in tables && tables[OnPath(pn, level + 1)] == next.value
    {
      next := ram.Allocate();
      if next.None? {
        return;
      }
      var f := next.value;
      OwnedIsTaken(ram.mem, tables, taken, OnPath(pn, level), table);
      LinkOnPath(ram.mem, root, tables, taken, old(ram.free), pn, level, f);
      ram.mem := LinkWrites(ram.mem, table, Index(pn, level), f);
      tables := tables[OnPath(pn, level + 1) := f];
      taken := taken + {f};
    }

    /** The leaf-level table on the page's path; tables made on the way change no translation. */
    method LeafTable(pn: PageNo) returns (r: Option<Frame>)
      requires Valid()
      modifies this`tables, this`taken, ram`mem, ram`free, ram`refusals
      ensures Valid() && Estate() == old(Estate())
      ensures SameLeaves(old(ram.mem), old(tables), ram.mem, tables)
      ensures Confined(old(ram.mem), ram.mem, old(Estate()))
      ensures ram.free <= old(ram.free) && ram.refusals == old(ram.refusals) + if r.None? then 1 else 0
      ensures r.Some? ==> OnPath(pn, LEAF_LEVEL) in tables && tables[OnPath(pn, LEAF_LEVEL)] == r.value
    {
      var table := root;
      for level := 0 to LEAF_LEVEL
        invariant Valid() && Estate() == old(Estate())
        invariant SameLeaves(old(ram.mem), old(tables), ram.mem, tables)
        invariant Confined(old(ram.mem), ram.mem, old(Estate()))
        invariant OnPath(pn, level) in tables && tables[OnPath(pn, level)] == table
        invariant ram.free <= old(ram.free) && ram.refusals == old(ram.refusals)
      {
        PathStep(pn, level);
        assert EntryOk(ram.mem, tables, OnPath(pn, level), Index(pn, level));
        var desc := ram.mem[table][Index(pn, level)];
        if desc.Table? {
          table := desc.next;
        } else {
          ghost var (mem1, tables1) := (ram.mem, tables);
          var next := LinkTable(pn, level, table);
          SameLeavesTrans(old(ram.mem), old(tables), mem1, tables1, ram.mem, tables);
          ConfinedTrans(old(ram.mem), mem1, ram.mem, old(Estate()), old(Estate()));
          if next.None? {
            return None;
          }
          table := next.value;
        }
      }
      return Some(table);
    }

    /**
     * Install a leaf, creating tables as needed; it fails exactly if the pool cannot supply one. What was
     * mapped there is overwritten without a look: a frame it owned is lost to both space and pool.
     */
    method MapPage(pn: PageNo, desc: Desc) returns (ok: bool)
      requires Valid() && desc.Page?
      requires desc.frame !in ram.free && desc.frame !in taken
      requires desc.owned ==> Unnamed(ram.mem, tables, desc.frame)
      modifies this`tables, this`taken, ram`mem, ram`free, ram`refusals
      ensures Valid()
      ensures Estate() == if ok then old(Estate()) - FrameOf(old(Leaf(pn))) + FrameOf(desc) else old(Estate())
      ensures Confined(old(ram.mem), ram.mem, old(Estate()))
      ensures ram.free <= old(ram.free) && ram.refusals == old(ram.refusals) + if ok then 0 else 1
      ensures ok ==> OnlyLeafChanged(old(ram.mem), old(tables), ram.mem, tables, pn, desc)
      ensures !ok ==> SameLeaves(old(ram.mem), old(tables), ram.mem, tables)
    {
      var leaf := LeafTable(pn);
      if leaf.None? {
        return false;
      }
      assert desc.frame !in Estate();
      WriteAfterLinks(old(ram.mem), old(tables), ram.mem, root, tables, taken, ram.free, pn, desc);
      var t := leaf.value;
      ghost var (mem1, estate1) := (ram.mem, Estate());
      ram.mem := ram.mem[t := ram.mem[t][Index(pn, LEAF_LEVEL) := desc]];
      taken := taken - FrameOf(old(Leaf(pn))) + FrameOf(desc);
      ConfinedTrans(old(ram.mem), mem1, ram.mem, old(Estate()), estate1);
      return true;
    }

    /** A frame out of the pool, zeroed, and not yet mapped anywhere. */
    method TakeZeroed() returns (r: Option<Frame>)
      requires Valid()
      modifies ram`free, ram`bytes, ram`refusals
      ensures Valid() && ram.refusals == old(ram.refusals) + if r.None? then 1 else 0
      ensures r.None? ==> ram.free == old(ram.free) && ram.bytes == old(ram.bytes)
      ensures r.Some? ==>
        && r.value in old(ram.free) && ram.free == old(ram.free) - {r.value}
        && ram.bytes == old(ram.bytes)[r.value := Zeros()]
        && r.value !in taken && Unnamed(ram.mem, tables, r.value)
    {
      r := ram.Allocate();
      if r.Some? {
        OnceFree(ram.mem, root, tables, taken, old(ram.free), r.value);
        ram.bytes := ram.bytes[r.value := Zeros()];
      }
    }

    /** Back with a frame that never got mapped. */
    method GiveBack(f: Frame)
      requires Valid() && f !in taken && f !in ram.free && Unnamed(ram.mem, tables, f)
      modifies ram`free
      ensures Valid() && ram.free == old(ram.free) + {f}
    {
      ReturnUnused(ram.mem, root, tables, taken, ram.free, f);
      ram.Free(f);
    }

    /** One zeroed frame of this space's own, mapped read/write in place of whatever was there. */
    method MapFresh(pn: PageNo) returns (r: Option<Frame>)
      requires Valid()
      modifies this`tables, this`taken, ram
      ensures Valid() && ram.refusals == old(ram.refusals) + if r.None? then 1 else 0
      ensures Estate() == if r.Some? then old(Estate()) - FrameOf(old(Leaf(pn))) else old(Estate())
      ensures Confined(old(ram.mem), ram.mem, old(Estate())) && Confined(old(ram.bytes), ram.bytes, old(ram.free))
      ensures r.Some? ==>
        && r.value in old(ram.free)
        && OnlyLeafChanged(old(ram.mem), old(tables), ram.mem, tables, pn, Page(r.value, Data, true))
        && ram.bytes == old(ram.bytes)[r.value := Zeros()]
      ensures r.None? ==> SameLeaves(old(ram.mem), old(tables), ram.mem, tables)
    {
      r := TakeZeroed();
      if r.None? {
        return;
      }
      var f := r.value;
      assert Estate() == old(Estate()) - {f};
      assert FrameOf(Page(f, Data, true)) == {f} && f !in FrameOf(Leaf(pn));
      var ok := MapPage(pn, Page(f, Data, true));
      if !ok {
        assert f !in Estate();
        UnnamedKept(old(ram.mem), old(tables), ram.mem, tables, f);
        GiveBack(f);
        return None;
      }
    }
  }

  function Zeros(): seq<nat>
  {
    seq(PAGE_SIZE, _ => 0)
  }

  /** A frame just taken from the pool is named by nothing, and taking it leaves the space in order. */
  lemma OnceFree(mem: Tables, root: Frame, tables: Layout, taken: set<Frame>, free: set<Frame>, f: Frame)
    requires SpaceOk(mem, root, tables, taken, free) && f in free
    ensures SpaceOk(mem, root, tables, taken, free - {f}) && Unnamed(mem, tables, f) && f !in taken
  {
  }

  /** A frame nothing names can go back. */
  lemma ReturnUnused(mem: Tables, root: Frame, tables: Layout, taken: set<Frame>, free: set<Frame>, f: Frame)
    requires SpaceOk(mem, root, tables, taken, free) && Unnamed(mem, tables, f) && f !in taken
    ensures SpaceOk(mem, root, tables, taken, free + {f})
  {
  }
}
