/**
 * crates/arch-aarch64/src/addrspace.rs: asking what is mapped, and taking it away while other cores
 * may be running the same space and refilling their TLBs from its tables at any moment.
 */
module Unmapping {
  import opened Common
  import opened PageTables
  import opened Ownership
  import opened AddressSpaces

  // ---- user_range_ok ----

  predicate Allowed(desc: Desc, write: bool)
  {
    desc.Page? && UserReadable(desc.rights) && (write ==> UserWritable(desc.rights))
  }

  /** Every page the range touches, read the way `table_index` reads it: bits above 47 are ignored. */
  ghost predicate AllowedIn(mem: Tables, tables: Layout, va: nat, len: nat, write: bool)
  {
    forall page: nat :: va / PAGE_SIZE <= page && page * PAGE_SIZE < va + len
      ==> Allowed(LeafAt(mem, tables, page % PAGES), write)
  }

  ghost predicate RangeAllowed(space: AddressSpace, va: nat, len: nat, write: bool)
    reads space, space.ram
  {
    AllowedIn(space.ram.mem, space.tables, va, len, write)
  }

  ghost predicate AllowedUpTo(mem: Tables, tables: Layout, first: nat, page: nat, write: bool)
  {
    forall p: nat :: first <= p < page ==> Allowed(LeafAt(mem, tables, p % PAGES), write)
  }

  const ADDRESS_PAGES: nat := 0x10_0000_0000_0000

  /** Some page of the space does not grant this access. */
  ghost predicate SomePageRefused(space: AddressSpace, write: bool)
    reads space, space.ram
  {
    exists q: PageNo :: !Allowed(space.Leaf(q), write)
  }

  /**
   * Whether EL0 may touch every byte of a range. Past the last page below 2^64 the loop's address wraps
   * to zero and it goes on from there: it then ends, with a refusal, exactly when some page of the space
   * refuses, and that is all that is asked here.
   */
  method UserRangeOk(space: AddressSpace, va: U64, len: U64, write: bool) returns (ok: bool)
    requires space.Valid() && (TWO_64 - PAGE_SIZE < va + len < TWO_64 && len > 0 ==> SomePageRefused(space, write))
    ensures ok <==>
      va + len < TWO_64 && (len == 0 || (va + len <= TWO_64 - PAGE_SIZE && RangeAllowed(space, va, len, write)))
  {
    if va + len >= TWO_64 {
      return false;
    }
    if len == 0 {
      return true;
    }
    ghost var q: PageNo := if SomePageRefused(space, write)
      then var q: PageNo :| !Allowed(LeafAt(space.ram.mem, space.tables, q), write); q else 0;
    var page := va / PAGE_SIZE;
    ghost var wrapped := false;
    while page * PAGE_SIZE < va + len
      invariant page < ADDRESS_PAGES
      invariant !wrapped ==> va / PAGE_SIZE <= page
      invariant !wrapped ==> AllowedUpTo(space.ram.mem, space.tables, va / PAGE_SIZE, page, write)
      invariant wrapped ==> va + len > TWO_64 - PAGE_SIZE && page <= q
      decreases !wrapped, if wrapped then q - page else ADDRESS_PAGES - page
    {
      var desc := space.Lookup(page % PAGES);
      if !desc.Page? {
        return false;
      }
      if !UserReadable(desc.rights) || (write && !UserWritable(desc.rights)) {
        return false;
      }
      page := page + 1;
      if page == ADDRESS_PAGES {
        page, wrapped := 0, true;
      }
    }
    return true;
  }

  /** The same question asked of the pages themselves: below 2^48, mapped, and with the rights asked for. */
  ghost predicate GrantedIn(mem: Tables, tables: Layout, va: nat, len: nat, write: bool)
  {
    forall page: nat :: va / PAGE_SIZE <= page && page * PAGE_SIZE < va + len
      ==> page < PAGES && Allowed(LeafAt(mem, tables, page), write)
  }

  ghost predicate PagesGrant(space: AddressSpace, va: nat, len: nat, write: bool)
    reads space, space.ram
  {
    GrantedIn(space.ram.mem, space.tables, va, len, write)
  }

  /** Bits above 47 do not matter to the answer: a range and its copy any multiple of 2^48 away get the same. */
  lemma AliasAbove48Bits(space: AddressSpace, va: nat, len: nat, write: bool, k: nat)
    ensures RangeAllowed(space, va + k * PAGES * PAGE_SIZE, len, write) <==> RangeAllowed(space, va, len, write)
  {
    var up := va + k * PAGES * PAGE_SIZE;
    assert up / PAGE_SIZE == va / PAGE_SIZE + k * PAGES;
    forall p: nat ensures (p + k * PAGES) % PAGES == p % PAGES {
      ModUnique(p + k * PAGES, PAGES, p / PAGES + k, p % PAGES);
    }
    if RangeAllowed(space, up, len, write) {
      forall p: nat | va / PAGE_SIZE <= p && p * PAGE_SIZE < va + len ensures Allowed(LeafAt(space.ram.mem, space.tables, p % PAGES), write) {
        var up_p := p + k * PAGES;
        assert Allowed(LeafAt(space.ram.mem, space.tables, up_p % PAGES), write);
      }
    }
    if RangeAllowed(space, va, len, write) {
      forall p: nat | up / PAGE_SIZE <= p && p * PAGE_SIZE < up + len ensures Allowed(LeafAt(space.ram.mem, space.tables, p % PAGES), write) {
        var low := p - k * PAGES;
        assert Allowed(LeafAt(space.ram.mem, space.tables, low % PAGES), write);
      }
    }
  }

  /** In any one tree a range that ends beyond 2^48 is answered right only by being refused. */
  lemma RightExactly(mem: Tables, tables: Layout, va: nat, len: nat, write: bool)
    requires len > 0
    ensures (AllowedIn(mem, tables, va, len, write) <==> GrantedIn(mem, tables, va, len, write))
       <==> va + len <= PAGES * PAGE_SIZE || !AllowedIn(mem, tables, va, len, write)
  {
    if GrantedIn(mem, tables, va, len, write) {
      forall p: nat | va / PAGE_SIZE <= p && p * PAGE_SIZE < va + len
        ensures Allowed(LeafAt(mem, tables, p % PAGES), write)
      {
        assert p < PAGES;
      }
    }
    if va + len > PAGES * PAGE_SIZE {
      var last := (va + len - 1) / PAGE_SIZE;
      assert va / PAGE_SIZE <= last && last * PAGE_SIZE < va + len && last >= PAGES;
    } else if AllowedIn(mem, tables, va, len, write) {
      forall p: nat | va / PAGE_SIZE <= p && p * PAGE_SIZE < va + len
        ensures p < PAGES && Allowed(LeafAt(mem, tables, p), write)
      {
        assert p < PAGES && p % PAGES == p;
      }
    }
  }

  // ---- unmap ----

  type Tlb = set<Cached>

  /** Nothing in the pool is named by a descriptor or by a translation some core has cached. */
  ghost predicate NothingFreeIsNamed(mem: Tables, tables: Layout, tlb: Tlb, free: set<Frame>)
  {
    && (forall pn: PageNo :: LeafAt(mem, tables, pn).Page? ==> LeafAt(mem, tables, pn).frame !in free)
    && (forall e :: e in tlb ==> e.desc.Page? && e.desc.frame !in free)
  }

  /** A translation the tables hold. */
  ghost predicate Live(mem: Tables, tables: Layout, e: Cached)
  {
    e.desc.Page? && LeafAt(mem, tables, e.page) == e.desc
  }

  /** Every cached translation is one the tables still hold. */
  ghost predicate Coherent(mem: Tables, tables: Layout, tlb: Tlb)
  {
    forall e :: e in tlb ==> Live(mem, tables, e)
  }

  /** Any cached translation may have been dropped, and any live one picked up. */
  ghost predicate Refilled(mem: Tables, tables: Layout, was: Tlb, now: Tlb)
  {
    forall e :: e in now ==> e in was || Live(mem, tables, e)
  }

  /** Between the clear and the invalidation, only entries for this page can be out of date. */
  ghost predicate StaleOnly(mem: Tables, tables: Layout, tlb: Tlb, pn: PageNo, was: Desc)
  {
    forall e :: e in tlb ==> Live(mem, tables, e) || e == Cached(pn, was)
  }

  lemma CoherentIsSafe(mem: Tables, root: Frame, tables: Layout, taken: set<Frame>, free: set<Frame>, tlb: Tlb)
    requires SpaceOk(mem, root, tables, taken, free) && Coherent(mem, tables, tlb)
    ensures NothingFreeIsNamed(mem, tables, tlb, free)
  {
  }

  /** Right after the clear: the frame is still out of the pool, which is what makes stale entries harmless. */
  lemma ClearedIsSafe(mem0: Tables, mem: Tables, root: Frame, tables: Layout, taken: set<Frame>, free: set<Frame>,
                      tlb: Tlb, pn: PageNo, was: Desc)
    requires SpaceOk(mem, root, tables, taken, free) && Coherent(mem0, tables, tlb)
    requires OnlyLeafChanged(mem0, tables, mem, tables, pn, Invalid)
    requires was == LeafAt(mem0, tables, pn) && was.Page? && was.frame !in free
    ensures StaleOnly(mem, tables, tlb, pn, was)
    ensures NothingFreeIsNamed(mem, tables, tlb, free)
  {
  }

  /** No refill can bring the cleared page back, so one invalidation is enough. */
  lemma InvalidatedIsCoherent(mem: Tables, tables: Layout, before: Tlb, refilled: Tlb, after: Tlb, pn: PageNo, was: Desc)
    requires StaleOnly(mem, tables, before, pn, was) && Refilled(mem, tables, before, refilled)
    requires forall e :: e in after ==> e in refilled && e.page != pn
    ensures Coherent(mem, tables, after)
  {
  }

  /**
   * What other cores may do between any two instructions of this one: drop cached translations, and
   * cache any the tables hold now. This call stands at every point where they may, so its
   * precondition is what holds at every such point.
   */
  method Interference(space: AddressSpace)
    requires NothingFreeIsNamed(space.ram.mem, space.tables, space.tlb, space.ram.free)
    modifies space`tlb
    ensures NothingFreeIsNamed(space.ram.mem, space.tables, space.tlb, space.ram.free)
    ensures Refilled(space.ram.mem, space.tables, old(space.tlb), space.tlb)
  {
    assert Refilled(space.ram.mem, space.tables, space.tlb, space.tlb);
    ghost var next: Tlb :| Refilled(space.ram.mem, space.tables, space.tlb, next);
    RefillIsSafe(space.ram.mem, space.tables, space.tlb, next, space.ram.free);
    space.tlb := next;
  }

  lemma RefillIsSafe(mem: Tables, tables: Layout, was: Tlb, now: Tlb, free: set<Frame>)
    requires NothingFreeIsNamed(mem, tables, was, free) && Refilled(mem, tables, was, now)
    ensures NothingFreeIsNamed(mem, tables, now, free)
  {
  }

  /** Clear one descriptor. Its frame is now in nobody's hands, but some core may still be using it. */
  method ClearLeaf(space: AddressSpace, pn: PageNo, leaf: Frame) returns (desc: Desc)
    requires space.Valid()
    requires OnPath(pn, LEAF_LEVEL) in space.tables && space.tables[OnPath(pn, LEAF_LEVEL)] == leaf
    modifies space`taken, space.ram`mem
    ensures desc == old(space.Leaf(pn)) && FrameOf(desc) <= old(space.taken)
    ensures space.taken == old(space.taken) - FrameOf(desc)
    ensures OnlyLeafChanged(old(space.ram.mem), space.tables, space.ram.mem, space.tables, pn, Invalid)
    ensures space.Valid()
    ensures SpaceOk(space.ram.mem, space.root, space.tables, space.taken, space.ram.free + FrameOf(desc))
    ensures Confined(old(space.ram.mem), space.ram.mem, old(space.taken))
  {
    var ram := space.ram;
    OwnedIsTaken(ram.mem, space.tables, space.taken, OnPath(pn, LEAF_LEVEL), leaf);
    EraseKeepsSpace(ram.mem, space.root, space.tables, space.taken, ram.free, pn);
    desc := ram.mem[leaf][Index(pn, LEAF_LEVEL)];
    ram.mem := ram.mem[leaf := ram.mem[leaf][Index(pn, LEAF_LEVEL) := Invalid]];
    space.taken := space.taken - FrameOf(desc);
  }

  /**
   * `TLBI VAAE1IS` and the barrier after it: no core has this page cached any more. Other cores are at
   * work until it completes, so it asks what every point at which they may be asks.
   */
  method Invalidate(space: AddressSpace, pn: PageNo)
    requires NothingFreeIsNamed(space.ram.mem, space.tables, space.tlb, space.ram.free)
    modifies space`tlb
    ensures forall e :: e in space.tlb <==> e in old(space.tlb) && e.page != pn
  {
    space.tlb := set e | e in space.tlb && e.page != pn;
  }

  /** The leaf-level table of a page if its path is complete; nothing is allocated to find out. */
  method ExistingLeafTable(space: AddressSpace, pn: PageNo) returns (r: Option<Frame>)
    requires space.Valid()
    ensures r.Some? <==> OnPath(pn, LEAF_LEVEL) in space.tables
    ensures r.Some? ==> space.tables[OnPath(pn, LEAF_LEVEL)] == r.value
  {
    var table := space.root;
    var level := 0;
    while level < LEAF_LEVEL
      invariant level <= LEAF_LEVEL && OnPath(pn, level) in space.tables
      invariant space.tables[OnPath(pn, level)] == table
    {
      PathStep(pn, level);
      assert EntryOk(space.ram.mem, space.tables, OnPath(pn, level), Index(pn, level));
      var desc := space.ram.mem[table][Index(pn, level)];
      if !desc.Table? {
        AbsentBelow(space.ram.mem, space.root, space.tables, pn, level + 1);
        return None;
      }
      table := desc.next;
      level := level + 1;
    }
    return Some(table);
  }

  /**
   * One page of `unmap`: clear the descriptor, invalidate it everywhere, and only then free the frame,
   * with other cores at work between every two of those steps.
   */
  method UnmapPage(space: AddressSpace, pn: PageNo) returns (removed: bool)
    requires space.Valid() && Coherent(space.ram.mem, space.tables, space.tlb)
    modifies space`taken, space`tlb, space.ram`mem, space.ram`free
    ensures space.Valid() && Coherent(space.ram.mem, space.tables, space.tlb)
    ensures space.Estate() == old(space.Estate())
    ensures removed <==> old(space.Leaf(pn)).Page?
    ensures space.ram.free == old(space.ram.free) + FrameOf(old(space.Leaf(pn)))
    ensures OnlyLeafChanged(old(space.ram.mem), space.tables, space.ram.mem, space.tables, pn, Invalid)
    ensures Confined(old(space.ram.mem), space.ram.mem, old(space.Estate()))
  {
    var ram := space.ram;
    var leaf := ExistingLeafTable(space, pn);
    if leaf.None? {
      return false;
    }
    assert EntryOk(ram.mem, space.tables, OnPath(pn, LEAF_LEVEL), Index(pn, LEAF_LEVEL));
    if ram.mem[leaf.value][Index(pn, LEAF_LEVEL)].Invalid? {
      return false;
    }
    CoherentIsSafe(ram.mem, space.root, space.tables, space.taken, ram.free, space.tlb);
    ghost var mem0 := ram.mem;
    var desc := ClearLeaf(space, pn, leaf.value);
    ClearedIsSafe(mem0, ram.mem, space.root, space.tables, space.taken, ram.free, space.tlb, pn, desc);
    ghost var before := space.tlb;
    Interference(space);
    ghost var refilled := space.tlb;
    Invalidate(space, pn);
    InvalidatedIsCoherent(ram.mem, space.tables, before, refilled, space.tlb, pn, desc);
    CoherentIsSafe(ram.mem, space.root, space.tables, space.taken, ram.free, space.tlb);
    Interference(space);
    assert Coherent(ram.mem, space.tables, space.tlb);
    if desc.owned {
      ram.Free(desc.frame);
    }
    CoherentIsSafe(ram.mem, space.root, space.tables, space.taken, ram.free, space.tlb);
    Interference(space);
    return true;
  }

  /** Page `q` is one of the `n` from `pn` on, counted around the 2^36 there are. */
  predicate Touched(q: PageNo, pn: nat, n: nat)
  {
    (q - pn) % PAGES < n
  }

  lemma TouchedOneMore(q: PageNo, pn: nat, n: nat)
    ensures Touched(q, pn, n + 1) <==> Touched(q, pn, n) || q == (pn + n) % PAGES
    ensures q == (pn + n) % PAGES && n < PAGES ==> !Touched(q, pn, n)
  {
    if n < PAGES {
      if (q - pn) % PAGES == n {
        ModUnique(pn + n, PAGES, -((q - pn) / PAGES), q);
      }
      if q == (pn + n) % PAGES {
        ModUnique(q - pn, PAGES, -((pn + n) / PAGES), n);
      }
    }
  }

  lemma TouchedPlainly(q: PageNo, pn: nat, n: nat)
    requires pn + n <= PAGES
    ensures Touched(q, pn, n) <==> pn <= q < pn + n
  {
    if pn < PAGES {
      ModUnique(q - pn, PAGES, if q < pn then -1 else 0, if q < pn then q - pn + PAGES else q - pn);
    }
  }

  ghost function MappedPages(mem: Tables, tables: Layout, pn: nat, n: nat): set<nat>
  {
    set q: nat | q < PAGES && Touched(q, pn, n) && LeafAt(mem, tables, q).Page?
  }

  /** How many of the `n` pages from `pn` on are mapped, no page being counted twice. */
  ghost function Mapped(mem: Tables, tables: Layout, pn: nat, n: nat): nat
  {
    |MappedPages(mem, tables, pn, n)|
  }

  /** A page counts when the walk first comes to it. */
  lemma MappedOneMore(mem: Tables, tables: Layout, pn: nat, n: nat)
    ensures Mapped(mem, tables, pn, n + 1)
         == Mapped(mem, tables, pn, n) + if n < PAGES && LeafAt(mem, tables, (pn + n) % PAGES).Page? then 1 else 0
  {
    var (q, had, now) := ((pn + n) % PAGES, MappedPages(mem, tables, pn, n), MappedPages(mem, tables, pn, n + 1));
    forall p: PageNo ensures p in now <==> p in had || (p == q && LeafAt(mem, tables, q).Page?) {
      TouchedOneMore(p, pn, n);
    }
    TouchedOneMore(q, pn, n);
    if LeafAt(mem, tables, q).Page? {
      assert now == had + {q};
    } else {
      assert now == had;
    }
  }

  /** The `n` pages from `pn` on are gone and every other translation is as it was. */
  ghost predicate Cleared(mem0: Tables, mem: Tables, tables: Layout, pn: nat, n: nat)
  {
    forall q: PageNo :: LeafAt(mem, tables, q) == if Touched(q, pn, n) then Invalid else LeafAt(mem0, tables, q)
  }

  lemma ClearedOneMore(mem0: Tables, mem1: Tables, mem2: Tables, tables: Layout, pn: nat, n: nat)
    requires Cleared(mem0, mem1, tables, pn, n)
    requires OnlyLeafChanged(mem1, tables, mem2, tables, (pn + n) % PAGES, Invalid)
    ensures Cleared(mem0, mem2, tables, pn, n + 1)
    ensures LeafAt(mem1, tables, (pn + n) % PAGES)
         == if n < PAGES then LeafAt(mem0, tables, (pn + n) % PAGES) else Invalid
  {
    TouchedOneMore((pn + n) % PAGES, pn, n);
    forall q: PageNo
      ensures LeafAt(mem2, tables, q) == if Touched(q, pn, n + 1) then Invalid else LeafAt(mem0, tables, q)
    {
      TouchedOneMore(q, pn, n);
    }
  }

  /** The loop after `i` pages. */
  ghost predicate UnmappedTo(space: AddressSpace, m0: Tables, e0: set<Frame>, free0: set<Frame>, pn: nat, i: nat, removed: nat)
    reads space, space.ram
  {
    && space.Estate() == e0 && free0 <= space.ram.free && (removed == 0 ==> space.ram.free == free0)
    && removed == Mapped(m0, space.tables, pn, i) && Cleared(m0, space.ram.mem, space.tables, pn, i)
    && Confined(m0, space.ram.mem, e0)
  }

  /** One turn of it. */
  method UnmapNext(space: AddressSpace, pn: nat, i: nat, was: nat, ghost m0: Tables, ghost e0: set<Frame>, ghost free0: set<Frame>)
    returns (removed: nat)
    requires space.Valid() && Coherent(space.ram.mem, space.tables, space.tlb)
    requires UnmappedTo(space, m0, e0, free0, pn, i, was)
    modifies space`taken, space`tlb, space.ram`mem, space.ram`free
    ensures space.Valid() && Coherent(space.ram.mem, space.tables, space.tlb)
    ensures UnmappedTo(space, m0, e0, free0, pn, i + 1, removed)
  {
    ghost var mem1 := space.ram.mem;
    var gone := UnmapPage(space, (pn + i) % PAGES);
    ConfinedTrans(m0, mem1, space.ram.mem, e0, e0);
    ClearedOneMore(m0, mem1, space.ram.mem, space.tables, pn, i);
    MappedOneMore(m0, space.tables, pn, i);
    removed := if gone then was + 1 else was;
  }

  /**
   * Unmap a range: exactly the pages that were mapped are counted and gone, holes are skipped, no table
   * is created, and no frame reaches the pool while anything names it. Addresses above 2^48 come around.
   */
  method Unmap(space: AddressSpace, pn: nat, pages: nat) returns (removed: nat)
    requires space.Valid() && Coherent(space.ram.mem, space.tables, space.tlb)
    modifies space`taken, space`tlb, space.ram`mem, space.ram`free
    ensures space.Valid() && Coherent(space.ram.mem, space.tables, space.tlb)
    ensures space.Estate() == old(space.Estate())
    ensures old(space.ram.free) <= space.ram.free
    ensures removed == Mapped(old(space.ram.mem), space.tables, pn, pages)
    ensures Cleared(old(space.ram.mem), space.ram.mem, space.tables, pn, pages)
    ensures removed == 0 ==> space.ram.free == old(space.ram.free)
    ensures Confined(old(space.ram.mem), space.ram.mem, old(space.Estate()))
  {
    ghost var (m0, e0, free0) := (space.ram.mem, space.Estate(), space.ram.free);
    removed := 0;
    assert MappedPages(m0, space.tables, pn, 0) == {};
    for i := 0 to pages
      invariant space.Valid() && Coherent(space.ram.mem, space.tables, space.tlb)
      invariant UnmappedTo(space, m0, e0, free0, pn, i, removed)
    {
      removed := UnmapNext(space, pn, i, removed, m0, e0, free0);
    }
  }

  /** Doing it again removes nothing, and so frees nothing. */
  lemma UnmapAgainIsNothing(mem0: Tables, mem: Tables, tables: Layout, pn: nat, pages: nat)
    requires Cleared(mem0, mem, tables, pn, pages)
    ensures Mapped(mem, tables, pn, pages) == 0
  {
    assert MappedPages(mem, tables, pn, pages) == {};
  }
}
