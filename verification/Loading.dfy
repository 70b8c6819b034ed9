/**
 * crates/arch-aarch64/src/addrspace.rs: loading one ELF segment a page at a time, from a source that
 * may stop supplying bytes, and the claim that it amounts to one flat copy followed by zeroes.
 */
module Loading {
  import opened Common
  import opened PageTables
  import opened Ownership
  import opened AddressSpaces

  /** Execute beats write, write beats neither: the rights a segment's pages get. */
  function SegmentRights(exec: bool, write: bool): Rights
  {
    if exec then Text else if write then Data else ReadOnly
  }

  /** Byte `at` of the segment once loaded: the file's, then zero for ever. */
  function Flat(file: seq<nat>, at: nat): nat
  {
    if at < |file| then file[at] else 0
  }

  /** One page of it: zeroed first, then overlaid with whatever part of the file falls there. */
  function PageImage(file: seq<nat>, start: nat): (image: seq<nat>)
    ensures |image| == PAGE_SIZE
  {
    if start < |file| then
      var n := Min(PAGE_SIZE, |file| - start);
      file[start..start + n] + seq(PAGE_SIZE - n, _ => 0)
    else Zeros()
  }

  lemma PageImageIsFlat(file: seq<nat>, start: nat, i: nat)
    requires i < PAGE_SIZE
    ensures PageImage(file, start)[i] == Flat(file, start + i)
  {
  }

  /** Page `i` of the segment at page `pn` is loaded: mapped, owned, with its rights and its bytes. */
  ghost predicate Loaded(mem: Tables, tables: Layout, bytes: map<Frame, seq<nat>>, pn: PageNo, rights: Rights,
                         image: seq<nat>)
  {
    var d := LeafAt(mem, tables, pn);
    d.Page? && d.owned && d.rights == rights && d.frame in bytes && bytes[d.frame] == image
  }

  /** The byte EL0 reads at an address: through the tables, then from the frame. */
  ghost predicate Reads(mem: Tables, tables: Layout, bytes: map<Frame, seq<nat>>, va: nat, value: nat)
    requires va < PAGES * PAGE_SIZE
  {
    var d := LeafAt(mem, tables, va / PAGE_SIZE);
    d.Page? && d.frame in bytes && va % PAGE_SIZE < |bytes[d.frame]| && bytes[d.frame][va % PAGE_SIZE] == value
  }

  /** Where a program's bytes come from: it may fail to supply them at any time. */
  class Source {
    /** How often it has been asked and did not deliver. */
    ghost var failures: nat

    constructor ()
      ensures failures == 0
    {
      failures := 0;
    }

    method Supply(file: seq<nat>, at: nat, n: nat) returns (r: Option<seq<nat>>)
      requires at + n <= |file|
      modifies this
      ensures failures == old(failures) + if r.None? then 1 else 0
      ensures r.Some? ==> r.value == file[at..at + n]
    {
      var fails := *;
      if fails {
        failures := failures + 1;
        return None;
      }
      return Some(file[at..at + n]);
    }
  }

  /** How often pool or source has had nothing to give. */
  ghost function Shortfalls(ram: Ram, source: Source): nat
    reads ram`refusals, source
  {
    ram.refusals + source.failures
  }

  /** One page of the image: zeroes, and over them what the source supplies of the file. */
  method FillPage(source: Source, file: seq<nat>, start: nat) returns (r: Option<seq<nat>>)
    modifies source
    ensures source.failures == old(source.failures) + if r.None? then 1 else 0
    ensures r.Some? ==> r.value == PageImage(file, start)
  {
    if start >= |file| {
      return Some(Zeros());
    }
    var n := Min(PAGE_SIZE, |file| - start);
    var part := source.Supply(file, start, n);
    if part.None? {
      return None;
    }
    return Some(part.value + seq(PAGE_SIZE - n, _ => 0));
  }

  /**
   * One page: take a frame, fill it, map it over whatever was there. It fails exactly if pool or source
   * does, once, and every failure gives the frame back.
   */
  method LoadPage(space: AddressSpace, source: Source, pn: PageNo, rights: Rights, file: seq<nat>, start: nat)
    returns (r: Option<Frame>)
    requires space.Valid()
    modifies space`tables, space`taken, space.ram, source
    ensures space.Valid() && space.ram.free <= old(space.ram.free)
    ensures Shortfalls(space.ram, source) == old(Shortfalls(space.ram, source)) + if r.None? then 1 else 0
    ensures space.Estate() == if r.Some? then old(space.Estate()) - FrameOf(old(space.Leaf(pn))) else old(space.Estate())
    ensures Confined(old(space.ram.mem), space.ram.mem, old(space.Estate()))
    ensures Confined(old(space.ram.bytes), space.ram.bytes, old(space.ram.free))
    ensures r.Some? ==>
      && r.value in old(space.ram.free)
      && OnlyLeafChanged(old(space.ram.mem), old(space.tables), space.ram.mem, space.tables, pn, Page(r.value, rights, true))
      && space.ram.bytes == old(space.ram.bytes)[r.value := PageImage(file, start)]
    ensures r.None? ==> SameLeaves(old(space.ram.mem), old(space.tables), space.ram.mem, space.tables)
  {
    r := TakeFilled(space, source, file, start);
    if r.None? {
      return;
    }
    assert space.Estate() == old(space.Estate()) - {r.value};
    var ok := MapLoaded(space, pn, r.value, rights);
    if !ok {
      r := None;
    }
  }

  /** A frame out of the pool with one page of the image in it, or nothing: it must not be mapped half filled. */
  method TakeFilled(space: AddressSpace, source: Source, file: seq<nat>, start: nat) returns (r: Option<Frame>)
    requires space.Valid()
    modifies space.ram`free, space.ram`bytes, space.ram`refusals, source
    ensures space.Valid() && space.ram.free == old(space.ram.free) - if r.Some? then {r.value} else {}
    ensures Shortfalls(space.ram, source) == old(Shortfalls(space.ram, source)) + if r.None? then 1 else 0
    ensures r.None? ==> Confined(old(space.ram.bytes), space.ram.bytes, old(space.ram.free))
    ensures r.Some? ==>
      && r.value in old(space.ram.free) && r.value !in space.taken && Unnamed(space.ram.mem, space.tables, r.value)
      && space.ram.bytes == old(space.ram.bytes)[r.value := PageImage(file, start)]
  {
    r := space.TakeZeroed();
    if r.None? {
      return;
    }
    var image := FillPage(source, file, start);
    if image.None? {
      space.GiveBack(r.value);
      return None;
    }
    space.ram.bytes := space.ram.bytes[r.value := image.value];
    assert space.ram.bytes == old(space.ram.bytes)[r.value := PageImage(file, start)];
  }

  /** Map a filled frame, or give it back. */
  method MapLoaded(space: AddressSpace, pn: PageNo, f: Frame, rights: Rights) returns (ok: bool)
    requires space.Valid() && f !in space.Estate() && Unnamed(space.ram.mem, space.tables, f)
    modifies space`tables, space`taken, space.ram`mem, space.ram`free, space.ram`refusals
    ensures space.Valid() && space.ram.free <= old(space.ram.free) + {f}
    ensures space.ram.refusals == old(space.ram.refusals) + if ok then 0 else 1
    ensures space.Estate() == old(space.Estate()) + {f} - if ok then FrameOf(old(space.Leaf(pn))) else {}
    ensures Confined(old(space.ram.mem), space.ram.mem, old(space.Estate()) + {f})
    ensures ok ==>
      OnlyLeafChanged(old(space.ram.mem), old(space.tables), space.ram.mem, space.tables, pn, Page(f, rights, true))
    ensures !ok ==> SameLeaves(old(space.ram.mem), old(space.tables), space.ram.mem, space.tables)
  {
    assert FrameOf(Page(f, rights, true)) == {f} && f !in FrameOf(space.Leaf(pn));
    ok := space.MapPage(pn, Page(f, rights, true));
    if !ok {
      UnnamedKept(old(space.ram.mem), old(space.tables), space.ram.mem, space.tables, f);
      space.GiveBack(f);
    }
  }

  const IMAGE_FIRST: nat := USER_BASE / PAGE_SIZE
  const IMAGE_LIMIT: nat := USER_IMAGE_END / PAGE_SIZE

  /** As many pages as it takes to hold that many bytes, and no more. */
  function PageCount(memsz: nat): (n: nat)
    ensures (n - 1) * PAGE_SIZE < memsz <= n * PAGE_SIZE || n == memsz == 0
  {
    (memsz + PAGE_SIZE - 1) / PAGE_SIZE
  }

  /** Page `q` of a segment at page `pn` is in place. */
  ghost predicate SegmentPage(mem: Tables, tables: Layout, bytes: map<Frame, seq<nat>>, pn: nat, q: PageNo, rights: Rights,
                              file: seq<nat>)
  {
    pn <= q && Loaded(mem, tables, bytes, q, rights, PageImage(file, (q - pn) * PAGE_SIZE))
  }

  /** The first `n` pages of the segment are loaded. */
  ghost predicate LoadedTo(mem: Tables, tables: Layout, bytes: map<Frame, seq<nat>>, pn: nat, n: nat, rights: Rights,
                           file: seq<nat>)
  {
    n > 0 ==> pn + n <= PAGES && forall q: PageNo :: pn <= q < pn + n ==> SegmentPage(mem, tables, bytes, pn, q, rights, file)
  }

  /** Whatever the flags, no page of a loaded segment is both writable and executable from EL0. */
  lemma NeverWritableAndExecutable(mem: Tables, tables: Layout, bytes: map<Frame, seq<nat>>, pn: nat, n: nat,
                                   exec: bool, write: bool, file: seq<nat>, q: PageNo)
    requires LoadedTo(mem, tables, bytes, pn, n, SegmentRights(exec, write), file) && pn <= q < pn + n
    ensures var d := LeafAt(mem, tables, q);
      && d.Page? && UserReadable(d.rights) && !(UserWritable(d.rights) && UserExecutable(d.rights))
      && (UserExecutable(d.rights) <==> exec) && (UserWritable(d.rights) <==> write && !exec)
  {
    assert SegmentPage(mem, tables, bytes, pn, q, SegmentRights(exec, write), file);
  }

  /** Every page outside `lo..hi` translates as it did, and the pages inside lie in the image region. */
  ghost predicate ChangedWithin(m0: Tables, t0: Layout, m: Tables, t: Layout, lo: nat, hi: nat)
  {
    && (lo < hi ==> IMAGE_FIRST <= lo && hi <= IMAGE_LIMIT)
    && forall q: PageNo :: lo <= q < hi || LeafAt(m, t, q) == LeafAt(m0, t0, q)
  }

  /** `n` pages are in place, nothing else changed, and the only frames lost are those they landed on. */
  ghost predicate Progress(m0: Tables, t0: Layout, e0: set<Frame>, m: Tables, t: Layout, b: map<Frame, seq<nat>>,
                           e: set<Frame>, pn: nat, n: nat, rights: Rights, file: seq<nat>)
  {
    && LoadedTo(m, t, b, pn, n, rights, file) && ChangedWithin(m0, t0, m, t, pn, pn + n)
    && e == e0 - OwnedIn(m0, t0, pn, n) && Confined(m0, m, e0)
  }

  /** A page that was loaded stays loaded when a fresh frame is mapped at another page. */
  lemma StaysLoaded(m0: Tables, t0: Layout, b0: map<Frame, seq<nat>>, taken: set<Frame>, free: set<Frame>, root: Frame,
                    m1: Tables, t1: Layout, b1: map<Frame, seq<nat>>, q: PageNo, rights: Rights, image: seq<nat>)
    requires SpaceOk(m0, root, t0, taken, free) && Loaded(m0, t0, b0, q, rights, image)
    requires LeafAt(m1, t1, q) == LeafAt(m0, t0, q) && Confined(b0, b1, free)
    ensures Loaded(m1, t1, b1, q, rights, image)
  {
    assert NamesSafely(LeafAt(m0, t0, q), taken, free);
    assert Untouched(b0, b1, LeafAt(m0, t0, q).frame);
  }

  lemma LoadedOneMore(m1: Tables, t1: Layout, b1: map<Frame, seq<nat>>, taken: set<Frame>, free: set<Frame>, root: Frame,
                      m2: Tables, t2: Layout, b2: map<Frame, seq<nat>>, pn: nat, n: nat, rights: Rights, file: seq<nat>,
                      page: PageNo, f: Frame)
    requires SpaceOk(m1, root, t1, taken, free) && f in free && page == pn + n
    requires LoadedTo(m1, t1, b1, pn, n, rights, file)
    requires OnlyLeafChanged(m1, t1, m2, t2, page, Page(f, rights, true))
    requires b2 == b1[f := PageImage(file, n * PAGE_SIZE)]
    ensures LoadedTo(m2, t2, b2, pn, n + 1, rights, file)
  {
    assert forall g {:trigger Untouched(b1, b2, g)} :: g !in free ==> Untouched(b1, b2, g);
    forall q: PageNo | pn <= q < pn + n + 1 ensures SegmentPage(m2, t2, b2, pn, q, rights, file) {
      if q < pn + n {
        assert SegmentPage(m1, t1, b1, pn, q, rights, file);
        StaysLoaded(m1, t1, b1, taken, free, root, m2, t2, b2, q, rights, PageImage(file, (q - pn) * PAGE_SIZE));
      }
    }
  }

  lemma LoadedNoMore(m1: Tables, t1: Layout, b1: map<Frame, seq<nat>>, taken: set<Frame>, free: set<Frame>, root: Frame,
                     m2: Tables, t2: Layout, b2: map<Frame, seq<nat>>, pn: nat, n: nat, rights: Rights, file: seq<nat>)
    requires SpaceOk(m1, root, t1, taken, free) && LoadedTo(m1, t1, b1, pn, n, rights, file)
    requires SameLeaves(m1, t1, m2, t2) && Confined(b1, b2, free)
    ensures LoadedTo(m2, t2, b2, pn, n, rights, file)
  {
    if n > 0 {
      forall q: PageNo | pn <= q < pn + n ensures SegmentPage(m2, t2, b2, pn, q, rights, file) {
        assert SegmentPage(m1, t1, b1, pn, q, rights, file);
        StaysLoaded(m1, t1, b1, taken, free, root, m2, t2, b2, q, rights, PageImage(file, (q - pn) * PAGE_SIZE));
      }
    }
  }

  lemma ProgressOneMore(m0: Tables, t0: Layout, e0: set<Frame>, m1: Tables, t1: Layout, b1: map<Frame, seq<nat>>,
                        e1: set<Frame>, m2: Tables, t2: Layout, b2: map<Frame, seq<nat>>, e2: set<Frame>,
                        pn: nat, n: nat, rights: Rights, file: seq<nat>, page: PageNo, desc: Desc)
    requires Progress(m0, t0, e0, m1, t1, b1, e1, pn, n, rights, file) && page == pn + n
    requires IMAGE_FIRST <= page < IMAGE_LIMIT && LoadedTo(m2, t2, b2, pn, n + 1, rights, file)
    requires OnlyLeafChanged(m1, t1, m2, t2, page, desc)
    requires Confined(m1, m2, e1) && e2 == e1 - FrameOf(LeafAt(m1, t1, page))
    ensures Progress(m0, t0, e0, m2, t2, b2, e2, pn, n + 1, rights, file)
  {
    assert LeafAt(m1, t1, page) == LeafAt(m0, t0, page);
    ConfinedTrans(m0, m1, m2, e0, e1);
  }

  /** What is loaded of a segment accounts for every frame exactly when none of those pages owned one. */
  lemma LoadingLosesExactly(m0: Tables, root: Frame, t0: Layout, taken: set<Frame>, free: set<Frame>, m: Tables, t: Layout,
                            b: map<Frame, seq<nat>>, e: set<Frame>, pn: nat, n: nat, rights: Rights, file: seq<nat>)
    requires SpaceOk(m0, root, t0, taken, free)
    requires Progress(m0, t0, taken + free, m, t, b, e, pn, n, rights, file)
    ensures e == taken + free <==> forall q: PageNo :: pn <= q < pn + n ==> FrameOf(LeafAt(m0, t0, q)) == {}
  {
    NothingLostExactly(m0, root, t0, taken, free, pn, n);
  }

  /** Loading stays inside the estate and borrows nothing, so other spaces are left as they were. */
  lemma LoadingStaysInside(m0: Tables, t0: Layout, e0: set<Frame>, m: Tables, t: Layout, b: map<Frame, seq<nat>>,
                           e: set<Frame>, pn: nat, n: nat, rights: Rights, file: seq<nat>)
    requires Progress(m0, t0, e0, m, t, b, e, pn, n, rights, file)
    ensures Inside(m0, t0, e0, m, t, e)
  {
    forall q: PageNo ensures LeafAt(m, t, q) == LeafAt(m0, t0, q) || FreshOrGone(LeafAt(m, t, q)) {
      if pn <= q < pn + n {
        assert SegmentPage(m, t, b, pn, q, rights, file);
      }
    }
  }

  /** Bytes have been written only to frames that were free, and no frame has become free. */
  ghost predicate OnlyFreeFilled(b0: map<Frame, seq<nat>>, free0: set<Frame>, b: map<Frame, seq<nat>>, free: set<Frame>)
  {
    Confined(b0, b, free0) && free <= free0
  }

  lemma OnlyFreeFilledTrans(b0: map<Frame, seq<nat>>, free0: set<Frame>, b1: map<Frame, seq<nat>>, free1: set<Frame>,
                            b2: map<Frame, seq<nat>>, free2: set<Frame>)
    requires OnlyFreeFilled(b0, free0, b1, free1) && OnlyFreeFilled(b1, free1, b2, free2)
    ensures OnlyFreeFilled(b0, free0, b2, free2)
  {
    ConfinedTrans(b0, b1, b2, free0, free1);
  }

  /** One turn of the loop: the next page of the segment, or nothing changed. */
  method LoadNext(space: AddressSpace, source: Source, pn: nat, i: nat, rights: Rights, file: seq<nat>,
                  ghost m0: Tables, ghost t0: Layout, ghost e0: set<Frame>,
                  ghost b0: map<Frame, seq<nat>>, ghost free0: set<Frame>) returns (ok: bool)
    requires space.Valid() && OnlyFreeFilled(b0, free0, space.ram.bytes, space.ram.free)
    requires Progress(m0, t0, e0, space.ram.mem, space.tables, space.ram.bytes, space.Estate(), pn, i, rights, file)
    modifies space`tables, space`taken, space.ram, source
    ensures space.Valid() && OnlyFreeFilled(b0, free0, space.ram.bytes, space.ram.free)
    ensures ok ==> IMAGE_FIRST <= pn + i < IMAGE_LIMIT
    ensures Shortfalls(space.ram, source)
         == old(Shortfalls(space.ram, source)) + if !ok && IMAGE_FIRST <= pn + i < IMAGE_LIMIT then 1 else 0
    ensures Progress(m0, t0, e0, space.ram.mem, space.tables, space.ram.bytes, space.Estate(), pn,
                     if ok then i + 1 else i, rights, file)
  {
    if !(IMAGE_FIRST <= pn + i < IMAGE_LIMIT) {
      return false;
    }
    ghost var (m1, t1, b1, e1) := (space.ram.mem, space.tables, space.ram.bytes, space.Estate());
    ghost var (taken1, free1) := (space.taken, space.ram.free);
    var frame := LoadPage(space, source, pn + i, rights, file, i * PAGE_SIZE);
    OnlyFreeFilledTrans(b0, free0, b1, free1, space.ram.bytes, space.ram.free);
    ok := frame.Some?;
    if ok {
      LoadedOneMore(m1, t1, b1, taken1, free1, space.root, space.ram.mem, space.tables, space.ram.bytes, pn, i, rights,
                    file, pn + i, frame.value);
      ProgressOneMore(m0, t0, e0, m1, t1, b1, e1, space.ram.mem, space.tables, space.ram.bytes, space.Estate(),
                      pn, i, rights, file, pn + i, Page(frame.value, rights, true));
    } else {
      LoadedNoMore(m1, t1, b1, taken1, free1, space.root, space.ram.mem, space.tables, space.ram.bytes, pn, i, rights, file);
      ConfinedTrans(m0, m1, space.ram.mem, e0, e1);
    }
  }

  /** What the loader refuses outright, or at the first page that is not in the image region. */
  predicate Loadable(vaddr: U64, filesz: nat, memsz: U64)
  {
    && vaddr % PAGE_SIZE == 0 && filesz <= memsz
    && (memsz > 0 ==> USER_BASE <= vaddr && vaddr + PageCount(memsz) * PAGE_SIZE <= USER_IMAGE_END)
  }

  predicate InImage(pn: nat, pages: nat)
  {
    pages > 0 ==> IMAGE_FIRST <= pn && pn + pages <= IMAGE_LIMIT
  }

  /** The loop, over pages that may or may not lie in the image region. */
  method LoadPages(space: AddressSpace, source: Source, pn: nat, pages: nat, rights: Rights, file: seq<nat>)
    returns (ok: bool, ghost done: nat)
    requires space.Valid()
    modifies space`tables, space`taken, space.ram, source
    ensures space.Valid() && done <= pages && (ok ==> done == pages && InImage(pn, pages))
    ensures Shortfalls(space.ram, source) >= old(Shortfalls(space.ram, source))
    ensures InImage(pn, pages) ==>
      Shortfalls(space.ram, source) == old(Shortfalls(space.ram, source)) + if ok then 0 else 1
    ensures OnlyFreeFilled(old(space.ram.bytes), old(space.ram.free), space.ram.bytes, space.ram.free)
    ensures Progress(old(space.ram.mem), old(space.tables), old(space.Estate()),
                     space.ram.mem, space.tables, space.ram.bytes, space.Estate(), pn, done, rights, file)
  {
    ghost var (m0, t0, e0, b0, free0) := (space.ram.mem, space.tables, space.Estate(), space.ram.bytes, space.ram.free);
    for i := 0 to pages
      invariant space.Valid() && OnlyFreeFilled(b0, free0, space.ram.bytes, space.ram.free)
      invariant Shortfalls(space.ram, source) == old(Shortfalls(space.ram, source))
      invariant InImage(pn, i)
      invariant Progress(m0, t0, e0, space.ram.mem, space.tables, space.ram.bytes, space.Estate(), pn, i, rights, file)
    {
      ok := LoadNext(space, source, pn, i, rights, file, m0, t0, e0, b0, free0);
      if !ok {
        return false, i;
      }
    }
    return true, pages;
  }

  /**
   * Load a segment. It stops only for want of frames or of bytes, or because the segment is not one that
   * can be loaded. What is loaded then stays, nothing else changes, and no frame is lost unless pages it
   * landed on owned some, and then exactly those are.
   */
  method MapSegment(space: AddressSpace, source: Source, vaddr: U64, file: seq<nat>, memsz: U64, exec: bool, write: bool)
    returns (ok: bool, ghost done: nat)
    requires space.Valid()
    modifies space`tables, space`taken, space.ram, source
    ensures space.Valid() && done <= PageCount(memsz)
    ensures ok ==> done == PageCount(memsz) && Loadable(vaddr, |file|, memsz)
    ensures Shortfalls(space.ram, source) >= old(Shortfalls(space.ram, source))
    ensures Loadable(vaddr, |file|, memsz) ==>
      Shortfalls(space.ram, source) == old(Shortfalls(space.ram, source)) + if ok then 0 else 1
    ensures OnlyFreeFilled(old(space.ram.bytes), old(space.ram.free), space.ram.bytes, space.ram.free)
    ensures Progress(old(space.ram.mem), old(space.tables), old(space.Estate()),
                     space.ram.mem, space.tables, space.ram.bytes, space.Estate(),
                     vaddr / PAGE_SIZE, done, SegmentRights(exec, write), file)
  {
    if vaddr % PAGE_SIZE != 0 || |file| > memsz {
      return false, 0;
    }
    ok, done := LoadPages(space, source, vaddr / PAGE_SIZE, PageCount(memsz), SegmentRights(exec, write), file);
  }

  /** Page by page is the same as one flat copy: every byte of every page reads as the segment says. */
  lemma SegmentIsFlatCopy(mem: Tables, tables: Layout, bytes: map<Frame, seq<nat>>, pn: nat, n: nat, rights: Rights,
                          file: seq<nat>, va: nat)
    requires LoadedTo(mem, tables, bytes, pn, n, rights, file)
    requires pn * PAGE_SIZE <= va < (pn + n) * PAGE_SIZE
    ensures va < PAGES * PAGE_SIZE && Reads(mem, tables, bytes, va, Flat(file, va - pn * PAGE_SIZE))
  {
    var q: PageNo := va / PAGE_SIZE;
    assert SegmentPage(mem, tables, bytes, pn, q, rights, file);
    PageImageIsFlat(file, (q - pn) * PAGE_SIZE, va % PAGE_SIZE);
  }
}
