/**
 * The operations of `Growth` and `Unmapping` on one live address space, each shown to be a step of the
 * abstract machine of `Growth`: so the pages they map are absent because every run says so, and not
 * because a caller promised it. Threads of a process may call them in any order.
 */
module Processes {
  import opened Common
  import opened PageTables
  import opened Ownership
  import opened AddressSpaces
  import opened Growth
  import Loading
  import Unmapping
  import Teardown

  /** Exactly these pages are mapped. */
  ghost predicate Agrees(mem: Tables, tables: Layout, mapped: set<nat>)
  {
    forall q: PageNo :: LeafAt(mem, tables, q).Page? <==> q in mapped
  }

  /** Mapping a page that was absent keeps both the record of pages and the cached translations right. */
  lemma AgreesOneMore(m0: Tables, t0: Layout, m1: Tables, t1: Layout, tlb: Unmapping.Tlb, mapped: set<nat>,
                      pn: PageNo, desc: Desc)
    requires Agrees(m0, t0, mapped) && Unmapping.Coherent(m0, t0, tlb) && pn !in mapped && desc.Page?
    requires OnlyLeafChanged(m0, t0, m1, t1, pn, desc)
    ensures Agrees(m1, t1, mapped + {pn}) && Unmapping.Coherent(m1, t1, tlb)
  {
  }

  lemma AgreesStill(m0: Tables, t0: Layout, m1: Tables, t1: Layout, tlb: Unmapping.Tlb, mapped: set<nat>)
    requires Agrees(m0, t0, mapped) && Unmapping.Coherent(m0, t0, tlb) && SameLeaves(m0, t0, m1, t1)
    ensures Agrees(m1, t1, mapped) && Unmapping.Coherent(m1, t1, tlb)
  {
  }

  lemma RunOneMore(s: State, es: seq<Event>, now: State, e: Event, next: State)
    requires now == Run(s, es) && next == Step(now, e)
    ensures next == Run(s, es + [e])
  {
    var all := es + [e];
    assert all[..|all| - 1] == es && all[|all| - 1] == e;
  }

  ghost function Pages(first: nat, n: nat): set<nat>
  {
    if n == 0 then {} else Pages(first, n - 1) + {first + n - 1}
  }

  lemma {:induction false} PagesFrom(first: nat, n: nat)
    ensures forall p :: p in Pages(first, n) <==> first <= p < first + n
  {
    if n > 0 {
      PagesFrom(first, n - 1);
    }
  }

  /** The first `n` pages of reservation `r`, none of them mapped before, are what has been mapped since. */
  ghost predicate Reached(was: State, now: State, r: nat, first: nat, pages: nat, n: nat)
  {
    && r < |now.runs| == |was.runs| && now.runs[r] == Reservation(first, pages, n)
    && now.mapped == was.mapped + Pages(first, n) && was.mapped !! Pages(first, n)
  }

  lemma ReachedOneMore(was: State, s: State, r: nat, first: nat, pages: nat, n: nat)
    requires Reached(was, s, r, first, pages, n) && n < pages && first + n !in s.mapped
    ensures Reached(was, Step(s, MapNext(r)), r, first, pages, n + 1)
  {
  }

  // ---- A program loaded into a new space ----

  ghost predicate OffHeap(pages: set<nat>)
  {
    forall p :: p in pages ==> !(HEAP_FIRST <= p < HEAP_LIMIT)
  }

  datatype Segment = Segment(vaddr: U64, file: seq<nat>, memsz: U64, exec: bool, write: bool)

  /** Loading part of a segment adds exactly those pages, none of them in the heap region. */
  lemma LoadedPages(m0: Tables, t0: Layout, e0: set<Frame>, m: Tables, t: Layout, b: map<Frame, seq<nat>>, e: set<Frame>,
                    pn: nat, n: nat, rights: Rights, file: seq<nat>, pages: set<nat>)
    requires Loading.Progress(m0, t0, e0, m, t, b, e, pn, n, rights, file) && Agrees(m0, t0, pages) && OffHeap(pages)
    ensures Agrees(m, t, pages + Pages(pn, n)) && OffHeap(pages + Pages(pn, n))
  {
    PagesFrom(pn, n);
    forall q: PageNo ensures LeafAt(m, t, q).Page? <==> q in pages + Pages(pn, n) {
      if pn <= q < pn + n {
        assert Loading.SegmentPage(m, t, b, pn, q, rights, file);
      }
    }
  }

  predicate InRange(seg: Segment, q: nat)
  {
    seg.vaddr / PAGE_SIZE <= q < seg.vaddr / PAGE_SIZE + Loading.PageCount(seg.memsz)
  }

  /** No two segments of the program share a page. */
  ghost predicate SegmentsApart(segments: seq<Segment>)
  {
    forall i, j, q :: 0 <= i < j < |segments| && InRange(segments[i], q) ==> !InRange(segments[j], q)
  }

  /** None of these pages is in the way of the segments from the `k`th on. */
  ghost predicate LeavesRoom(pages: set<nat>, segments: seq<Segment>, k: nat)
  {
    forall j, q :: k <= j < |segments| && q in pages && Loading.IMAGE_FIRST <= q < Loading.IMAGE_LIMIT ==>
      !InRange(segments[j], q)
  }

  /** A segment loaded where nothing was mapped costs no frame, and leaves room for the rest. */
  lemma RoomKept(m0: Tables, root: Frame, t0: Layout, taken: set<Frame>, free: set<Frame>, pages: set<nat>,
                 segments: seq<Segment>, k: nat, n: nat)
    requires k < |segments| && LeavesRoom(pages, segments, k) && SegmentsApart(segments)
    requires SpaceOk(m0, root, t0, taken, free) && Agrees(m0, t0, pages) && n <= Loading.PageCount(segments[k].memsz)
    requires var pn := segments[k].vaddr / PAGE_SIZE;
      n > 0 ==> Loading.IMAGE_FIRST <= pn && pn + n <= Loading.IMAGE_LIMIT
    ensures var pn := segments[k].vaddr / PAGE_SIZE;
      OwnedIn(m0, t0, pn, n) == {} && LeavesRoom(pages + Pages(pn, n), segments, k + 1)
  {
    var pn := segments[k].vaddr / PAGE_SIZE;
    PagesFrom(pn, n);
    forall q: PageNo | pn <= q < pn + n ensures FrameOf(LeafAt(m0, t0, q)) == {} {
      assert InRange(segments[k], q);
    }
    OwnedInRange(m0, t0, taken, pn, n);
    forall j, q | k + 1 <= j < |segments| && q in pages + Pages(pn, n) && Loading.IMAGE_FIRST <= q < Loading.IMAGE_LIMIT
      ensures !InRange(segments[j], q)
    {
      assert q !in pages ==> InRange(segments[k], q);
    }
  }

  /** What loading has done so far: exactly `all` is mapped, and without overlaps every frame is accounted for. */
  ghost predicate LoadedSoFar(space: AddressSpace, segments: seq<Segment>, k: nat, pages: set<nat>, all: set<nat>,
                              estate: set<Frame>)
    reads space, space.ram
  {
    && Agrees(space.ram.mem, space.tables, all) && OffHeap(all) && pages <= all && space.Estate() <= estate
    && (SegmentsApart(segments) && LeavesRoom(pages, segments, 0) ==>
          space.Estate() == estate && LeavesRoom(all, segments, k))
  }

  /** The first `k` segments are all in place: every page of theirs owns a frame, and if none was lost none is shared. */
  ghost predicate LoadedWell(mem: Tables, tables: Layout, now: set<Frame>, segments: seq<Segment>, k: nat, estate: set<Frame>)
    requires k <= |segments|
  {
    && (forall i, q :: 0 <= i < k && InRange(segments[i], q) ==> OwnsFrame(mem, tables, q))
    && now <= estate && (now == estate ==> SegmentsApart(segments[..k]))
  }

  ghost predicate OwnsFrame(mem: Tables, tables: Layout, q: nat)
  {
    q < PAGES && FrameOf(LeafAt(mem, tables, q)) != {}
  }

  /** A whole segment more: landing on a page of an earlier one would have lost that page's frame. */
  lemma WellOneMore(m0: Tables, root: Frame, t0: Layout, taken: set<Frame>, free: set<Frame>, m: Tables, t: Layout,
                    b: map<Frame, seq<nat>>, e: set<Frame>, segments: seq<Segment>, k: nat, rights: Rights, estate: set<Frame>)
    requires k < |segments| && SpaceOk(m0, root, t0, taken, free)
    requires LoadedWell(m0, t0, taken + free, segments, k, estate)
    requires var seg := segments[k];
      Loading.Progress(m0, t0, taken + free, m, t, b, e, seg.vaddr / PAGE_SIZE, Loading.PageCount(seg.memsz), rights, seg.file)
    ensures LoadedWell(m, t, e, segments, k + 1, estate)
  {
    var seg := segments[k];
    var (pn, n) := (seg.vaddr / PAGE_SIZE, Loading.PageCount(seg.memsz));
    forall i, q: nat | 0 <= i < k + 1 && InRange(segments[i], q) ensures OwnsFrame(m, t, q) {
      if pn <= q < pn + n {
        assert Loading.SegmentPage(m, t, b, pn, q, rights, seg.file);
      } else {
        assert OwnsFrame(m0, t0, q);
      }
    }
    OwnedInRange(m0, t0, taken, pn, n);
    if e == estate {
      var lost := OwnedIn(m0, t0, pn, n);
      assert lost == {} by {
        assert lost <= taken + free && taken + free <= estate == (taken + free) - lost;
      }
      assert taken + free == estate;
      assert segments[..k + 1][..k] == segments[..k];
      forall i, j, q | 0 <= i < j < k + 1 && InRange(segments[i], q) ensures !InRange(segments[j], q) {
        if j == k {
          assert OwnsFrame(m0, t0, q);
        } else {
          assert InRange(segments[..k][i], q);
          assert !InRange(segments[..k][j], q);
        }
      }
    }
  }

  /** All of this segment's pages are in place, with their bytes and rights. */
  ghost predicate SegmentIn(mem: Tables, tables: Layout, bytes: map<Frame, seq<nat>>, seg: Segment)
  {
    Loading.LoadedTo(mem, tables, bytes, seg.vaddr / PAGE_SIZE, Loading.PageCount(seg.memsz),
                     Loading.SegmentRights(seg.exec, seg.write), seg.file)
  }

  /** The first `k` segments are in place. */
  ghost predicate ProgramIn(mem: Tables, tables: Layout, bytes: map<Frame, seq<nat>>, segments: seq<Segment>, k: nat)
    requires k <= |segments|
  {
    forall i :: 0 <= i < k ==> SegmentIn(mem, tables, bytes, segments[i])
  }

  /** A segment in place stays so while pages that are not its own are loaded. */
  lemma SegmentKept(m0: Tables, root: Frame, t0: Layout, taken: set<Frame>, free: set<Frame>, b0: map<Frame, seq<nat>>,
                    m: Tables, t: Layout, b: map<Frame, seq<nat>>, seg: Segment, pn: nat, n: nat)
    requires SpaceOk(m0, root, t0, taken, free) && SegmentIn(m0, t0, b0, seg)
    requires Loading.ChangedWithin(m0, t0, m, t, pn, pn + n) && Confined(b0, b, free)
    requires forall q: nat :: pn <= q < pn + n ==> !InRange(seg, q)
    ensures SegmentIn(m, t, b, seg)
  {
    var (first, count) := (seg.vaddr / PAGE_SIZE, Loading.PageCount(seg.memsz));
    var rights := Loading.SegmentRights(seg.exec, seg.write);
    if count > 0 {
      forall q: PageNo | first <= q < first + count ensures Loading.SegmentPage(m, t, b, first, q, rights, seg.file) {
        assert Loading.SegmentPage(m0, t0, b0, first, q, rights, seg.file);
        assert InRange(seg, q);
        Loading.StaysLoaded(m0, t0, b0, taken, free, root, m, t, b, q, rights,
                            Loading.PageImage(seg.file, (q - first) * PAGE_SIZE));
      }
    }
  }

  /** A whole segment more, where no two share a page. */
  lemma ProgramOneMore(m0: Tables, root: Frame, t0: Layout, taken: set<Frame>, free: set<Frame>, b0: map<Frame, seq<nat>>,
                       m: Tables, t: Layout, b: map<Frame, seq<nat>>, e: set<Frame>, segments: seq<Segment>, k: nat)
    requires k < |segments| && SpaceOk(m0, root, t0, taken, free) && ProgramIn(m0, t0, b0, segments, k)
    requires SegmentsApart(segments) && Confined(b0, b, free)
    requires var seg := segments[k];
      Loading.Progress(m0, t0, taken + free, m, t, b, e, seg.vaddr / PAGE_SIZE, Loading.PageCount(seg.memsz),
                       Loading.SegmentRights(seg.exec, seg.write), seg.file)
    ensures ProgramIn(m, t, b, segments, k + 1)
  {
    var seg := segments[k];
    forall i | 0 <= i < k ensures SegmentIn(m, t, b, segments[i]) {
      assert SegmentIn(m0, t0, b0, segments[i]);
      forall q: nat | InRange(seg, q) ensures !InRange(segments[i], q) {
      }
      SegmentKept(m0, root, t0, taken, free, b0, m, t, b, segments[i], seg.vaddr / PAGE_SIZE, Loading.PageCount(seg.memsz));
    }
  }

  predicate IsLoadable(seg: Segment)
  {
    Loading.Loadable(seg.vaddr, |seg.file|, seg.memsz)
  }

  /** The pages the first `k` segments ask for. */
  ghost function PagesOf(segments: seq<Segment>, k: nat): set<nat>
    requires k <= |segments|
  {
    if k == 0 then {}
    else PagesOf(segments, k - 1) + Pages(segments[k - 1].vaddr / PAGE_SIZE, Loading.PageCount(segments[k - 1].memsz))
  }

  /** The first `k` segments are in place: all their pages mapped, and with their bytes unless some share a page. */
  ghost predicate AllIn(space: AddressSpace, segments: seq<Segment>, k: nat, pages: set<nat>, all: set<nat>, estate: set<Frame>)
    requires k <= |segments|
    reads space, space.ram
  {
    && all == pages + PagesOf(segments, k)
    && LoadedWell(space.ram.mem, space.tables, space.Estate(), segments, k, estate)
    && (SegmentsApart(segments) ==> ProgramIn(space.ram.mem, space.tables, space.ram.bytes, segments, k))
  }

  /** The first `k` segments are such as can be loaded. */
  predicate AllLoadable(segments: seq<Segment>, k: nat)
    requires k <= |segments|
  {
    forall i :: 0 <= i < k ==> IsLoadable(segments[i])
  }

  /** So far all went well exactly if every segment could be loaded and there was always enough of everything. */
  ghost predicate FailedRightly(segments: seq<Segment>, k: nat, ok: bool, shortfalls: int)
    requires k <= |segments|
  {
    shortfalls >= 0 && (ok ==> AllLoadable(segments, k)) && (AllLoadable(segments, k) ==> (ok <==> shortfalls == 0))
  }

  /** One segment of the program. */
  method LoadOne(space: AddressSpace, source: Loading.Source, segments: seq<Segment>, k: nat, ghost pages: set<nat>,
                 ghost all: set<nat>, ghost estate: set<Frame>) returns (ok: bool, ghost all': set<nat>)
    requires space.Valid() && k < |segments| && LoadedSoFar(space, segments, k, pages, all, estate)
    modifies space`tables, space`taken, space.ram, source
    ensures space.Valid() && LoadedSoFar(space, segments, k + 1, pages, all', estate)
    ensures ok ==> IsLoadable(segments[k])
    ensures IsLoadable(segments[k]) ==>
      Loading.Shortfalls(space.ram, source) == old(Loading.Shortfalls(space.ram, source)) + if ok then 0 else 1
    ensures Loading.Shortfalls(space.ram, source) >= old(Loading.Shortfalls(space.ram, source))
    ensures ok && old(AllIn(space, segments, k, pages, all, estate)) ==> AllIn(space, segments, k + 1, pages, all', estate)
  {
    var seg := segments[k];
    ghost var (m0, t0, e0, taken0, free0) := (space.ram.mem, space.tables, space.Estate(), space.taken, space.ram.free);
    ghost var (b0, wasIn) := (space.ram.bytes, AllIn(space, segments, k, pages, all, estate));
    ghost var done;
    ok, done := Loading.MapSegment(space, source, seg.vaddr, seg.file, seg.memsz, seg.exec, seg.write);
    LoadedPages(m0, t0, e0, space.ram.mem, space.tables, space.ram.bytes, space.Estate(), seg.vaddr / PAGE_SIZE, done,
                Loading.SegmentRights(seg.exec, seg.write), seg.file, all);
    all' := all + Pages(seg.vaddr / PAGE_SIZE, done);
    if SegmentsApart(segments) && LeavesRoom(pages, segments, 0) {
      RoomKept(m0, space.root, t0, taken0, free0, all, segments, k, done);
    }
    if ok && wasIn {
      AllInOneMore(space, m0, t0, taken0, free0, b0, segments, k, pages, all, estate);
    }
  }

  lemma AllInOneMore(space: AddressSpace, m0: Tables, t0: Layout, taken: set<Frame>, free: set<Frame>, b0: map<Frame, seq<nat>>,
                     segments: seq<Segment>, k: nat, pages: set<nat>, all: set<nat>, estate: set<Frame>)
    requires k < |segments| && SpaceOk(m0, space.root, t0, taken, free)
    requires all == pages + PagesOf(segments, k) && LoadedWell(m0, t0, taken + free, segments, k, estate)
    requires SegmentsApart(segments) ==> ProgramIn(m0, t0, b0, segments, k)
    requires Confined(b0, space.ram.bytes, free)
    requires var seg := segments[k];
      Loading.Progress(m0, t0, taken + free, space.ram.mem, space.tables, space.ram.bytes, space.Estate(),
                       seg.vaddr / PAGE_SIZE, Loading.PageCount(seg.memsz), Loading.SegmentRights(seg.exec, seg.write), seg.file)
    ensures var seg := segments[k];
      AllIn(space, segments, k + 1, pages, all + Pages(seg.vaddr / PAGE_SIZE, Loading.PageCount(seg.memsz)), estate)
  {
    var seg := segments[k];
    WellOneMore(m0, space.root, t0, taken, free, space.ram.mem, space.tables, space.ram.bytes, space.Estate(),
                segments, k, Loading.SegmentRights(seg.exec, seg.write), estate);
    if SegmentsApart(segments) {
      ProgramOneMore(m0, space.root, t0, taken, free, b0, space.ram.mem, space.tables, space.ram.bytes, space.Estate(),
                     segments, k);
    }
  }

  /** What the loop keeps. */
  ghost predicate SoFar(space: AddressSpace, segments: seq<Segment>, k: nat, pages: set<nat>, all: set<nat>,
                           estate: set<Frame>, ok: bool, shortfalls: int)
    requires k <= |segments|
    reads space, space.ram
  {
    && LoadedSoFar(space, segments, k, pages, all, estate) && FailedRightly(segments, k, ok, shortfalls)
    && (ok ==> AllIn(space, segments, k, pages, all, estate))
  }

  /** One turn of the loop. */
  method LoadAnother(space: AddressSpace, source: Loading.Source, segments: seq<Segment>, k: nat, was: bool,
                     ghost pages: set<nat>, ghost all: set<nat>, ghost estate: set<Frame>, ghost before: nat)
    returns (ok: bool, ghost all': set<nat>)
    requires space.Valid() && k < |segments|
    requires SoFar(space, segments, k, pages, all, estate, was, Loading.Shortfalls(space.ram, source) - before)
    modifies space`tables, space`taken, space.ram, source
    ensures space.Valid()
    ensures SoFar(space, segments, k + 1, pages, all', estate, ok, Loading.Shortfalls(space.ram, source) - before)
  {
    ok, all' := LoadOne(space, source, segments, k, pages, all, estate);
    ok := was && ok;
  }

  /**
   * Load every segment; one that cannot be loaded does not stop the rest, but is reported. If no two share
   * a page and none was in the way, no frame is lost, however far each of them got; and if all of them were
   * loaded and two do share a page, one is.
   */
  method LoadSegments(space: AddressSpace, source: Loading.Source, segments: seq<Segment>, ghost pages: set<nat>)
    returns (ok: bool, ghost all: set<nat>)
    requires space.Valid() && Agrees(space.ram.mem, space.tables, pages) && OffHeap(pages)
    modifies space`tables, space`taken, space.ram, source
    ensures space.Valid() && LoadedSoFar(space, segments, |segments|, pages, all, old(space.Estate()))
    ensures FailedRightly(segments, |segments|, ok,
                          Loading.Shortfalls(space.ram, source) - old(Loading.Shortfalls(space.ram, source)))
    ensures ok ==> all == pages + PagesOf(segments, |segments|)
    ensures ok && space.Estate() == old(space.Estate()) ==> SegmentsApart(segments)
    ensures ok && SegmentsApart(segments) ==>
      ProgramIn(space.ram.mem, space.tables, space.ram.bytes, segments, |segments|)
  {
    ok, all := true, pages;
    ghost var (before, estate) := (Loading.Shortfalls(space.ram, source), space.Estate());
    for k := 0 to |segments|
      invariant space.Valid()
      invariant SoFar(space, segments, k, pages, all, estate, ok, Loading.Shortfalls(space.ram, source) - before)
    {
      ok, all := LoadAnother(space, source, segments, k, ok, pages, all, estate, before);
    }
    assert segments[..|segments|] == segments;
  }

  /**
   * A new space, a program loaded into it, and a process over the result: or the space taken down again,
   * with the pool exactly as it was unless segments overlapped. It fails exactly if a segment is not one
   * that can be loaded, or pool or source had nothing to give. A process accounts for every frame exactly
   * when no two of its segments share a page, and then every segment is in place.
   */
  method Launch(ram: Ram, source: Loading.Source, segments: seq<Segment>) returns (p: Process?)
    modifies ram, source
    ensures p != null ==> fresh(p) && p.Valid() && p.space.ram == ram
    ensures p != null ==> p.now == State({Teardown.DATA_PAGE, Teardown.STACK_PAGE} + PagesOf(segments, |segments|), HEAP_FIRST, [])
    ensures FailedRightly(segments, |segments|, p != null,
                          Loading.Shortfalls(ram, source) - old(Loading.Shortfalls(ram, source)))
    ensures (if p == null then ram.free else p.space.Estate()) <= old(ram.free)
    ensures SegmentsApart(segments) ==> (if p == null then ram.free else p.space.Estate()) == old(ram.free)
    ensures p != null ==> (p.space.Estate() == old(ram.free) <==> SegmentsApart(segments))
    ensures p != null && SegmentsApart(segments) ==> ProgramIn(ram.mem, p.space.tables, ram.bytes, segments, |segments|)
  {
    var space := Teardown.New(ram);
    if space == null {
      return null;
    }
    ghost var first: set<nat> := {Teardown.DATA_PAGE, Teardown.STACK_PAGE};
    assert LeavesRoom(first, segments, 0);
    p := Start(space, source, segments, first);
  }

  /** The program loaded into a space just made, and a process over the result: or the space taken down again. */
  method Start(space: AddressSpace, source: Loading.Source, segments: seq<Segment>, ghost pages: set<nat>)
    returns (p: Process?)
    requires space.Valid() && space.heapNext == USER_HEAP_BASE && space.tlb == {}
    requires Agrees(space.ram.mem, space.tables, pages) && OffHeap(pages) && LeavesRoom(pages, segments, 0)
    modifies space, space.ram, source
    ensures FailedRightly(segments, |segments|, p != null,
                          Loading.Shortfalls(space.ram, source) - old(Loading.Shortfalls(space.ram, source)))
    ensures p != null ==>
      && fresh(p) && p.Valid() && p.space == space
      && p.now == State(pages + PagesOf(segments, |segments|), HEAP_FIRST, [])
      && (space.Estate() == old(space.Estate()) <==> SegmentsApart(segments)) && space.Estate() <= old(space.Estate())
      && (SegmentsApart(segments) ==>
            ProgramIn(space.ram.mem, space.tables, space.ram.bytes, segments, |segments|))
    ensures p == null ==>
      space.ram.free <= old(space.Estate()) && (SegmentsApart(segments) ==> space.ram.free == old(space.Estate()))
  {
    var ok;
    ghost var all;
    ok, all := LoadSegments(space, source, segments, pages);
    if !ok {
      Teardown.Destroy(space);
      return null;
    }
    p := new Process(space, all);
  }

  /** A program of two segments on one page of the image region, each good by itself: launching it loses a frame. */
  lemma OverlappingProgram()
    ensures var text := Segment(USER_BASE, [1], PAGE_SIZE, true, false);
      var data := Segment(USER_BASE, [2], PAGE_SIZE, false, true);
      && !SegmentsApart([text, data]) && SegmentsApart([text]) && SegmentsApart([data])
      && InRange(text, Loading.IMAGE_FIRST) && InRange(data, Loading.IMAGE_FIRST)
  {
    var program := [Segment(USER_BASE, [1], PAGE_SIZE, true, false), Segment(USER_BASE, [2], PAGE_SIZE, false, true)];
    assert InRange(program[0], Loading.IMAGE_FIRST) && InRange(program[1], Loading.IMAGE_FIRST);
  }

  /** The shortest way to lose a frame: map the same page twice. */
  method MapTwice(space: AddressSpace, pn: PageNo) returns (first: Option<Frame>, second: Option<Frame>)
    requires space.Valid() && FrameOf(space.Leaf(pn)) == {}
    modifies space`tables, space`taken, space.ram
    ensures space.Valid()
    ensures first.Some? && second.Some? ==> first.value in old(space.Estate()) && space.Estate() == old(space.Estate()) - {first.value}
    ensures first.None? || second.None? ==> space.Estate() == old(space.Estate())
  {
    first := space.MapFresh(pn);
    if first.None? {
      return first, None;
    }
    assert FrameOf(space.Leaf(pn)) == {first.value};
    second := space.MapFresh(pn);
  }

  /** What every new space answers about an address 2^48 above its data page: allowed, though nothing is there. */
  lemma NewSpaceMisanswers(space: AddressSpace)
    requires MapsExactly(space.ram.mem, space.tables, {Teardown.DATA_PAGE, Teardown.STACK_PAGE})
    ensures var va := PAGES * PAGE_SIZE + USER_DATA_VA;
      Unmapping.RangeAllowed(space, va, 1, false) && !Unmapping.PagesGrant(space, va, 1, false)
  {
    var va := PAGES * PAGE_SIZE + USER_DATA_VA;
    forall page: nat | va / PAGE_SIZE <= page && page * PAGE_SIZE < va + 1
      ensures page % PAGES == Teardown.DATA_PAGE && page >= PAGES
    {
      assert page == PAGES + Teardown.DATA_PAGE;
    }
    var page := va / PAGE_SIZE;
    assert page * PAGE_SIZE < va + 1 && page >= PAGES;
  }

  class Process {
    const space: AddressSpace
    /** The history of this address space: how it began and every step since. */
    ghost var began: State
    ghost var steps: seq<Event>
    ghost var now: State

    ghost predicate Valid()
      reads this, space, space.ram
    {
      && space.Valid() && Initial(began) && now == Run(began, steps)
      && Unmapping.Coherent(space.ram.mem, space.tables, space.tlb)
      && Agrees(space.ram.mem, space.tables, now.mapped)
      && space.heapNext == now.heapNext * PAGE_SIZE
    }

    /** A space as the kernel creates it, with any program loaded: exactly `pages` mapped, and an empty heap. */
    constructor (built: AddressSpace, ghost pages: set<nat>)
      requires built.Valid() && built.heapNext == USER_HEAP_BASE
      requires Unmapping.Coherent(built.ram.mem, built.tables, built.tlb)
      requires Agrees(built.ram.mem, built.tables, pages) && OffHeap(pages)
      ensures Valid() && space == built && now == State(pages, HEAP_FIRST, [])
    {
      space := built;
      began, steps, now := State(pages, HEAP_FIRST, []), [], State(pages, HEAP_FIRST, []);
    }

    ghost method Record(e: Event)
      requires now == Run(began, steps)
      modifies this`steps, this`now
      ensures now == Step(old(now), e) && now == Run(began, steps)
    {
      var next := Step(now, e);
      RunOneMore(began, steps, now, e, next);
      steps, now := steps + [e], next;
    }

    /** `reserve_anon`: only the cursor moves. */
    method Reserve(pages: U64) returns (first: Option<nat>)
      requires Valid()
      modifies this, space`heapNext
      ensures Valid() && now == Step(old(now), Growth.Reserve(pages))
      ensures space.Estate() == old(space.Estate())
      ensures first.Some? ==>
        && now.runs == old(now).runs + [Reservation(first.value, pages, 0)]
        && HEAP_FIRST <= first.value && first.value + pages <= HEAP_LIMIT
      ensures first.Some? <==> ReserveAnon(old(space.heapNext), pages).Some?
      ensures first.Some? ==> first.value * PAGE_SIZE == old(space.heapNext)
      ensures first.None? ==> now == old(now)
    {
      RunKeepsInv(began, steps);
      Record(Growth.Reserve(pages));
      if pages == 0 || pages * PAGE_SIZE >= TWO_64 || space.heapNext + pages * PAGE_SIZE >= TWO_64 {
        return None;
      }
      if space.heapNext + pages * PAGE_SIZE > USER_HEAP_END {
        return None;
      }
      first := Some(space.heapNext / PAGE_SIZE);
      space.heapNext := space.heapNext + pages * PAGE_SIZE;
    }

    /** One turn of the loop of `map_anon_at`: the next page of reservation `r`, unless the pool is empty. */
    method MapNextPage(page: PageNo, ghost r: nat) returns (ok: bool)
      requires Valid() && Target(now, MapNext(r)) == Some(page)
      modifies this, space`tables, space`taken, space.ram
      ensures Valid() && space.Estate() == old(space.Estate())
      ensures old(page !in now.mapped) && space.Leaf(page).Page? == ok && (ok ==> FreshPage(space.Leaf(page)))
      ensures space.ram.refusals == old(space.ram.refusals) + if ok then 0 else 1
      ensures Inside(old(space.ram.mem), old(space.tables), old(space.Estate()), space.ram.mem, space.tables, space.Estate())
      ensures now == if ok then Step(old(now), MapNext(r)) else old(now)
    {
      ghost var (m0, t0, was) := (space.ram.mem, space.tables, now);
      RunKeepsInv(began, steps);
      StepKeepsInv(was, MapNext(r));
      InvalidUnlessPage(m0, space.root, t0, page);
      assert FrameOf(space.Leaf(page)) == {};
      var frame := space.MapFresh(page);
      if frame.None? {
        AgreesStill(m0, t0, space.ram.mem, space.tables, space.tlb, was.mapped);
        return false;
      }
      AgreesOneMore(m0, t0, space.ram.mem, space.tables, space.tlb, was.mapped, page, Page(frame.value, Data, true));
      Record(MapNext(r));
      return true;
    }

    /** The same, as progress on one reservation since `was`. */
    method ExtendByOne(first: nat, pages: nat, i: nat, ghost r: nat, ghost was: State) returns (ok: bool)
      requires Valid() && i < pages && first + pages <= PAGES && Reached(was, now, r, first, pages, i)
      modifies this, space`tables, space`taken, space.ram
      ensures Valid() && space.Estate() == old(space.Estate())
      ensures Reached(was, now, r, first, pages, if ok then i + 1 else i)
      ensures space.ram.refusals == old(space.ram.refusals) + if ok then 0 else 1
      ensures Inside(old(space.ram.mem), old(space.tables), old(space.Estate()), space.ram.mem, space.tables, space.Estate())
    {
      ghost var before := now;
      ok := MapNextPage(first + i, r);
      if ok {
        ReachedOneMore(was, before, r, first, pages, i);
      }
    }

    /** `map_anon_at` over a whole reservation. A run cut short by an empty pool keeps its pages. */
    method MapReserved(first: nat, pages: nat, ghost r: nat) returns (ok: bool, ghost n: nat)
      requires Valid() && r < |now.runs| && now.runs[r] == Reservation(first, pages, 0) && first + pages <= PAGES
      modifies this, space`tables, space`taken, space.ram
      ensures Valid() && space.Estate() == old(space.Estate())
      ensures n <= pages && (ok <==> n == pages) && Reached(old(now), now, r, first, pages, n)
      ensures space.ram.refusals == old(space.ram.refusals) + if ok then 0 else 1
      ensures Inside(old(space.ram.mem), old(space.tables), old(space.Estate()), space.ram.mem, space.tables, space.Estate())
    {
      ghost var (was, m0, t0, e0) := (now, space.ram.mem, space.tables, space.Estate());
      for i := 0 to pages
        invariant Valid() && space.Estate() == old(space.Estate()) && Reached(was, now, r, first, pages, i)
        invariant Inside(m0, t0, e0, space.ram.mem, space.tables, space.Estate())
        invariant space.ram.refusals == old(space.ram.refusals)
      {
        ghost var (m1, t1, e1) := (space.ram.mem, space.tables, space.Estate());
        ok := ExtendByOne(first, pages, i, r, was);
        InsideTrans(m0, t0, e0, m1, t1, e1, space.ram.mem, space.tables, space.Estate());
        if !ok {
          return false, i;
        }
      }
      return true, pages;
    }

    /**
     * `map_anon`: reserve, then map. No address is answered exactly if the request does not fit, and then
     * nothing happens, or if the pool ran dry before all of the run was mapped.
     */
    method MapAnon(pages: U64) returns (first: Option<nat>)
      requires Valid()
      modifies this, space`heapNext, space`tables, space`taken, space.ram
      ensures Valid() && space.Estate() == old(space.Estate())
      ensures old(now).mapped <= now.mapped
      ensures Inside(old(space.ram.mem), old(space.tables), old(space.Estate()), space.ram.mem, space.tables, space.Estate())
      ensures first.Some? ==>
        && HEAP_FIRST <= first.value && first.value + pages <= HEAP_LIMIT
        && first.value * PAGE_SIZE == old(space.heapNext)
        && forall p :: first.value <= p < first.value + pages ==> p in now.mapped && p !in old(now).mapped
      ensures first.None? && ReserveAnon(old(space.heapNext), pages).None? ==> now == old(now)
      ensures first.None? && ReserveAnon(old(space.heapNext), pages).Some? ==>
        |now.runs| == |old(now).runs| + 1 && now.runs[|old(now).runs|].done < pages
      ensures space.ram.refusals == old(space.ram.refusals)
        + if first.None? && ReserveAnon(old(space.heapNext), pages).Some? then 1 else 0
    {
      ghost var r := |now.runs|;
      first := Reserve(pages);
      if first.Some? {
        var ok, _ := MapReserved(first.value, pages, r);
        PagesFrom(first.value, pages);
        if !ok {
          first := None;
        }
      }
    }

    /** A fault at any address at all: at most one page, in the stack region, where there was none. */
    method Fault(far: U64) returns (grew: bool)
      requires Valid()
      modifies this, space`tables, space`taken, space.ram
      ensures Valid() && space.Estate() == old(space.Estate())
      ensures grew ==> FaultGrows(old(now), far, false)
      ensures now == Step(old(now), Growth.Fault(far, !grew))
      ensures space.ram.refusals == old(space.ram.refusals) + if FaultGrows(old(now), far, false) && !grew then 1 else 0
      ensures Inside(old(space.ram.mem), old(space.tables), old(space.Estate()), space.ram.mem, space.tables, space.Estate())
    {
      ghost var (m0, t0, was) := (space.ram.mem, space.tables, now);
      grew := GrowStack(space, far);
      ghost var page := far / PAGE_SIZE;
      if grew {
        ghost var f :| OnlyLeafChanged(m0, t0, space.ram.mem, space.tables, page, Page(f, Data, true));
        assert !LeafAt(m0, t0, page).Page?;
        AgreesOneMore(m0, t0, space.ram.mem, space.tables, space.tlb, was.mapped, page, Page(f, Data, true));
      } else {
        AgreesStill(m0, t0, space.ram.mem, space.tables, space.tlb, was.mapped);
      }
      Record(Growth.Fault(far, !grew));
    }

    /** `unmap`: the memory goes back, the addresses do not; the cursor never moves back. */
    method UnmapRange(pn: nat, pages: nat) returns (removed: nat)
      requires Valid() && pn + pages <= PAGES
      modifies this, space`taken, space`tlb, space.ram`mem, space.ram`free
      ensures Valid() && space.Estate() == old(space.Estate())
      ensures now == Step(old(now), Growth.Unmap(pn, pages))
      ensures removed == Unmapping.Mapped(old(space.ram.mem), space.tables, pn, pages)
      ensures Inside(old(space.ram.mem), old(space.tables), old(space.Estate()), space.ram.mem, space.tables, space.Estate())
    {
      ghost var (m0, was) := (space.ram.mem, now);
      removed := Unmapping.Unmap(space, pn, pages);
      Record(Growth.Unmap(pn, pages));
      UnmappedAgrees(m0, space.ram.mem, space.tables, was, pn, pages);
    }
  }

  lemma UnmappedAgrees(m0: Tables, m1: Tables, tables: Layout, s: State, pn: nat, pages: nat)
    requires Agrees(m0, tables, s.mapped) && Unmapping.Cleared(m0, m1, tables, pn, pages) && pn + pages <= PAGES
    ensures Agrees(m1, tables, Step(s, Growth.Unmap(pn, pages)).mapped)
  {
    forall q: PageNo ensures LeafAt(m1, tables, q).Page? <==> q in Step(s, Growth.Unmap(pn, pages)).mapped {
      Unmapping.TouchedPlainly(q, pn, pages);
      assert LeafAt(m0, tables, q).Page? <==> q in s.mapped;
    }
  }

  // ---- Two spaces side by side ----

  datatype Operation = Anonymous(pages: U64) | Faulting(far: U64) | Dropping(pn: nat, count: nat)

  /** Two spaces on the same memory with no frame in common, neither lent to the other. */
  ghost predicate Apart(a: AddressSpace, b: AddressSpace)
    reads a, b, a.ram, b.ram
  {
    && a != b && a.ram == b.ram
    && KeepsOff(a.ram.mem, a.tables, a.taken, b.taken) && KeepsOff(b.ram.mem, b.tables, b.taken, a.taken)
  }

  /** Whatever a process does with its memory, any other space keeps every translation, and the two stay apart. */
  method Isolated(p: Process, other: AddressSpace, op: Operation)
    requires p.Valid() && other.Valid() && Apart(p.space, other)
    requires op.Dropping? ==> op.pn + op.count <= PAGES
    modifies p, p.space, p.space.ram
    ensures p.Valid() && other.Valid() && Apart(p.space, other)
    ensures forall q: PageNo :: other.Leaf(q) == old(other.Leaf(q))
  {
    ghost var a := p.space;
    ghost var (m0, tA0, takenA0, free0) := (a.ram.mem, a.tables, a.taken, a.ram.free);
    match op {
      case Anonymous(pages) => var _ := p.MapAnon(pages);
      case Faulting(far) => var _ := p.Fault(far);
      case Dropping(pn, count) => var _ := p.UnmapRange(pn, count);
    }
    SpacesStayApart(m0, a.ram.mem, a.root, tA0, a.tables, takenA0, a.taken, other.root, other.tables, other.taken, free0, a.ram.free);
  }
}
