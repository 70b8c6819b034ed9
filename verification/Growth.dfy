/**
 * crates/arch-aarch64/src/addrspace.rs: memory a task acquires at run time. The heap cursor only moves
 * forward, the stack grows on faults down to a guard, and neither ever lands on a live mapping.
 */
module Growth {
  import opened Common
  import opened PageTables
  import opened Ownership
  import opened AddressSpaces

  const HEAP_FIRST: nat := USER_HEAP_BASE / PAGE_SIZE
  const HEAP_LIMIT: nat := USER_HEAP_END / PAGE_SIZE
  const STACK_FIRST: nat := USER_STACK_LIMIT / PAGE_SIZE
  const STACK_LIMIT: nat := USER_STACK_TOP / PAGE_SIZE

  /** The cursor after taking `pages` pages from `heapNext`, or nothing if the run would not fit. */
  function ReserveAnon(heapNext: nat, pages: U64): (next: Option<nat>)
    ensures next.Some? <==> pages > 0 && heapNext + pages * PAGE_SIZE <= USER_HEAP_END
    ensures next.Some? ==> next.value - heapNext == pages * PAGE_SIZE
  {
    if pages == 0 then None
    else if pages * PAGE_SIZE >= TWO_64 || heapNext + pages * PAGE_SIZE >= TWO_64 then None
    else if heapNext + pages * PAGE_SIZE > USER_HEAP_END then None
    else Some(heapNext + pages * PAGE_SIZE)
  }

  // ---- The operations ----

  predicate FreshPage(desc: Desc)
  {
    desc.Page? && desc.rights == Data && desc.owned
  }

  /** The pages from `lo` up to `hi` are fresh read/write pages now, and every other translation is as it was. */
  ghost predicate Grew(mem0: Tables, tables0: Layout, mem: Tables, tables: Layout, lo: nat, hi: nat)
  {
    forall q: PageNo ::
      if lo <= q < hi then FreshPage(LeafAt(mem, tables, q)) else LeafAt(mem, tables, q) == LeafAt(mem0, tables0, q)
  }

  /** `n` pages from `pn` on have been mapped afresh, at the cost of exactly the frames they owned. */
  ghost predicate MappedAfresh(m0: Tables, t0: Layout, e0: set<Frame>, m: Tables, t: Layout, e: set<Frame>, pn: nat, n: nat)
  {
    && pn + n <= PAGES && Grew(m0, t0, m, t, pn, pn + n)
    && e == e0 - OwnedIn(m0, t0, pn, n) && Confined(m0, m, e0)
  }

  lemma MappedOneMore(m0: Tables, t0: Layout, e0: set<Frame>, m1: Tables, t1: Layout, e1: set<Frame>,
                      m2: Tables, t2: Layout, e2: set<Frame>, pn: nat, n: nat, page: PageNo, desc: Desc)
    requires MappedAfresh(m0, t0, e0, m1, t1, e1, pn, n) && page == pn + n
    requires OnlyLeafChanged(m1, t1, m2, t2, page, desc) && FreshPage(desc)
    requires Confined(m1, m2, e1) && e2 == e1 - FrameOf(LeafAt(m1, t1, page))
    ensures MappedAfresh(m0, t0, e0, m2, t2, e2, pn, n + 1)
  {
    assert LeafAt(m1, t1, page) == LeafAt(m0, t0, page);
    ConfinedTrans(m0, m1, m2, e0, e1);
  }

  lemma MappedNoMore(m0: Tables, t0: Layout, e0: set<Frame>, m1: Tables, t1: Layout, e1: set<Frame>,
                     m2: Tables, t2: Layout, pn: nat, n: nat)
    requires MappedAfresh(m0, t0, e0, m1, t1, e1, pn, n)
    requires SameLeaves(m1, t1, m2, t2) && Confined(m1, m2, e1)
    ensures MappedAfresh(m0, t0, e0, m2, t2, e1, pn, n)
  {
    ConfinedTrans(m0, m1, m2, e0, e1);
  }

  /** What `map_anon_at` maps accounts for every frame exactly when none of those pages owned one. */
  lemma MappingLosesExactly(m0: Tables, root: Frame, t0: Layout, taken: set<Frame>, free: set<Frame>,
                            m: Tables, t: Layout, e: set<Frame>, pn: nat, n: nat)
    requires SpaceOk(m0, root, t0, taken, free) && MappedAfresh(m0, t0, taken + free, m, t, e, pn, n)
    ensures e == taken + free <==> forall q: PageNo :: pn <= q < pn + n ==> FrameOf(LeafAt(m0, t0, q)) == {}
  {
    NothingLostExactly(m0, root, t0, taken, free, pn, n);
  }

  /** One turn of the loop of `map_anon_at`. */
  method MapOnePage(space: AddressSpace, pn: nat, i: nat, ghost m0: Tables, ghost t0: Layout, ghost e0: set<Frame>)
    returns (ok: bool)
    requires space.Valid() && pn + i < PAGES
    requires MappedAfresh(m0, t0, e0, space.ram.mem, space.tables, space.Estate(), pn, i)
    modifies space`tables, space`taken, space.ram
    ensures space.Valid() && space.ram.refusals == old(space.ram.refusals) + if ok then 0 else 1
    ensures MappedAfresh(m0, t0, e0, space.ram.mem, space.tables, space.Estate(), pn, if ok then i + 1 else i)
  {
    ghost var (m1, t1, e1) := (space.ram.mem, space.tables, space.Estate());
    var frame := space.MapFresh(pn + i);
    ok := frame.Some?;
    if ok {
      MappedOneMore(m0, t0, e0, m1, t1, e1, space.ram.mem, space.tables, space.Estate(), pn, i, pn + i,
                    Page(frame.value, Data, true));
    } else {
      MappedNoMore(m0, t0, e0, m1, t1, e1, space.ram.mem, space.tables, pn, i);
    }
  }

  /**
   * Map fresh frames over a run, all of it unless the pool runs dry; then what was mapped stays. No frame is lost
   * unless the run lands on pages that own some, and then exactly those are.
   */
  method MapAnonAt(space: AddressSpace, pn: nat, pages: nat) returns (ok: bool, ghost done: nat)
    requires space.Valid() && pn + pages <= PAGES
    modifies space`tables, space`taken, space.ram
    ensures space.Valid() && done <= pages && (ok <==> done == pages)
    ensures space.ram.refusals == old(space.ram.refusals) + if ok then 0 else 1
    ensures MappedAfresh(old(space.ram.mem), old(space.tables), old(space.Estate()),
                         space.ram.mem, space.tables, space.Estate(), pn, done)
  {
    ghost var (m0, t0, e0) := (space.ram.mem, space.tables, space.Estate());
    for i := 0 to pages
      invariant space.Valid() && space.ram.refusals == old(space.ram.refusals)
      invariant MappedAfresh(m0, t0, e0, space.ram.mem, space.tables, space.Estate(), pn, i)
    {
      ok := MapOnePage(space, pn, i, m0, t0, e0);
      if !ok {
        return false, i;
      }
    }
    return true, pages;
  }

  /** A fault at any address maps at most its own page, and that only in the stack region and where none was. */
  method GrowStack(space: AddressSpace, far: U64) returns (grew: bool)
    requires space.Valid()
    modifies space`tables, space`taken, space.ram
    ensures space.Valid() && space.Estate() == old(space.Estate())
    ensures Confined(old(space.ram.mem), space.ram.mem, old(space.Estate()))
    ensures grew ==> STACK_FIRST <= far / PAGE_SIZE < STACK_LIMIT && old(space.Leaf(far / PAGE_SIZE)) == Invalid
    ensures grew ==> exists f :: OnlyLeafChanged(old(space.ram.mem), old(space.tables), space.ram.mem, space.tables,
                                                 far / PAGE_SIZE, Page(f, Data, true))
    ensures !grew ==> SameLeaves(old(space.ram.mem), old(space.tables), space.ram.mem, space.tables)
    ensures space.ram.refusals == old(space.ram.refusals)
      + if !grew && STACK_FIRST <= far / PAGE_SIZE < STACK_LIMIT && !old(space.Leaf(far / PAGE_SIZE)).Page? then 1 else 0
  {
    var va := far - far % PAGE_SIZE;
    if !(USER_STACK_LIMIT <= va < USER_STACK_TOP) {
      return false;
    }
    var page: PageNo := va / PAGE_SIZE;
    assert page == far / PAGE_SIZE;
    var desc := space.Lookup(page);
    if desc.Page? {
      return false;
    }
    InvalidUnlessPage(space.ram.mem, space.root, space.tables, page);
    assert FrameOf(space.Leaf(page)) == {};
    var frame := space.MapFresh(page);
    return frame.Some?;
  }

  lemma InvalidUnlessPage(mem: Tables, root: Frame, tables: Layout, pn: PageNo)
    requires Tree(mem, root, tables)
    ensures LeafAt(mem, tables, pn).Page? || LeafAt(mem, tables, pn) == Invalid
  {
    if OnPath(pn, LEAF_LEVEL) in tables {
      assert EntryOk(mem, tables, OnPath(pn, LEAF_LEVEL), Index(pn, LEAF_LEVEL));
    }
  }

  // ---- Every run of them ----

  /** A run of heap pages handed out: `first..first + pages`, of which `done` have been mapped so far. */
  datatype Reservation = Reservation(first: nat, pages: nat, done: nat)

  /** What is mapped, the heap cursor in pages, and every reservation ever made. */
  datatype State = State(mapped: set<nat>, heapNext: nat, runs: seq<Reservation>)

  /**
   * `Reserve` and the mapping of each reserved page are separate steps, because threads sharing a space
   * interleave them. A reservation whose mapping fails simply takes no further steps.
   */
  datatype Event =
    | Reserve(pages: U64)
    | MapNext(run: nat)
    | Unmap(first: nat, count: nat)
    | Fault(far: nat, poolEmpty: bool)

  predicate FaultGrows(s: State, far: nat, poolEmpty: bool)
  {
    STACK_FIRST <= far / PAGE_SIZE < STACK_LIMIT && far / PAGE_SIZE !in s.mapped && !poolEmpty
  }

  /** The page a step maps, if it maps one. */
  function Target(s: State, e: Event): Option<nat>
  {
    match e
    case MapNext(r) =>
      if r < |s.runs| && s.runs[r].done < s.runs[r].pages then Some(s.runs[r].first + s.runs[r].done) else None
    case Fault(far, poolEmpty) => if FaultGrows(s, far, poolEmpty) then Some(far / PAGE_SIZE) else None
    case _ => None
  }

  function Step(s: State, e: Event): State
  {
    match e
    case Reserve(pages) =>
      (match ReserveAnon(s.heapNext * PAGE_SIZE, pages)
       case None => s
       case Some(_) => s.(heapNext := s.heapNext + pages, runs := s.runs + [Reservation(s.heapNext, pages, 0)]))
    case Unmap(first, pages) => s.(mapped := set p | p in s.mapped && !(first <= p < first + pages))
    case MapNext(r) =>
      (match Target(s, e)
       case None => s
       case Some(p) => s.(mapped := s.mapped + {p}, runs := s.runs[r := s.runs[r].(done := s.runs[r].done + 1)]))
    case Fault(_, _) =>
      (match Target(s, e) case None => s case Some(p) => s.(mapped := s.mapped + {p}))
  }

  ghost predicate Apart(a: Reservation, b: Reservation)
  {
    a.first + a.pages <= b.first || b.first + b.pages <= a.first
  }

  ghost predicate Inv(s: State)
  {
    && HEAP_FIRST <= s.heapNext <= HEAP_LIMIT
    && (forall p :: p in s.mapped && HEAP_FIRST <= p < HEAP_LIMIT ==> p < s.heapNext)
    && (forall i :: 0 <= i < |s.runs| ==>
          && HEAP_FIRST <= s.runs[i].first && s.runs[i].first + s.runs[i].pages <= s.heapNext
          && s.runs[i].done <= s.runs[i].pages)
    && (forall i, p :: 0 <= i < |s.runs| && p in s.mapped ==> NotAhead(s.runs[i], p))
    && (forall i, j :: 0 <= i < j < |s.runs| ==> Apart(s.runs[i], s.runs[j]))
  }

  /** Page `p` is not in the part of the run still to be mapped. */
  ghost predicate NotAhead(r: Reservation, p: nat)
  {
    !(r.first + r.done <= p < r.first + r.pages)
  }

  lemma MapNextKeepsInv(s: State, r: nat)
    requires Inv(s) && Target(s, MapNext(r)).Some?
    ensures Inv(Step(s, MapNext(r))) && Target(s, MapNext(r)).value !in s.mapped
  {
    var p := Target(s, MapNext(r)).value;
    var s' := Step(s, MapNext(r));
    assert p in s.mapped ==> NotAhead(s.runs[r], p);
    forall i, q | 0 <= i < |s'.runs| && q in s'.mapped ensures NotAhead(s'.runs[i], q) {
      assert q in s.mapped ==> NotAhead(s.runs[i], q);
      assert i < r ==> Apart(s.runs[i], s.runs[r]);
      assert r < i ==> Apart(s.runs[r], s.runs[i]);
    }
    forall i, j | 0 <= i < j < |s'.runs| ensures Apart(s'.runs[i], s'.runs[j]) {
      assert Apart(s.runs[i], s.runs[j]);
    }
  }

  lemma ReserveKeepsInv(s: State, pages: U64)
    requires Inv(s)
    ensures Inv(Step(s, Reserve(pages)))
  {
  }

  lemma StepKeepsInv(s: State, e: Event)
    requires Inv(s)
    ensures Inv(Step(s, e))
    ensures Target(s, e).Some? ==> Target(s, e).value !in s.mapped
  {
    match e
    case MapNext(r) =>
      if Target(s, e).Some? {
        MapNextKeepsInv(s, r);
      }
    case Reserve(pages) => ReserveKeepsInv(s, pages);
    case Fault(far, poolEmpty) =>
      var s' := Step(s, e);
      forall i, p | 0 <= i < |s'.runs| && p in s'.mapped ensures NotAhead(s'.runs[i], p) {
        assert p in s.mapped ==> NotAhead(s.runs[i], p);
      }
    case Unmap(first, pages) =>
  }

  function Run(s: State, es: seq<Event>): State
    decreases |es|
  {
    if es == [] then s else Step(Run(s, es[..|es| - 1]), es[|es| - 1])
  }

  /** A fresh space: nothing in the heap region, nothing handed out. */
  ghost predicate Initial(s: State)
  {
    s.heapNext == HEAP_FIRST && s.runs == [] && forall p :: p in s.mapped ==> !(HEAP_FIRST <= p < HEAP_LIMIT)
  }

  lemma {:induction false} RunKeepsInv(s: State, es: seq<Event>)
    requires Initial(s)
    ensures Inv(Run(s, es))
    decreases |es|
  {
    if es != [] {
      RunKeepsInv(s, es[..|es| - 1]);
      StepKeepsInv(Run(s, es[..|es| - 1]), es[|es| - 1]);
    }
  }

  /** Over every run of reservations, mappings in any interleaving, unmaps and faults: no step maps a mapped page. */
  lemma GrowthNeverOverwrites(s: State, es: seq<Event>, e: Event)
    requires Initial(s)
    ensures var now := Run(s, es);
      Target(now, e).Some? ==> Target(now, e).value !in now.mapped
  {
    RunKeepsInv(s, es);
    StepKeepsInv(Run(s, es), e);
  }

  /** Every range handed out is inside the heap region, and no two of them meet. */
  lemma ReservationsApart(s: State, es: seq<Event>, i: nat)
    requires Initial(s) && i < |Run(s, es).runs|
    ensures var runs := Run(s, es).runs;
      && HEAP_FIRST <= runs[i].first && runs[i].first + runs[i].pages <= HEAP_LIMIT
      && forall j: nat :: i < j < |runs| ==> Apart(runs[i], runs[j])
  {
    RunKeepsInv(s, es);
  }

  // ---- The stack ----

  /** Below the guard limit no fault is ever answered: a page mapped there was mapped to begin with. */
  lemma {:induction false} GuardNeverFilled(s: State, es: seq<Event>, p: nat)
    requires Initial(s) && HEAP_LIMIT <= p < STACK_FIRST
    ensures p in Run(s, es).mapped ==> p in s.mapped
    decreases |es|
  {
    if es != [] {
      var before := es[..|es| - 1];
      GuardNeverFilled(s, before, p);
      RunKeepsInv(s, before);
    }
  }

  lemma {:induction false} RangeSize(pages: set<nat>, lo: nat, hi: nat)
    requires lo <= hi && forall p :: p in pages ==> lo <= p < hi
    ensures |pages| <= hi - lo
    decreases hi - lo
  {
    if lo < hi {
      var rest := pages - {hi - 1};
      RangeSize(rest, lo, hi - 1);
      assert pages <= rest + {hi - 1};
      assert |pages| <= |rest + {hi - 1}| by {
        SubsetSize(pages, rest + {hi - 1});
      }
    } else {
      assert pages == {};
    }
  }

  lemma {:induction false} SubsetSize(a: set<nat>, b: set<nat>)
    requires a <= b
    ensures |a| <= |b|
  {
    if a != {} {
      var x :| x in a;
      SubsetSize(a - {x}, b - {x});
    }
  }

  /** Outside the heap a run maps only pages of the stack region: nothing else faults can bring in. */
  lemma {:induction false} FaultsStayInStack(s: State, es: seq<Event>, p: nat)
    requires Initial(s) && !(HEAP_FIRST <= p < HEAP_LIMIT)
    ensures p in Run(s, es).mapped ==> p in s.mapped || STACK_FIRST <= p < STACK_LIMIT
    decreases |es|
  {
    if es != [] {
      var before := es[..|es| - 1];
      FaultsStayInStack(s, before, p);
      RunKeepsInv(s, before);
    }
  }

  /** Whatever faults arrive, at whatever addresses, they bring in at most 256 pages that were not there. */
  lemma StackBounded(s: State, es: seq<Event>)
    requires Initial(s)
    ensures |FaultedIn(s, Run(s, es))| <= USER_STACK_MAX_PAGES
  {
    var pages := FaultedIn(s, Run(s, es));
    forall p | p in pages ensures STACK_FIRST <= p < STACK_LIMIT {
      FaultsStayInStack(s, es, p);
    }
    RangeSize(pages, STACK_FIRST, STACK_LIMIT);
  }

  /** Pages mapped since, other than by heap reservations. */
  function FaultedIn(was: State, now: State): set<nat>
  {
    set p | p in now.mapped && p !in was.mapped && !(HEAP_FIRST <= p < HEAP_LIMIT)
  }
}
