/**
 * crates/kernel/src/sched.rs: the decisions a core makes with the policy, one after another. Each
 * trip through the scheduler picks with this core's counter, moves the counter on if there was
 * anything to pick, and may decline a preempt that would demote the core.
 */
module SchedulerRuns {
  import opened Common
  import opened Policy
  import Affinity

  /** One trip: away from a running task, with or without regard for classes; or from the idle loop. */
  datatype Event =
    | Reschedule(cpu: nat, from: nat, honourClass: bool, t: Table)
    | Idle(cpu: nat, t: Table)

  datatype Outcome = Nothing | Declined | Taken(slot: nat)

  ghost predicate ValidEvent(e: Event, cores: nat)
  {
    e.cpu < cores && (e.Reschedule? ==> e.from < e.t.n)
  }

  datatype State = State(picks: seq<U64>, fairPicks: nat, inversions: nat)

  function Pick(e: Event, picks: nat): Option<nat>
  {
    match e
    case Reschedule(_, from, _, t) => Policy.Choose(from, picks, t)
    case Idle(_, t) => Policy.ChooseFirst(picks, t)
  }

  function Decide(e: Event, picks: nat): Outcome
  {
    match Pick(e, picks)
    case None => Nothing
    case Some(next) =>
      if e.Reschedule? && e.honourClass && !ShouldSwitch(e.t.classOf(e.from), e.t.classOf(next), IsFair(picks))
      then Declined
      else Taken(next)
  }

  /** What `account` asks at a claim; a claim of the top band is not asked about. */
  ghost predicate Inverts(e: Event, slot: nat)
  {
    var chosen := e.t.classOf(slot);
    chosen != Latency && Outranked(if e.Reschedule? then Some(e.from) else None, chosen, e.t)
  }

  ghost function Step(s: State, e: Event): State
    requires ValidEvent(e, |s.picks|)
  {
    var outcome := Decide(e, s.picks[e.cpu]);
    if outcome == Nothing then s
    else
      var s' := Advance(s, e.cpu);
      if outcome.Taken? && Inverts(e, outcome.slot) then s'.(inversions := s'.inversions + 1) else s'
  }

  /** Decisions count, not claims. */
  ghost function Advance(s: State, cpu: nat): State
    requires cpu < |s.picks|
  {
    s.(picks := s.picks[cpu := WrappingAdd(s.picks[cpu], 1)],
       fairPicks := s.fairPicks + if IsFair(s.picks[cpu]) then 1 else 0)
  }

  ghost function Run(s: State, es: seq<Event>): (r: State)
    requires forall e :: e in es ==> ValidEvent(e, |s.picks|)
    ensures |r.picks| == |s.picks|
    decreases |es|
  {
    if es == [] then s else Step(Run(s, es[..|es| - 1]), es[|es| - 1])
  }

  // ---- What a pick is ----

  /** A slot this trip may pick. */
  ghost predicate Eligible(e: Event, i: nat)
  {
    i < e.t.n && e.t.pickable(i) && (e.Reschedule? ==> i != e.from)
  }

  ghost predicate FirstBand(e: Event, bands: seq<Class>, r: Option<nat>)
  {
    match r
    case None => forall i: nat :: !Eligible(e, i)
    case Some(s) =>
      && Eligible(e, s)
      && forall i: nat :: Eligible(e, i) ==>
           Position(bands, e.t.classOf(s)) <= Position(bands, e.t.classOf(i))
  }

  /** Both entry points serve the first band of the order that has anything eligible. */
  lemma PickIsFirstBand(e: Event, picks: nat, cores: nat)
    requires ValidEvent(e, cores)
    ensures FirstBand(e, Bands(picks), Pick(e, picks))
  {
    if e.Reschedule? {
      RescheduleIsFirstBand(e, picks);
    } else {
      ChooseFirstIsLeast(picks, e.t);
    }
  }

  lemma RescheduleIsFirstBand(e: Event, picks: nat)
    requires e.Reschedule? && e.from < e.t.n
    ensures FirstBand(e, Bands(picks), Policy.Choose(e.from, picks, e.t))
  {
    ChooseIsLeast(e.from, picks, e.t);
    ModUnique(e.from, e.t.n, 0, e.from);
    assert forall i: nat :: Eligible(e, i) <==> Candidate(e.from, e.t, i);
    var r := Policy.Choose(e.from, picks, e.t);
    if r.Some? {
      forall i: nat | Eligible(e, i)
        ensures Position(Bands(picks), e.t.classOf(r.value)) <= Position(Bands(picks), e.t.classOf(i))
      {
        assert i != r.value ==> Before(Bands(picks), e.from, e.t, r.value, i);
      }
    }
  }

  predicate MoreUrgent(a: Class, b: Class)
  {
    (a == Latency && b != Latency) || (a == Normal && b == Bulk)
  }

  /**
   * What one trip comes to. Nothing, exactly if nothing is eligible; the core stays where it is exactly if it
   * was taken away and not given up, this is no fairness decision, and all there is to give it to is less urgent.
   */
  lemma DecidesExactly(e: Event, picks: nat, cores: nat)
    requires ValidEvent(e, cores)
    ensures Decide(e, picks) == Nothing <==> forall i: nat :: !Eligible(e, i)
    ensures Decide(e, picks) == Declined <==>
      && e.Reschedule? && e.honourClass && picks % 8 != 7 && (exists i: nat :: Eligible(e, i))
      && forall i: nat :: Eligible(e, i) ==> MoreUrgent(e.t.classOf(e.from), e.t.classOf(i))
    ensures Decide(e, picks).Taken? ==> Pick(e, picks) == Some(Decide(e, picks).slot)
  {
    PickIsFirstBand(e, picks, cores);
    var r := Pick(e, picks);
    if r.Some? && picks % 8 != 7 {
      forall i: nat | Eligible(e, i) ensures AsRaw(e.t.classOf(r.value)) <= AsRaw(e.t.classOf(i)) {
        OrdinaryOrder(e.t.classOf(r.value), picks);
        OrdinaryOrder(e.t.classOf(i), picks);
      }
    }
  }

  /** The band to be served at a phase of the cycle, by which of them have anything eligible. */
  function BandFor(phase: nat, latency: bool, normal: bool, bulk: bool): Option<Class>
  {
    if phase == 7 then
      if bulk then Some(Bulk) else if normal then Some(Normal) else if latency then Some(Latency) else None
    else if phase == 15 then
      if normal then Some(Normal) else if bulk then Some(Bulk) else if latency then Some(Latency) else None
    else if latency then Some(Latency) else if normal then Some(Normal) else if bulk then Some(Bulk) else None
  }

  /** Which band is picked from, whichever of them happen to be empty. */
  lemma PickedBand(e: Event, picks: nat, cores: nat)
    requires ValidEvent(e, cores)
    ensures match BandFor(picks % 16, BandReady(e, Latency), BandReady(e, Normal), BandReady(e, Bulk))
      case None => Pick(e, picks) == None
      case Some(band) => Pick(e, picks).Some? && e.t.classOf(Pick(e, picks).value) == band
  {
    PickIsFirstBand(e, picks, cores);
    PositionsByPhase(picks);
    var r := Pick(e, picks);
    if r.Some? {
      assert BandReady(e, e.t.classOf(r.value));
    }
  }

  lemma PositionsByPhase(picks: nat)
    ensures var p := (c: Class) => Position(Bands(picks), c);
      if picks % 16 == 7 then p(Bulk) == 0 && p(Normal) == 1 && p(Latency) == 2
      else if picks % 16 == 15 then p(Normal) == 0 && p(Bulk) == 1 && p(Latency) == 2
      else p(Latency) == 0 && p(Normal) == 1 && p(Bulk) == 2
  {
    var (d, r) := (picks / 16, picks % 16);
    ModUnique(picks, 8, if r < 8 then 2 * d else 2 * d + 1, if r < 8 then r else r - 8);
    var b := Bands(picks);
    Positions(b[0], b[1], b[2]);
    assert b == [b[0], b[1], b[2]];
  }

  lemma Positions(a: Class, b: Class, c: Class)
    requires a != b && a != c && b != c
    ensures Position([a, b, c], a) == 0 && Position([a, b, c], b) == 1 && Position([a, b, c], c) == 2
  {
    assert [a, b, c][1..] == [b, c] && [b, c][1..] == [c];
    assert Position([b, c], c) == 1;
  }

  /** What one trip leaves in the counters. */
  lemma StepCounts(s: State, e: Event)
    requires ValidEvent(e, |s.picks|)
    ensures var (q, s') := (s.picks[e.cpu], Step(s, e));
      var decided := exists i: nat :: Eligible(e, i);
      && |s'.picks| == |s.picks|
      && (forall c :: 0 <= c < |s.picks| ==>
            s'.picks[c] == if c == e.cpu && decided then WrappingAdd(s.picks[c], 1) else s.picks[c])
      && s'.fairPicks == s.fairPicks + (if decided && q % 8 == 7 then 1 else 0)
      && s'.inversions == s.inversions +
           if Decide(e, q).Taken?
              && exists i: nat :: Eligible(e, i) && MoreUrgent(e.t.classOf(i), e.t.classOf(Decide(e, q).slot))
           then 1 else 0
  {
    var q := s.picks[e.cpu];
    DecidesExactly(e, q, |s.picks|);
    if Decide(e, q).Taken? {
      InvertsExactly(e, Decide(e, q).slot);
    }
  }

  /** An inversion is a claim past something eligible and more urgent, however it is looked for. */
  lemma InvertsExactly(e: Event, slot: nat)
    ensures Inverts(e, slot) <==> exists i: nat :: Eligible(e, i) && MoreUrgent(e.t.classOf(i), e.t.classOf(slot))
  {
    var (chosen, from) := (e.t.classOf(slot), if e.Reschedule? then Some(e.from) else None);
    if Inverts(e, slot) {
      var i: nat :| i < e.t.n && Some(i) != from && e.t.pickable(i) && AsRaw(e.t.classOf(i)) < AsRaw(chosen);
      assert Eligible(e, i) && MoreUrgent(e.t.classOf(i), chosen);
    }
    if i: nat :| Eligible(e, i) && MoreUrgent(e.t.classOf(i), chosen) {
      assert i < e.t.n && Some(i) != from && e.t.pickable(i);
    }
  }

  // ---- Inversions ----

  /** The independent scan `outranked` can only disagree with the picker on a fairness decision. */
  lemma InversionNeedsFairness(e: Event, picks: nat, cores: nat)
    requires ValidEvent(e, cores)
    requires Decide(e, picks).Taken? && Inverts(e, Decide(e, picks).slot)
    ensures IsFair(picks)
  {
    if !IsFair(picks) {
      PickIsFirstBand(e, picks, cores);
      var s := Decide(e, picks).slot;
      var from := if e.Reschedule? then Some(e.from) else None;
      var i: nat :| i < e.t.n && Some(i) != from && e.t.pickable(i) && AsRaw(e.t.classOf(i)) < AsRaw(e.t.classOf(s));
      assert Eligible(e, i);
      OrdinaryOrder(e.t.classOf(i), picks);
      OrdinaryOrder(e.t.classOf(s), picks);
      assert false;
    }
  }

  lemma OrdinaryOrder(c: Class, picks: nat)
    requires !IsFair(picks)
    ensures Position(Bands(picks), c) == AsRaw(c) - 1
  {
    var b := Bands(picks);
    assert b[1..] == [Normal, Bulk] && b[1..][1..] == [Bulk];
    assert Position([Bulk], Bulk) == 0 && Position([Normal, Bulk], Normal) == 0;
    assert Position([Normal, Bulk], Bulk) == 1 + Position([Normal, Bulk][1..], Bulk);
  }

  /** Over every run, on any number of cores: inversions <= fairness decisions. */
  lemma {:induction false} InversionsBounded(s: State, es: seq<Event>)
    requires forall e :: e in es ==> ValidEvent(e, |s.picks|)
    requires s.inversions <= s.fairPicks
    ensures Run(s, es).inversions <= Run(s, es).fairPicks
    decreases |es|
  {
    if es != [] {
      var (before, e) := (es[..|es| - 1], es[|es| - 1]);
      assert e in es && forall x :: x in before ==> x in es;
      InversionsBounded(s, before);
      var mid := Run(s, before);
      var outcome := Decide(e, mid.picks[e.cpu]);
      if outcome.Taken? && Inverts(e, outcome.slot) {
        InversionNeedsFairness(e, mid.picks[e.cpu], |s.picks|);
      }
    }
  }

  // ---- No band starves ----

  ghost predicate BandReady(e: Event, band: Class)
  {
    exists i: nat :: Eligible(e, i) && e.t.classOf(i) == band
  }

  ghost predicate Serves(e: Event, picks: nat, band: Class)
  {
    Decide(e, picks).Taken? && e.t.classOf(Decide(e, picks).slot) == band
  }

  /** One core's counter before trip `k`. */
  ghost function PicksAt(p: U64, es: seq<Event>, k: nat): U64
    requires k <= |es|
  {
    if k == 0 then p
    else
      var q := PicksAt(p, es, k - 1);
      if Decide(es[k - 1], q) == Nothing then q else WrappingAdd(q, 1)
  }

  lemma PhaseStep(p: U64, k: nat, q: U64)
    requires q % 16 == (p + k) % 16
    ensures WrappingAdd(q, 1) % 16 == (p + k + 1) % 16
  {
    ModAddLeft(q, 1, 16);
    ModAddLeft(p + k, 1, 16);
  }

  lemma ReadyMeansDecision(e: Event, q: nat, band: Class, cores: nat)
    requires ValidEvent(e, cores) && BandReady(e, band)
    ensures Decide(e, q) != Nothing
  {
    PickIsFirstBand(e, q, cores);
  }

  /** While some band is always ready, every trip is a decision and the phase moves by one. */
  lemma {:induction false} PhaseAdvances(p: U64, es: seq<Event>, k: nat, band: Class, cores: nat)
    requires k <= |es|
    requires forall e :: e in es ==> ValidEvent(e, cores) && BandReady(e, band)
    ensures PicksAt(p, es, k) % 16 == (p + k) % 16
  {
    if k > 0 {
      PhaseAdvances(p, es, k - 1, band, cores);
      ReadyMeansDecision(es[k - 1], PicksAt(p, es, k - 1), band, cores);
      PhaseStep(p, k - 1, PicksAt(p, es, k - 1));
    }
  }

  /** A decision whose order begins with `band` serves it, whatever class is being left. */
  lemma FirstBandServed(e: Event, picks: nat, band: Class, cores: nat)
    requires ValidEvent(e, cores) && BandReady(e, band)
    requires Bands(picks)[0] == band
    ensures Serves(e, picks, band)
  {
    PickIsFirstBand(e, picks, cores);
    var i: nat :| Eligible(e, i) && e.t.classOf(i) == band;
    assert Position(Bands(picks), band) == 0;
  }

  /** The order depends on the counter's residue modulo sixteen alone. */
  lemma BandsByPhase(q: nat)
    ensures Bands(q)[0] == BandOfPhase(q % 16)
  {
    var (d, r) := (q / 16, q % 16);
    assert q == 16 * d + r;
    ModUnique(q, 8, if r < 8 then 2 * d else 2 * d + 1, if r < 8 then r else r - 8);
  }

  function BandOfPhase(r: nat): Class
  {
    if r == 7 then Bulk else if r == 15 then Normal else Latency
  }

  /** Decision `k` of a window serves the band its phase names, if that band is ready throughout. */
  lemma ServedAt(p: U64, es: seq<Event>, k: nat, band: Class, cores: nat)
    requires k < |es|
    requires forall e :: e in es ==> ValidEvent(e, cores) && BandReady(e, band)
    requires BandOfPhase((p + k) % 16) == band
    ensures Serves(es[k], PicksAt(p, es, k), band)
  {
    PhaseAdvances(p, es, k, band, cores);
    BandsByPhase(PicksAt(p, es, k));
    FirstBandServed(es[k], PicksAt(p, es, k), band, cores);
  }

  lemma NextPhase(p: nat, band: Class) returns (k: nat)
    ensures k < Window(band) && BandOfPhase((p + k) % 16) == band
  {
    var r := p % 16;
    match band {
      case Latency => k := if r == 7 || r == 15 then 1 else 0;
      case Normal => k := 15 - r;
      case Bulk => k := if r <= 7 then 7 - r else 23 - r;
    }
    ModAddLeft(p, k, 16);
  }

  /** How many consecutive decisions a band may have to wait for. */
  function Window(band: Class): nat
  {
    if band == Latency then 2 else 16
  }

  /**
   * A band that always has something eligible is given the core within any 16 consecutive decisions
   * (any 2 for the top band), from any counter value and however the ready set changes meanwhile,
   * although `should_switch` refuses downward preempts.
   */
  lemma NoBandStarves(p: U64, es: seq<Event>, band: Class, cores: nat)
    requires |es| == Window(band)
    requires forall e :: e in es ==> ValidEvent(e, cores) && BandReady(e, band)
    ensures exists k: nat :: k < |es| && Serves(es[k], PicksAt(p, es, k), band)
  {
    var k := NextPhase(p, band);
    ServedAt(p, es, k, band, cores);
  }

  // ---- One core among many ----

  /** The decisions of one core, in order, out of a run of all of them. */
  ghost function OnCore(es: seq<Event>, cpu: nat): seq<Event>
    decreases |es|
  {
    if es == [] then []
    else OnCore(es[..|es| - 1], cpu) + if es[|es| - 1].cpu == cpu then [es[|es| - 1]] else []
  }

  /** A core's counter is moved by its own decisions and by nothing else. */
  lemma {:induction false} CounterIsItsOwn(s: State, es: seq<Event>, cpu: nat)
    requires cpu < |s.picks| && forall e :: e in es ==> ValidEvent(e, |s.picks|)
    ensures Run(s, es).picks[cpu] == CounterAfter(s.picks[cpu], OnCore(es, cpu))
    decreases |es|
  {
    if es != [] {
      var (before, e) := (es[..|es| - 1], es[|es| - 1]);
      assert e in es && forall x :: x in before ==> x in es;
      CounterIsItsOwn(s, before, cpu);
      StepMovesOneCounter(Run(s, before), e, cpu);
      CounterNext(s.picks[cpu], OnCore(before, cpu), e);
    }
  }

  /** One core's counter after all of these decisions. */
  ghost function CounterAfter(p: U64, mine: seq<Event>): U64
  {
    PicksAt(p, mine, |mine|)
  }

  lemma CounterNext(p: U64, mine: seq<Event>, e: Event)
    ensures CounterAfter(p, mine + [e]) == NextPicks(e, CounterAfter(p, mine))
    ensures mine + [] == mine
  {
    PicksOfPrefix(p, mine, [e], |mine|);
  }

  lemma StepMovesOneCounter(s: State, e: Event, cpu: nat)
    requires ValidEvent(e, |s.picks|) && cpu < |s.picks|
    ensures |Step(s, e).picks| == |s.picks|
    ensures Step(s, e).picks[cpu] == if e.cpu == cpu then NextPicks(e, s.picks[cpu]) else s.picks[cpu]
  {
  }

  /** What one decision makes of a counter. */
  ghost function NextPicks(e: Event, q: U64): U64
  {
    if Decide(e, q) == Nothing then q else WrappingAdd(q, 1)
  }

  lemma {:induction false} PicksOfPrefix(p: U64, es: seq<Event>, more: seq<Event>, k: nat)
    requires k <= |es|
    ensures PicksAt(p, es + more, k) == PicksAt(p, es, k)
  {
    if k > 0 {
      PicksOfPrefix(p, es, more, k - 1);
    }
  }

  /** The `j`th decision of a core is somewhere in the run, after exactly the `j` before it. */
  lemma {:induction false} DecisionInRun(es: seq<Event>, cpu: nat, j: nat) returns (k: nat)
    requires j < |OnCore(es, cpu)|
    ensures k < |es| && es[k].cpu == cpu && es[k] == OnCore(es, cpu)[j] && OnCore(es[..k], cpu) == OnCore(es, cpu)[..j]
    decreases |es|
  {
    var (before, e) := (es[..|es| - 1], es[|es| - 1]);
    if j < |OnCore(before, cpu)| {
      k := DecisionInRun(before, cpu, j);
      assert before[..k] == es[..k];
    } else {
      k := |es| - 1;
    }
  }

  lemma {:induction false} OnCoreIsPart(es: seq<Event>, cpu: nat)
    ensures forall e :: e in OnCore(es, cpu) ==> e in es && e.cpu == cpu
    decreases |es|
  {
    if es != [] {
      OnCoreIsPart(es[..|es| - 1], cpu);
    }
  }

  /**
   * In any run of all the cores, once a core has made as many decisions as the band's window, the band has
   * been given that core at least once if something of it was eligible at each of them.
   */
  lemma NoBandStarvesInRun(s: State, es: seq<Event>, cpu: nat, band: Class) returns (k: nat)
    requires cpu < |s.picks| && forall e :: e in es ==> ValidEvent(e, |s.picks|)
    requires forall e :: e in es && e.cpu == cpu ==> BandReady(e, band)
    requires |OnCore(es, cpu)| >= Window(band)
    ensures k < |es| && es[k].cpu == cpu
    ensures forall e :: e in es[..k] ==> ValidEvent(e, |s.picks|)
    ensures Serves(es[k], Run(s, es[..k]).picks[cpu], band)
  {
    var j := ServedInWindow(s.picks[cpu], es, cpu, band, |s.picks|);
    k := DecisionInRun(es, cpu, j);
    assert forall e :: e in es[..k] ==> e in es;
    CounterIsItsOwn(s, es[..k], cpu);
    CounterOfPrefix(s.picks[cpu], OnCore(es, cpu), j);
  }

  lemma CounterOfPrefix(p: U64, mine: seq<Event>, j: nat)
    requires j <= |mine|
    ensures CounterAfter(p, mine[..j]) == PicksAt(p, mine, j)
  {
    PicksOfPrefix(p, mine[..j], mine[j..], j);
    assert mine == mine[..j] + mine[j..];
  }

  lemma ServedInWindow(p: U64, es: seq<Event>, cpu: nat, band: Class, cores: nat) returns (j: nat)
    requires forall e :: e in es ==> ValidEvent(e, cores)
    requires forall e :: e in es && e.cpu == cpu ==> BandReady(e, band)
    requires |OnCore(es, cpu)| >= Window(band)
    ensures j < |OnCore(es, cpu)| && Serves(OnCore(es, cpu)[j], PicksAt(p, OnCore(es, cpu), j), band)
  {
    OnCoreIsPart(es, cpu);
    j := NextPhase(p, band);
    ServedAt(p, OnCore(es, cpu), j, band, cores);
  }

  // ---- The documented bound of eight ----

  ghost predicate AllReady(e: Event)
  {
    BandReady(e, Latency) && BandReady(e, Normal) && BandReady(e, Bulk)
  }

  /** Eight decisions in a row, at each of which the bottom band has something eligible. */
  ghost predicate BottomReady(es: seq<Event>, cores: nat)
  {
    |es| == 8 && forall e :: e in es ==> ValidEvent(e, cores) && BandReady(e, Bulk)
  }

  ghost predicate BottomServed(p: U64, es: seq<Event>)
  {
    exists k: nat :: k < |es| && Serves(es[k], PicksAt(p, es, k), Bulk)
  }

  /**
   * "Once in every eight picks" is not what the code does, since the escape alternates between the lower
   * bands: every window of eight in which the bottom band stays ready serves it exactly when the window
   * starts in the first half of a sixteen-pick cycle.
   */
  lemma BottomBandInEight(p: U64, cores: nat)
    requires cores > 0
    ensures (forall es :: BottomReady(es, cores) ==> BottomServed(p, es)) <==> p % 16 < 8
  {
    if p % 16 < 8 {
      forall es | BottomReady(es, cores) ensures BottomServed(p, es) {
        var k: nat := 7 - p % 16;
        ModAddLeft(p, k, 16);
        ServedAt(p, es, k, Bulk, cores);
      }
    } else {
      EightPicksCanMissTheBottom(p, cores);
    }
  }

  /** With all three bands busy throughout, it is decided window by window and not only for all of them. */
  lemma BusyWindowOfEight(p: U64, es: seq<Event>, cores: nat)
    requires |es| == 8
    requires forall e :: e in es ==> ValidEvent(e, cores) && AllReady(e)
    ensures BottomServed(p, es) <==> p % 16 < 8
  {
    if p % 16 < 8 {
      var k: nat := 7 - p % 16;
      ModAddLeft(p, k, 16);
      ServedAt(p, es, k, Bulk, cores);
    } else {
      forall k: nat | k < 8 ensures !Serves(es[k], PicksAt(p, es, k), Bulk) {
        EightLateDecisions(p, k);
        ServedAt(p, es, k, BandOfPhase((p + k) % 16), cores);
      }
    }
  }

  lemma EightLateDecisions(p: nat, k: nat)
    requires p % 16 >= 8 && k < 8
    ensures BandOfPhase((p + k) % 16) != Bulk
  {
    ModAddLeft(p, k, 16);
    ModOnce(p % 16 + k, 16);
  }

  /** Three runnable slots, one in each band, on a core with nothing to leave. */
  function BusyEvent(): Event
  {
    Idle(0, Table(3, (i: nat) => true, (i: nat) => false,
                  (i: nat) => if i == 0 then Latency else if i == 1 then Normal else Bulk))
  }

  lemma BusyEventIsReady()
    ensures ValidEvent(BusyEvent(), 1) && AllReady(BusyEvent())
  {
    var e := BusyEvent();
    assert Eligible(e, 0) && Eligible(e, 1) && Eligible(e, 2);
    assert e.t.classOf(0) == Latency && e.t.classOf(1) == Normal && e.t.classOf(2) == Bulk;
  }

  function BusyWindow(): seq<Event>
  {
    seq(8, _ => BusyEvent())
  }

  /** A concrete window, all bands busy throughout: started in the second half of a cycle, it misses the bottom. */
  lemma EightPicksCanMissTheBottom(p: U64, cores: nat)
    requires p % 16 >= 8 && cores > 0
    ensures BottomReady(BusyWindow(), cores) && !BottomServed(p, BusyWindow())
  {
    BusyEventIsReady();
    BusyWindowOfEight(p, BusyWindow(), cores);
  }
}
