/**
 * crates/abi/src/affinity.rs: which runnable slot a core reaches for first.
 */
module Affinity {
  import opened Common

  /** The slot `off` places after `from`. */
  function Order(n: nat, from: nat, off: nat): (i: nat)
    requires 0 < n
    ensures i < n
  {
    (from + off) % n
  }

  /** `(lo..n).map(order).find(p)` */
  function FindCyclic(n: nat, from: nat, lo: nat, p: nat -> bool): Option<nat>
    requires 0 < n
    decreases n - lo
  {
    if lo >= n then None
    else if p(Order(n, from, lo)) then Some(Order(n, from, lo))
    else FindCyclic(n, from, lo + 1, p)
  }

  /** `(lo..n).find(p)` */
  function FindFirst(n: nat, lo: nat, p: nat -> bool): Option<nat>
    decreases n - lo
  {
    if lo >= n then None else if p(lo) then Some(lo) else FindFirst(n, lo + 1, p)
  }

  function Both(p: nat -> bool, q: nat -> bool): nat -> bool
  {
    (i: nat) => p(i) && q(i)
  }

  function Choose(n: nat, from: nat, pickable: nat -> bool, sticky: nat -> bool): Option<nat>
  {
    if n == 0 then None
    else
      var warm := FindCyclic(n, from, 1, Both(pickable, sticky));
      if warm.Some? then warm else FindCyclic(n, from, 1, pickable)
  }

  function ChooseFirst(n: nat, pickable: nat -> bool, sticky: nat -> bool): Option<nat>
  {
    var warm := FindFirst(n, 0, Both(pickable, sticky));
    if warm.Some? then warm else FindFirst(n, 0, pickable)
  }

  /** How many slots after `from` the scan meets slot `i`; `from` itself is at distance 0. */
  function Distance(n: nat, from: nat, i: nat): (d: nat)
    requires i < n
    ensures d < n
    ensures d == 0 <==> i == from % n
    ensures Order(n, from, d) == i
  {
    var f := from % n;
    var d := if f <= i then i - f else i + n - f;
    ModAddLeft(from, d, n);
    ModOnce(f + d, n);
    d
  }

  /** The scan meets every slot exactly once. */
  lemma DistanceOfOrder(n: nat, from: nat, off: nat)
    requires off < n
    ensures Distance(n, from, Order(n, from, off)) == off
  {
    ModAddLeft(from, off, n);
    ModOnce(from % n + off, n);
  }

  /** A cyclic `find` stops at the first offset satisfying `p`. */
  lemma {:induction false} FindCyclicStops(n: nat, from: nat, lo: nat, p: nat -> bool) returns (off: nat)
    requires 0 < n
    ensures FindCyclic(n, from, lo, p).Some? ==>
      lo <= off < n && FindCyclic(n, from, lo, p) == Some(Order(n, from, off)) && p(Order(n, from, off))
    ensures FindCyclic(n, from, lo, p).None? ==> off == n
    ensures forall k: nat :: lo <= k < off ==> !p(Order(n, from, k))
    decreases n - lo
  {
    if lo >= n {
      off := n;
    } else if p(Order(n, from, lo)) {
      off := lo;
    } else {
      off := FindCyclicStops(n, from, lo + 1, p);
    }
  }

  /** What a cyclic `find` from offset 1 returns: the nearest slot other than `from` satisfying `p`. */
  ghost predicate Nearest(n: nat, from: nat, p: nat -> bool, r: Option<nat>)
    requires 0 < n
  {
    match r
    case Some(s) =>
      && s < n && s != from % n && p(s)
      && (forall i: nat :: i < n && i != from % n && i != s && p(i)
           ==> Distance(n, from, s) < Distance(n, from, i))
    case None =>
      forall i: nat :: i < n && i != from % n ==> !p(i)
  }

  lemma FindCyclicIsNearest(n: nat, from: nat, p: nat -> bool)
    requires 0 < n
    ensures Nearest(n, from, p, FindCyclic(n, from, 1, p))
  {
    var off := FindCyclicStops(n, from, 1, p);
    forall i: nat | i < n && i != from % n && p(i)
      ensures off <= Distance(n, from, i)
    {
      var d := Distance(n, from, i);
      assert p(Order(n, from, d));
    }
    if off < n {
      DistanceOfOrder(n, from, off);
    }
  }

  lemma {:induction false} FindFirstIsLeast(n: nat, lo: nat, p: nat -> bool)
    ensures var r := FindFirst(n, lo, p);
      match r
      case Some(s) => lo <= s < n && p(s) && forall i: nat :: lo <= i < s ==> !p(i)
      case None => forall i: nat :: lo <= i < n ==> !p(i)
    decreases n - lo
  {
    if lo < n && !p(lo) {
      FindFirstIsLeast(n, lo + 1, p);
    }
  }
}

/**
 * crates/abi/src/class.rs: three classes in strict order, save for every eighth decision.
 */
module Policy {
  import opened Common
  import Affinity

  datatype Class = Latency | Normal | Bulk

  function AsRaw(c: Class): nat
  {
    match c case Latency => 1 case Normal => 2 case Bulk => 3
  }

  const FAIRNESS_EVERY: nat := 8

  predicate IsFair(picks: nat)
  {
    picks % FAIRNESS_EVERY == FAIRNESS_EVERY - 1
  }

  function Bands(picks: nat): seq<Class>
  {
    if !IsFair(picks) then [Latency, Normal, Bulk]
    else if (picks / FAIRNESS_EVERY) % 2 == 0 then [Bulk, Normal, Latency]
    else [Normal, Bulk, Latency]
  }

  predicate ShouldSwitch(running: Class, candidate: Class, fair: bool)
  {
    fair || AsRaw(candidate) <= AsRaw(running)
  }

  /** What the kernel tells the policy about one core at one moment. */
  datatype Table = Table(n: nat, pickable: nat -> bool, sticky: nat -> bool, classOf: nat -> Class)

  function InBand(t: Table, band: Class): nat -> bool
  {
    (i: nat) => t.pickable(i) && t.classOf(i) == band
  }

  /** The band loop of `choose`, over the bands still to be scanned. */
  function ChooseIn(bands: seq<Class>, from: nat, t: Table): Option<nat>
  {
    if bands == [] then None
    else
      var found := Affinity.Choose(t.n, from, InBand(t, bands[0]), t.sticky);
      if found.Some? then found else ChooseIn(bands[1..], from, t)
  }

  function Choose(from: nat, picks: nat, t: Table): Option<nat>
  {
    ChooseIn(Bands(picks), from, t)
  }

  function ChooseFirstIn(bands: seq<Class>, t: Table): Option<nat>
  {
    if bands == [] then None
    else
      var found := Affinity.ChooseFirst(t.n, InBand(t, bands[0]), t.sticky);
      if found.Some? then found else ChooseFirstIn(bands[1..], t)
  }

  function ChooseFirst(picks: nat, t: Table): Option<nat>
  {
    ChooseFirstIn(Bands(picks), t)
  }

  /** Is any slot but the one being left both pickable and of a more urgent class than the one chosen? */
  ghost predicate Outranked(from: Option<nat>, chosen: Class, t: Table)
  {
    exists i: nat :: i < t.n && Some(i) != from && t.pickable(i) && AsRaw(t.classOf(i)) < AsRaw(chosen)
  }

  // ---- The specification: a lexicographic minimum ----

  /** Where a class stands in a band order. */
  function Position(bands: seq<Class>, c: Class): nat
  {
    if bands == [] then 0 else if bands[0] == c then 0 else 1 + Position(bands[1..], c)
  }

  ghost predicate Candidate(from: nat, t: Table, i: nat)
  {
    i < t.n && i != from % t.n && t.pickable(i)
  }

  /** (band, cold cache, scan distance), compared lexicographically and strictly. */
  ghost predicate Before(bands: seq<Class>, from: nat, t: Table, i: nat, j: nat)
    requires i < t.n && j < t.n
  {
    var (bi, bj) := (Position(bands, t.classOf(i)), Position(bands, t.classOf(j)));
    var (si, sj) := (t.sticky(i), t.sticky(j));
    var (di, dj) := (Affinity.Distance(t.n, from, i), Affinity.Distance(t.n, from, j));
    bi < bj || (bi == bj && ((si && !sj) || (si == sj && di < dj)))
  }

  ghost predicate Least(bands: seq<Class>, from: nat, t: Table, s: nat)
  {
    && Candidate(from, t, s)
    && forall i: nat :: Candidate(from, t, i) && i != s ==> Before(bands, from, t, s, i)
  }

  /** One band: the scan finds the best candidate of that band, or there is none. */
  lemma OneBand(band: Class, from: nat, t: Table)
    requires 0 < t.n
    ensures var r := Affinity.Choose(t.n, from, InBand(t, band), t.sticky);
      match r
      case None => forall i: nat :: Candidate(from, t, i) ==> t.classOf(i) != band
      case Some(s) =>
        && Candidate(from, t, s) && t.classOf(s) == band
        && forall i: nat :: Candidate(from, t, i) && i != s && t.classOf(i) == band ==>
             ((t.sticky(s) && !t.sticky(i))
              || (t.sticky(s) == t.sticky(i)
                  && Affinity.Distance(t.n, from, s) < Affinity.Distance(t.n, from, i)))
  {
    var p := InBand(t, band);
    var w := Affinity.Both(p, t.sticky);
    Affinity.FindCyclicIsNearest(t.n, from, w);
    Affinity.FindCyclicIsNearest(t.n, from, p);
    assert forall i: nat :: p(i) <==> t.pickable(i) && t.classOf(i) == band;
    assert forall i: nat :: w(i) <==> p(i) && t.sticky(i);
  }

  /** The same when no slot is being left. */
  lemma OneBandFirst(band: Class, t: Table)
    ensures var r := Affinity.ChooseFirst(t.n, InBand(t, band), t.sticky);
      match r
      case None => forall i: nat :: i < t.n && t.pickable(i) ==> t.classOf(i) != band
      case Some(s) =>
        && s < t.n && t.pickable(s) && t.classOf(s) == band
        && forall i: nat :: i < t.n && t.pickable(i) && i != s && t.classOf(i) == band ==>
             (t.sticky(s) && !t.sticky(i)) || (t.sticky(s) == t.sticky(i) && s < i)
  {
    var p := InBand(t, band);
    var w := Affinity.Both(p, t.sticky);
    Affinity.FindFirstIsLeast(t.n, 0, w);
    Affinity.FindFirstIsLeast(t.n, 0, p);
    assert forall i: nat :: p(i) <==> t.pickable(i) && t.classOf(i) == band;
    assert forall i: nat :: w(i) <==> p(i) && t.sticky(i);
  }

  /** (band, cold cache, slot), compared lexicographically and strictly. */
  ghost predicate BeforeFirst(bands: seq<Class>, t: Table, i: nat, j: nat)
  {
    var (bi, bj) := (Position(bands, t.classOf(i)), Position(bands, t.classOf(j)));
    bi < bj || (bi == bj && ((t.sticky(i) && !t.sticky(j)) || (t.sticky(i) == t.sticky(j) && i < j)))
  }

  lemma {:induction false} ChooseFirstInIsLeast(bands: seq<Class>, t: Table)
    ensures match ChooseFirstIn(bands, t)
      case None => forall i: nat :: i < t.n && t.pickable(i) ==> t.classOf(i) !in bands
      case Some(s) =>
        && s < t.n && t.pickable(s) && t.classOf(s) in bands
        && forall i: nat :: i < t.n && t.pickable(i) && i != s && t.classOf(i) in bands ==> BeforeFirst(bands, t, s, i)
    decreases |bands|
  {
    if bands != [] {
      OneBandFirst(bands[0], t);
      ChooseFirstInIsLeast(bands[1..], t);
    }
  }

  /** With no slot being left it is the same minimum, by slot number instead of by scan distance. */
  lemma ChooseFirstIsLeast(picks: nat, t: Table)
    ensures match ChooseFirst(picks, t)
      case None => forall i: nat :: i < t.n ==> !t.pickable(i)
      case Some(s) =>
        && s < t.n && t.pickable(s)
        && forall i: nat :: i < t.n && t.pickable(i) && i != s ==> BeforeFirst(Bands(picks), t, s, i)
  {
    ChooseFirstInIsLeast(Bands(picks), t);
    BandsComplete(picks);
  }

  lemma {:induction false} ChooseInIsLeast(bands: seq<Class>, from: nat, t: Table)
    requires 0 < t.n
    ensures match ChooseIn(bands, from, t)
      case None => forall i: nat :: Candidate(from, t, i) ==> t.classOf(i) !in bands
      case Some(s) =>
        && Candidate(from, t, s) && t.classOf(s) in bands
        && forall i: nat :: Candidate(from, t, i) && i != s && t.classOf(i) in bands
             ==> Before(bands, from, t, s, i)
    decreases |bands|
  {
    if bands != [] {
      OneBand(bands[0], from, t);
      ChooseInIsLeast(bands[1..], from, t);
    }
  }

  /**
   * `choose` is the lexicographic minimum of (position of the class in the band order, cold cache,
   * scan distance) over every pickable slot except the one being left, and answers `None` exactly
   * when there is no such slot.
   */
  lemma ChooseIsLeast(from: nat, picks: nat, t: Table)
    requires 0 < t.n
    ensures match Choose(from, picks, t)
      case None => forall i: nat :: !Candidate(from, t, i)
      case Some(s) => Least(Bands(picks), from, t, s)
  {
    ChooseInIsLeast(Bands(picks), from, t);
    BandsComplete(picks);
  }

  lemma BandsComplete(picks: nat)
    ensures forall c: Class :: c in Bands(picks)
  {
    forall c: Class ensures c in Bands(picks) {
      var b := Bands(picks);
      match c
      case Latency => assert b[0] == c || b[2] == c;
      case Normal => assert b[0] == c || b[1] == c;
      case Bulk => assert b[0] == c || b[1] == c || b[2] == c;
    }
  }
}
