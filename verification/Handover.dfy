/**
 * services/qstaros (qstaroswindow.cpp, qstarosconnection.cpp, qstarosbackingstore.cpp) against
 * services/displaysrv: the client half of double buffering, as the steps of two processes that share
 * pages and exchange messages, with no fence between them.
 *
 * Assumed of the environment, because the pairing of answers rests on it: sends do not fail, every
 * request is answered, and commits are accepted. Of Qt nothing is assumed but that it paints where it
 * is told to; the results about whole frames say, window by window, that its flushes must have covered
 * what it painted, and `FlushMustCoverPaint` says exactly what is lost otherwise.
 */
module Handover {
  import opened Common
  import Surfaces

  type Pixels = seq<Surfaces.Colour>

  /** `base` with the positions in `at` taken from `src`. */
  function Overlay(base: Pixels, at: set<nat>, src: Pixels): (r: Pixels)
    requires |src| == |base|
    ensures |r| == |base| && forall i :: 0 <= i < |r| ==> r[i] == if i in at then src[i] else base[i]
  {
    seq(|base|, i requires 0 <= i < |base| => if i in at then src[i] else base[i])
  }

  ghost predicate AgreeOutside(a: Pixels, b: Pixels, at: set<nat>)
  {
    |a| == |b| && forall i :: 0 <= i < |a| && i !in at ==> a[i] == b[i]
  }

  // ---- State ----

  /**
   * One window of the client: its two buffers, the one Qt paints into, and the positions still to be
   * copied into it. `canvas` is the frame Qt means; `dirty` is where it has painted since the
   * last flush; `posted` says whether this surface has ever been committed.
   */
  datatype Window = Window(open: bool, bufs: seq<Pixels>, back: nat, owed: set<nat>,
                           canvas: Pixels, dirty: set<nat>, posted: bool)

  datatype Request =
    | Create(w: nat, size: nat)
    | Commit(w: nat, damage: set<nat>, buffer: nat)
    | Destroy(w: nat)
    | Other(w: nat)

  /** An answer carries no name on the wire; `to` records which question it answers. */
  datatype Reply = Reply(to: Request)

  /** What the server has for one window: the buffer its surface points at, and the last frame committed. */
  datatype Surface = NoSurface | Surface(points: nat, frame: Option<Pixels>)

  datatype State = State(
    windows: seq<Window>,
    commitPending: Option<Request>,
    calling: Option<Request>,
    requests: seq<Request>,
    replies: seq<Reply>,
    surfaces: seq<Surface>)

  // ---- Steps ----

  datatype Event =
    /** Qt paints into the back buffer, which `beginPaint` has settled. */
    | Paint(w: nat, at: set<nat>, src: Pixels)
    /** `present`: post the painted buffer, make the other one current, owe a restore. */
    | Post(w: nat, damage: set<nat>)
    /** `collectCommit`: take the answer to the outstanding commit. */
    | Collect
    /** The second half of `settle`: copy the owed damage into the new back buffer. */
    | Restore(w: nat)
    /** `call`: a request that waits for its answer. */
    | Call(request: Request)
    | Return
    /** The server takes one request, acts on it, and answers. */
    | Serve

  predicate WindowOf(s: State, w: nat)
  {
    w < |s.windows| && s.windows[w].open
  }

  /** The client is one thread: while a call is outstanding it does nothing else. */
  predicate Enabled(s: State, e: Event)
  {
    match e
    case Paint(w, at, src) =>
      && s.calling.None? && WindowOf(s, w) && s.windows[w].owed == {}
      && |src| == |s.windows[w].canvas| && forall i :: i in at ==> i < |src|
    case Post(w, damage) =>
      && s.calling.None? && s.commitPending.None? && WindowOf(s, w) && s.windows[w].owed == {}
      && damage != {}
    case Collect => s.calling.None? && s.commitPending.Some? && s.replies != []
    case Restore(w) => s.calling.None? && s.commitPending.None? && WindowOf(s, w) && s.windows[w].owed != {}
    case Call(r) =>
      && s.calling.None? && s.commitPending.None? && r.w < |s.windows| && !r.Commit?
      && (r.Create? ==> !s.windows[r.w].open)
      && (r.Destroy? ==> s.windows[r.w].open && s.windows[r.w].owed == {})
    case Return => s.calling.Some? && s.replies != []
    case Serve => s.requests != []
  }

  /** Fresh shared buffers arrive zeroed; the first surface is created over buffer 0, which is also painted first. */
  function OpenWindow(size: nat): Window
  {
    var blank := seq(size, _ => 0);
    Window(true, [blank, blank], 0, {}, blank, {}, false)
  }

  function Closed(w: Window): Window
  {
    w.(open := false, owed := {}, dirty := {}, posted := false)
  }

  /** What the answer to a call makes of the window that asked. */
  function Returned(w: Window, r: Request): Window
  {
    if r.Create? then OpenWindow(r.size) else if r.Destroy? then Closed(w) else w
  }

  function Painted(w: Window, at: set<nat>, src: Pixels): Window
    requires |w.bufs| == 2 && w.back < 2 && |src| == |w.canvas| == |w.bufs[w.back]|
  {
    w.(bufs := w.bufs[w.back := Overlay(w.bufs[w.back], at, src)],
       canvas := Overlay(w.canvas, at, src),
       dirty := w.dirty + at)
  }

  function Presented(w: Window, damage: set<nat>): Window
    requires w.back < 2
  {
    w.(back := 1 - w.back, owed := damage, dirty := {}, posted := true)
  }

  function Restored(w: Window): Window
    requires |w.bufs| == 2 && w.back < 2 && |w.bufs[0]| == |w.bufs[1]|
  {
    w.(bufs := w.bufs[w.back := Overlay(w.bufs[w.back], w.owed, w.bufs[1 - w.back])], owed := {})
  }

  function Answered(x: Surface, win: Window, r: Request): Surface
    requires |win.bufs| == 2 && (r.Commit? ==> r.buffer < 2)
  {
    match r
    case Create(_, _) => Surface(0, None)
    case Destroy(_) => NoSurface
    case Commit(_, _, b) => if x.Surface? then Surface(b, Some(win.bufs[b])) else x
    case Other(_) => x
  }

  ghost predicate Shape(s: State)
  {
    && |s.surfaces| == |s.windows|
    && (forall w :: 0 <= w < |s.windows| ==> WindowShape(s.windows[w]))
    && (forall i :: 0 <= i < |s.requests| ==> RequestShape(s, s.requests[i]))
    && (s.calling.Some? ==> RequestShape(s, s.calling.value))
    && (s.commitPending.Some? ==> RequestShape(s, s.commitPending.value))
  }

  ghost predicate WindowShape(w: Window)
  {
    |w.bufs| == 2 && w.back < 2 && |w.bufs[0]| == |w.bufs[1]| == |w.canvas|
  }

  ghost predicate RequestShape(s: State, r: Request)
  {
    r.w < |s.windows| && (r.Commit? ==> r.buffer < 2)
  }

  function Apply(s: State, e: Event): State
    requires Shape(s) && Enabled(s, e)
  {
    match e
    case Paint(w, at, src) => s.(windows := s.windows[w := Painted(s.windows[w], at, src)])
    case Post(w, damage) =>
      var r := Commit(w, damage, s.windows[w].back);
      s.(windows := s.windows[w := Presented(s.windows[w], damage)],
         requests := s.requests + [r], commitPending := Some(r))
    case Collect => s.(replies := s.replies[1..], commitPending := None)
    case Restore(w) => s.(windows := s.windows[w := Restored(s.windows[w])])
    case Call(r) => s.(requests := s.requests + [r], calling := Some(r))
    case Return =>
      var r := s.calling.value;
      s.(replies := s.replies[1..], calling := None, windows := s.windows[r.w := Returned(s.windows[r.w], r)])
    case Serve =>
      var r := s.requests[0];
      s.(requests := s.requests[1..], replies := s.replies + [Reply(r)],
         surfaces := s.surfaces[r.w := Answered(s.surfaces[r.w], s.windows[r.w], r)])
  }

  // ---- The invariant ----

  /** The one question, if any, that has not been answered and read. */
  function Outstanding(s: State): Option<Request>
  {
    if s.calling.Some? then s.calling else s.commitPending
  }

  ghost predicate OneOutstanding(s: State)
  {
    && (s.calling.Some? ==> s.commitPending.None? && !s.calling.value.Commit?)
    && (s.commitPending.Some? ==> s.commitPending.value.Commit?)
    && match Outstanding(s)
       case None => s.requests == [] && s.replies == []
       case Some(r) => (s.requests == [r] && s.replies == []) || (s.requests == [] && s.replies == [Reply(r)])
  }

  /** The commit of window `w` that the server has not acted on yet. */
  ghost predicate Unserved(s: State, w: nat)
  {
    s.requests != [] && s.requests[0].Commit? && s.requests[0].w == w
  }

  /** Both buffers hold the frame Qt means, but for what is dirty, what is owed, and what a flush missed. */
  ghost predicate BuffersOk(win: Window, missed: set<nat>)
  {
    && WindowShape(win)
    && (win.owed == {} ==>
          AgreeOutside(win.bufs[win.back], win.canvas, missed)
          && AgreeOutside(win.bufs[1 - win.back], win.canvas, missed + win.dirty))
    && (win.owed != {} ==>
          win.dirty == {} && AgreeOutside(win.bufs[1 - win.back], win.canvas, missed)
          && AgreeOutside(win.bufs[win.back], win.canvas, missed + win.owed))
  }

  /** The server points away from the back buffer, except at a commit it has yet to act on. */
  ghost predicate PointsAway(s: State, w: nat)
    requires w < |s.windows| && w < |s.surfaces|
  {
    var (win, x) := (s.windows[w], s.surfaces[w]);
    && x.Surface? && x.points < 2
    && (!win.posted ==> win.back == 0 && x.points == 0 && x.frame == None && win.owed == {})
    && (win.posted && !Unserved(s, w) ==> x.points == 1 - win.back && x.frame.Some?)
    && (x.frame.Some? ==> |win.bufs| == 2 && win.bufs[x.points] == x.frame.value)
    && (Unserved(s, w) && x.frame.Some? ==> x.points == win.back)
  }

  /** A commit still being waited for is the one its window posted last. */
  ghost predicate PendingMatches(s: State)
  {
    s.commitPending.Some? && s.commitPending.value.Commit? && s.commitPending.value.w < |s.windows| ==>
      var r := s.commitPending.value;
      var win := s.windows[r.w];
      win.open && win.posted && r.damage == win.owed && win.owed != {} && win.back < 2 && r.buffer == 1 - win.back
  }

  ghost predicate WindowOk(s: State, w: nat)
    requires w < |s.windows| && w < |s.surfaces|
  {
    && (s.windows[w].open && s.calling != Some(Destroy(w)) ==> PointsAway(s, w))
    && (s.calling == Some(Destroy(w)) ==> s.windows[w].open)
    && (Creating(s, w) ==> !s.windows[w].open && (s.requests == [] ==> s.surfaces[w] == Surface(0, None)))
  }

  ghost predicate Creating(s: State, w: nat)
  {
    s.calling.Some? && s.calling.value.Create? && s.calling.value.w == w
  }

  ghost predicate Inv(s: State)
  {
    && Shape(s) && OneOutstanding(s) && PendingMatches(s)
    && forall w: nat :: w < |s.windows| ==> WindowOk(s, w)
  }

  // ---- Every step keeps it ----

  /** A settled window has no commit waiting, so the server points at the other buffer. */
  lemma SettledPointsAway(s: State, w: nat)
    requires Inv(s) && WindowOf(s, w) && s.calling.None?
    requires s.windows[w].owed == {} || s.commitPending.None?
    ensures PointsAway(s, w) && !Unserved(s, w)
    ensures s.windows[w].posted ==> s.surfaces[w].points == 1 - s.windows[w].back
  {
    assert WindowOk(s, w);
  }

  lemma PaintKeepsInv(s: State, w: nat, at: set<nat>, src: Pixels)
    requires Inv(s) && Enabled(s, Paint(w, at, src))
    ensures Inv(Apply(s, Paint(w, at, src)))
  {
    var s' := Apply(s, Paint(w, at, src));
    SettledPointsAway(s, w);
    forall v: nat | v < |s'.windows| ensures WindowOk(s', v) {
      assert WindowOk(s, v);
    }
  }

  lemma PostKeepsInv(s: State, w: nat, damage: set<nat>)
    requires Inv(s) && Enabled(s, Post(w, damage))
    ensures Inv(Apply(s, Post(w, damage)))
  {
    var s' := Apply(s, Post(w, damage));
    SettledPointsAway(s, w);
    forall v: nat | v < |s'.windows| ensures WindowOk(s', v) {
      assert WindowOk(s, v);
    }
  }

  lemma CollectKeepsInv(s: State)
    requires Inv(s) && Enabled(s, Collect)
    ensures Inv(Apply(s, Collect))
  {
    var s' := Apply(s, Collect);
    forall v: nat | v < |s'.windows| ensures WindowOk(s', v) {
      assert WindowOk(s, v);
    }
  }

  lemma RestoreKeepsInv(s: State, w: nat)
    requires Inv(s) && Enabled(s, Restore(w))
    ensures Inv(Apply(s, Restore(w)))
  {
    var s' := Apply(s, Restore(w));
    SettledPointsAway(s, w);
    forall v: nat | v < |s'.windows| ensures WindowOk(s', v) {
      assert WindowOk(s, v);
    }
  }

  lemma CallKeepsInv(s: State, r: Request)
    requires Inv(s) && Enabled(s, Call(r))
    ensures Inv(Apply(s, Call(r)))
  {
    var s' := Apply(s, Call(r));
    forall v: nat | v < |s'.windows| ensures WindowOk(s', v) {
      assert WindowOk(s, v);
    }
  }

  lemma ReturnKeepsInv(s: State)
    requires Inv(s) && Enabled(s, Return)
    ensures Inv(Apply(s, Return))
  {
    var s' := Apply(s, Return);
    forall v: nat | v < |s'.windows| ensures WindowOk(s', v) {
      assert WindowOk(s, v);
    }
  }

  lemma ServeKeepsInv(s: State)
    requires Inv(s) && Enabled(s, Serve)
    ensures Inv(Apply(s, Serve))
  {
    var s' := Apply(s, Serve);
    forall v: nat | v < |s'.windows| ensures WindowOk(s', v) {
      assert WindowOk(s, v);
    }
  }

  lemma StepKeepsInv(s: State, e: Event)
    requires Inv(s) && Enabled(s, e)
    ensures Inv(Apply(s, e))
  {
    match e
    case Paint(w, at, src) => PaintKeepsInv(s, w, at, src);
    case Post(w, damage) => PostKeepsInv(s, w, damage);
    case Collect => CollectKeepsInv(s);
    case Restore(w) => RestoreKeepsInv(s, w);
    case Call(r) => CallKeepsInv(s, r);
    case Return => ReturnKeepsInv(s);
    case Serve => ServeKeepsInv(s);
  }

  // ---- Every run ----

  ghost predicate Initial(s: State)
  {
    && |s.surfaces| == |s.windows| && s.requests == [] && s.replies == []
    && s.calling.None? && s.commitPending.None?
    && forall w :: 0 <= w < |s.windows| ==> WindowShape(s.windows[w]) && !s.windows[w].open
  }

  ghost predicate StepAt(states: seq<State>, events: seq<Event>, k: nat)
    requires k < |events| && |states| == |events| + 1
  {
    Enabled(states[k], events[k]) && (Shape(states[k]) ==> states[k + 1] == Apply(states[k], events[k]))
  }

  /** Client and server interleaved in any order; any number of windows on one connection. */
  ghost predicate IsRun(states: seq<State>, events: seq<Event>)
  {
    && |states| == |events| + 1
    && Initial(states[0])
    && forall k: nat :: k < |events| ==> StepAt(states, events, k)
  }

  lemma {:induction false} EveryRunKeepsInv(states: seq<State>, events: seq<Event>, k: nat)
    requires IsRun(states, events) && k < |states|
    ensures Inv(states[k])
  {
    if k > 0 {
      EveryRunKeepsInv(states, events, k - 1);
      assert StepAt(states, events, k - 1);
      StepKeepsInv(states[k - 1], events[k - 1]);
    }
  }

  /** At most one question is ever open, so whoever reads an answer reads its own. */
  lemma EveryAnswerIsItsOwn(states: seq<State>, events: seq<Event>, k: nat)
    requires IsRun(states, events) && k < |events|
    ensures |states[k].requests| + |states[k].replies| <= 1
    ensures events[k].Return? ==> states[k].calling.Some? && states[k].replies == [Reply(states[k].calling.value)]
    ensures events[k].Collect? ==>
      states[k].commitPending.Some? && states[k].replies == [Reply(states[k].commitPending.value)]
  {
    EveryRunKeepsInv(states, events, k);
    assert StepAt(states, events, k);
  }

  /** From a window's first commit on, neither painting nor restoring touches the buffer on the server's side. */
  lemma NeverWritesWhatServerShows(states: seq<State>, events: seq<Event>, k: nat, w: nat)
    requires IsRun(states, events) && k < |events|
    requires (events[k].Paint? || events[k].Restore?) && events[k].w == w && w < |states[k].windows|
    requires states[k].windows[w].posted
    ensures w < |states[k].surfaces| && states[k].surfaces[w].Surface?
         && states[k].surfaces[w].points != states[k].windows[w].back
  {
    EveryRunKeepsInv(states, events, k);
    assert StepAt(states, events, k);
    SettledPointsAway(states[k], w);
  }

  /** Whatever the server reads of a committed window, at any moment, is the whole of the last frame committed. */
  lemma ServerSeesWholeFrames(states: seq<State>, events: seq<Event>, k: nat, w: nat)
    requires IsRun(states, events) && k < |states| && w < |states[k].windows|
    ensures var s := states[k];
      && w < |s.surfaces|
      && (s.windows[w].open && s.calling != Some(Destroy(w)) && s.surfaces[w].Surface? && s.surfaces[w].frame.Some? ==>
            && s.surfaces[w].points < 2 == |s.windows[w].bufs|
            && s.windows[w].bufs[s.surfaces[w].points] == s.surfaces[w].frame.value)
  {
    EveryRunKeepsInv(states, events, k);
    assert WindowOk(states[k], w);
  }

  /** What the server takes up is the posted buffer as it is, all of it. */
  lemma CommitTakesPostedBuffer(states: seq<State>, events: seq<Event>, k: nat)
    requires IsRun(states, events) && k < |events| && events[k].Serve?
    requires states[k].requests != [] && states[k].requests[0].Commit?
    ensures var s := states[k];
      var r := s.requests[0];
      && r.w < |s.windows| == |states[k + 1].surfaces| && r.buffer < 2 && WindowShape(s.windows[r.w])
      && s.windows[r.w].open && s.windows[r.w].owed == r.damage != {} && r.buffer == 1 - s.windows[r.w].back
      && states[k + 1].surfaces[r.w] == Surface(r.buffer, Some(s.windows[r.w].bufs[r.buffer]))
  {
    EveryRunKeepsInv(states, events, k);
    assert StepAt(states, events, k);
    assert WindowOk(states[k], states[k].requests[0].w);
  }

  // ---- Whole frames ----

  /** What this step, if it flushes window `w`, leaves out of what was painted there since the last flush. */
  function MissedBy(s: State, e: Event, w: nat): set<nat>
  {
    if e.Post? && e.w == w && w < |s.windows| then s.windows[w].dirty - e.damage else {}
  }

  /** The step makes up for what flushes of window `w` missed at position `i`: it is painted anew, or the window is. */
  predicate MakesUp(s: State, e: Event, w: nat, i: nat)
  {
    || (e.Paint? && e.w == w && i in e.at)
    || (e.Return? && s.calling.Some? && s.calling.value.Create? && s.calling.value.w == w)
  }

  /** What flushes of window `w` have missed and nothing has made up for. */
  function MissedAfter(s: State, e: Event, w: nat, missed: set<nat>): set<nat>
  {
    (set i | i in missed && !MakesUp(s, e, w, i)) + MissedBy(s, e, w)
  }

  ghost function Missed(states: seq<State>, events: seq<Event>, w: nat, k: nat): set<nat>
    requires |states| == |events| + 1 && k <= |events|
  {
    if k == 0 then {} else MissedAfter(states[k - 1], events[k - 1], w, Missed(states, events, w, k - 1))
  }

  /** Position `i` was missed by flush `j`, and no step from there to `k` has made up for it. */
  ghost predicate MissedSince(states: seq<State>, events: seq<Event>, w: nat, k: nat, i: nat, j: nat)
    requires |states| == |events| + 1 && k <= |events|
  {
    && j < k && i in MissedBy(states[j], events[j], w)
    && forall m: nat :: j < m < k ==> !MakesUp(states[m], events[m], w, i)
  }

  lemma {:induction false} MissedExactly(states: seq<State>, events: seq<Event>, w: nat, k: nat, i: nat)
    requires |states| == |events| + 1 && k <= |events|
    ensures i in Missed(states, events, w, k) <==> exists j: nat :: MissedSince(states, events, w, k, i, j)
  {
    if k > 0 {
      var before: nat := k - 1;
      MissedExactly(states, events, w, before, i);
      if i in MissedBy(states[k - 1], events[k - 1], w) {
        assert MissedSince(states, events, w, k, i, k - 1);
      } else if !MakesUp(states[k - 1], events[k - 1], w, i) {
        if j: nat :| MissedSince(states, events, w, before, i, j) {
          assert MissedSince(states, events, w, k, i, j);
        }
      }
      if j: nat :| MissedSince(states, events, w, k, i, j) {
        assert j < before ==> MissedSince(states, events, w, before, i, j);
      }
    }
  }

  lemma BuffersKept(s: State, e: Event, w: nat, missed: set<nat>)
    requires Shape(s) && Enabled(s, e) && w < |s.windows|
    requires s.windows[w].open ==> BuffersOk(s.windows[w], missed)
    ensures w < |Apply(s, e).windows|
    ensures Apply(s, e).windows[w].open ==> BuffersOk(Apply(s, e).windows[w], MissedAfter(s, e, w, missed))
  {
    var missed' := MissedAfter(s, e, w, missed);
    match e
    case Paint(x, at, src) =>
      assert missed' == if x == w then missed - at else missed;
      if x == w && s.windows[w].open {
        PaintedOk(s.windows[w], at, src, missed);
      }
    case Post(x, damage) =>
      assert missed' == missed + MissedBy(s, e, w);
      if x == w && s.windows[w].open {
        PresentedOk(s.windows[w], damage, missed);
      }
    case Restore(x) =>
      assert missed' == missed;
      if x == w && s.windows[w].open {
        RestoredOk(s.windows[w], missed);
      }
    case Return =>
      var r := s.calling.value;
      if r.Create? && r.w == w {
        OpenedOk(r.size, missed');
      } else {
        assert missed' == missed;
      }
    case _ => assert missed' == missed;
  }

  lemma OpenedOk(size: nat, missed: set<nat>)
    ensures BuffersOk(OpenWindow(size), missed)
  {
  }

  lemma PaintedOk(win: Window, at: set<nat>, src: Pixels, missed: set<nat>)
    requires BuffersOk(win, missed) && win.owed == {} && |src| == |win.canvas|
    ensures BuffersOk(Painted(win, at, src), missed - at)
  {
  }

  lemma PresentedOk(win: Window, damage: set<nat>, missed: set<nat>)
    requires BuffersOk(win, missed) && win.owed == {} && damage != {}
    ensures BuffersOk(Presented(win, damage), missed + (win.dirty - damage))
  {
  }

  lemma RestoredOk(win: Window, missed: set<nat>)
    requires BuffersOk(win, missed) && win.owed != {}
    ensures BuffersOk(Restored(win), missed)
  {
  }

  /** On every run, whatever Qt flushes: a buffer is wrong only where something is dirty, owed or was missed. */
  lemma {:induction false} WrongOnlyWhereMissed(states: seq<State>, events: seq<Event>, w: nat, k: nat)
    requires IsRun(states, events) && k < |states| && w < |states[k].windows|
    ensures states[k].windows[w].open ==> BuffersOk(states[k].windows[w], Missed(states, events, w, k))
  {
    if k > 0 {
      EveryRunKeepsInv(states, events, k - 1);
      assert StepAt(states, events, k - 1);
      WrongOnlyWhereMissed(states, events, w, k - 1);
      BuffersKept(states[k - 1], events[k - 1], w, Missed(states, events, w, k - 1));
    }
  }

  /** A commit is acted on with the frame Qt meant in its buffer, differing from the other only in the damage. */
  lemma CommittedFrameIsComplete(states: seq<State>, events: seq<Event>, k: nat)
    requires IsRun(states, events) && k < |events| && events[k].Serve?
    requires states[k].requests != [] && states[k].requests[0].Commit?
    requires Missed(states, events, states[k].requests[0].w, k) == {}
    ensures var s := states[k];
      var r := s.requests[0];
      && r.w < |s.windows| == |states[k + 1].surfaces| && r.buffer < 2 && WindowShape(s.windows[r.w])
      && states[k + 1].surfaces[r.w] == Surface(r.buffer, Some(s.windows[r.w].canvas))
      && AgreeOutside(s.windows[r.w].bufs[1 - r.buffer], s.windows[r.w].bufs[r.buffer], r.damage)
  {
    CommitTakesPostedBuffer(states, events, k);
    WrongOnlyWhereMissed(states, events, states[k].requests[0].w, k);
    var r := states[k].requests[0];
    var win := states[k].windows[r.w];
    assert win.bufs[r.buffer] == win.canvas;
  }

  /** Once settled, both buffers hold the frame, everywhere. */
  lemma SettledBuffersAgree(states: seq<State>, events: seq<Event>, k: nat, w: nat)
    requires IsRun(states, events) && k < |events| && events[k] == Restore(w) && Missed(states, events, w, k) == {}
    ensures w < |states[k + 1].windows|
         && states[k + 1].windows[w].bufs == [states[k + 1].windows[w].canvas, states[k + 1].windows[w].canvas]
  {
    EveryRunKeepsInv(states, events, k);
    assert StepAt(states, events, k);
    WrongOnlyWhereMissed(states, events, w, k);
    var (win, win') := (states[k].windows[w], states[k + 1].windows[w]);
    assert win'.bufs[1 - win.back] == win.canvas && win'.bufs[win.back] == win.canvas;
  }

  // ---- What a flush must cover ----

  /**
   * Starting from two equal buffers, one paint, one flush and one settle leave them equal again exactly
   * when every position the paint really changed lies in the flushed damage.
   */
  lemma FlushMustCoverPaint(w: Window, at: set<nat>, src: Pixels, damage: set<nat>)
    requires WindowShape(w) && w.bufs[0] == w.bufs[1] && |src| == |w.canvas| && w.owed == {}
    ensures var after := Restored(Presented(Painted(w, at, src), damage));
      after.bufs[0] == after.bufs[1] <==>
      forall i :: 0 <= i < |src| && i in at && src[i] != w.bufs[0][i] ==> i in damage
  {
  }

  /** So a paint outside the flush leaves a stale pixel to be shown two frames later. */
  lemma UncoveredPaintIsStale()
    ensures var w := OpenWindow(2);
      var after := Restored(Presented(Painted(w, {1}, [7, 7]), {0}));
      after.bufs[after.back][1] == 0 && after.canvas[1] == 7
  {
  }
}

/**
 * services/qstaros/qstaroswindow.cpp: the restore copy itself, row by row between the two buffers.
 */
module RestoreCopy {
  import opened Common
  import Surfaces
  import opened Handover

  /** Position `i` of a packed buffer `width` pixels wide lies in the rectangle. */
  predicate Inside(i: nat, width: nat, left: nat, top: nat, w: nat, h: nat)
    requires 0 < width
  {
    left <= i % width < left + w && top <= i / width < top + h
  }

  function Positions(size: nat, width: nat, left: nat, top: nat, w: nat, h: nat): set<nat>
    requires 0 < width
  {
    set i: nat | i < size && Inside(i, width, left, top, w, h)
  }

  lemma PositionOf(width: nat, row: nat, col: nat)
    requires col < width
    ensures (row * width + col) / width == row && (row * width + col) % width == col
  {
    ModUnique(row * width + col, width, row, col);
  }

  /** One `memcpy`: `w` pixels of row `y`, from column `left`. */
  method CopyRow(to: array<Surfaces.Colour>, from: array<Surfaces.Colour>, width: nat, left: nat, w: nat, y: nat)
    requires to != from && to.Length == from.Length && left + w <= width && 0 < width
    requires y * width + width <= to.Length
    modifies to
    ensures forall i :: 0 <= i < to.Length ==>
      to[i] == if i / width == y && left <= i % width < left + w then from[i] else old(to[i])
  {
    var start := y * width + left;
    forall j | 0 <= j < w {
      to[start + j] := from[start + j];
    }
    forall i | 0 <= i < to.Length
      ensures i / width == y && left <= i % width < left + w <==> start <= i < start + w
    {
      if start <= i < start + w {
        PositionOf(width, y, i - y * width);
      }
      if i / width == y {
        assert i == y * width + i % width;
      }
    }
  }

  /** The row loop of `settle` copies exactly the damage rectangle and leaves every other pixel. */
  method Restore(to: array<Surfaces.Colour>, from: array<Surfaces.Colour>, width: nat, height: nat, left: nat, top: nat, w: nat, h: nat)
    requires to != from && to.Length == from.Length == height * width && 0 < width
    requires left + w <= width && top + h <= height
    modifies to
    ensures to[..] == Overlay(old(to[..]), Positions(to.Length, width, left, top, w, h), from[..])
  {
    ghost var was := to[..];
    var y := top;
    while y < top + h
      invariant top <= y <= top + h && from[..] == old(from[..])
      invariant forall i :: 0 <= i < to.Length ==>
        to[i] == if Inside(i, width, left, top, w, y - top) then from[i] else was[i]
    {
      MulBefore(y, height, width);
      CopyRow(to, from, width, left, w, y);
      y := y + 1;
    }
  }
}
