/**
 * services/qstaros as it is written: a connection with one flag, windows with a damage rectangle they
 * still owe, a backing store holding a view over one of a window's buffers. Every method is shown to take
 * steps of `Handover` that are enabled when it takes them, so what holds over every run there holds here,
 * and the order of those steps (settle, then paint, then post) comes from the code and not from a guard.
 */
module QtClient {
  import opened Common
  import opened Handover
  import RestoreCopy
  import Surfaces

  /** A rectangle in a window's own pixels. */
  datatype Area = Area(left: nat, top: nat, w: nat, h: nat) {
    predicate Empty() { w == 0 || h == 0 }
  }

  const NOWHERE := Area(0, 0, 0, 0)

  /** What the backing store's image is laid over: nothing, pages no window uses any more, or a buffer. */
  datatype Image = Null | Elsewhere(width: nat, height: nat) | View(buffer: nat)

  /** The window's own bookkeeping: the size of its buffers, the restore it owes, and the store's image. */
  datatype Frame = Frame(width: nat, height: nat, owed: Area, image: Image)

  /** The bounding rectangle of a region, cut to the buffer. */
  function Clipped(f: Frame, left: int, top: int, w: nat, h: nat): (a: Area)
    ensures a.left + a.w <= f.width && a.top + a.h <= f.height
  {
    var (l, t) := (Max(left, 0), Max(top, 0));
    var (r, b) := (Min(left + w, f.width), Min(top + h, f.height));
    if l < r && t < b then Area(l, t, r - l, b - t) else NOWHERE
  }

  /** What is posted of a flush is what of it lies in the buffer, no pixel more and no pixel less. */
  lemma ClippedExactly(f: Frame, left: int, top: int, w: nat, h: nat, x: nat, y: nat)
    ensures var a := Clipped(f, left, top, w, h);
      a.left <= x < a.left + a.w && a.top <= y < a.top + a.h <==>
      x < f.width && y < f.height && left <= x < left + w && top <= y < top + h
  {
  }

  /** Position `i` of the buffer lies in the rectangle flushed. */
  predicate Flushed(f: Frame, left: int, top: int, w: nat, h: nat, i: nat)
  {
    i < f.height * f.width && f.width > 0 && left <= i % f.width < left + w && top <= i / f.width < top + h
  }

  lemma CoveredExactly(f: Frame, left: int, top: int, w: nat, h: nat)
    ensures forall i :: i in Covered(f, Clipped(f, left, top, w, h)) <==> Flushed(f, left, top, w, h, i)
  {
    forall i: nat ensures i in Covered(f, Clipped(f, left, top, w, h)) <==> Flushed(f, left, top, w, h, i) {
      if f.width > 0 && i < f.height * f.width {
        ClippedExactly(f, left, top, w, h, i % f.width, i / f.width);
        RowOf(f.width, f.height, i);
      }
    }
  }

  lemma RowOf(width: nat, height: nat, i: nat)
    requires 0 < width && i < height * width
    ensures i / width < height
  {
    if height <= i / width {
      MulMonotone(height, i / width, width);
    }
  }

  function Covered(f: Frame, a: Area): set<nat>
  {
    if a.Empty() || f.width == 0 then {}
    else RestoreCopy.Positions(f.height * f.width, f.width, a.left, a.top, a.w, a.h)
  }

  /** A rectangle that is not empty and lies in the buffer has at least its corner in it. */
  lemma CornerCovered(f: Frame, a: Area)
    requires !a.Empty() && a.left + a.w <= f.width && a.top + a.h <= f.height
    ensures a.top * f.width + a.left in Covered(f, a) && Covered(f, a) != {}
  {
    RestoreCopy.PositionOf(f.width, a.top, a.left);
    MulBefore(a.top, f.height, f.width);
  }

  ghost predicate FrameOk(win: Window, f: Frame)
  {
    && (!f.owed.Empty() ==> win.open && f.owed.left + f.owed.w <= f.width && f.owed.top + f.owed.h <= f.height)
    && (win.open ==>
          && 0 < f.width && 0 < f.height && |win.bufs| == 2 && |win.bufs[0]| == |win.bufs[1]| == f.height * f.width
          && win.owed == Covered(f, f.owed))
  }

  /** The store's image, if it lies over this window's buffers at all, lies over the one Qt may write. */
  ghost predicate Aimed(win: Window, f: Frame)
  {
    f.image.View? ==> win.open && f.image.buffer == win.back
  }

  lemma RunOneMore(states: seq<State>, events: seq<Event>, e: Event, s: State)
    requires IsRun(states, events) && Shape(states[|events|]) && Enabled(states[|events|], e)
    requires s == Apply(states[|events|], e)
    ensures IsRun(states + [s], events + [e])
  {
    var (states', events') := (states + [s], events + [e]);
    forall k: nat | k < |events'| ensures StepAt(states', events', k) {
      assert k < |events| ==> StepAt(states, events, k);
    }
  }

  /** What a run has missed up to now depends on nothing that happens later. */
  lemma {:induction false} MissedOfPrefix(states: seq<State>, events: seq<Event>, e: Event, s: State, w: nat, k: nat)
    requires |states| == |events| + 1 && k <= |events|
    ensures Missed(states + [s], events + [e], w, k) == Missed(states, events, w, k)
  {
    if k > 0 {
      MissedOfPrefix(states, events, e, s, w, k - 1);
    }
  }

  /** A settled window's back buffer is the frame Qt means, if its flushes have missed nothing. */
  lemma BackHoldsCanvas(states: seq<State>, events: seq<Event>, w: nat)
    requires IsRun(states, events) && WindowOf(states[|events|], w) && states[|events|].windows[w].owed == {}
    requires Missed(states, events, w, |events|) == {}
    ensures WindowShape(states[|events|].windows[w])
    ensures states[|events|].windows[w].bufs[states[|events|].windows[w].back] == states[|events|].windows[w].canvas
  {
    WrongOnlyWhereMissed(states, events, w, |events|);
  }

  /** Every stroke in turn: the frame Qt means. */
  ghost function AfterStrokes(base: Pixels, strokes: seq<(set<nat>, Pixels)>): (r: Pixels)
    requires forall i :: 0 <= i < |strokes| ==> |strokes[i].1| == |base|
    ensures |r| == |base|
    decreases |strokes|
  {
    if strokes == [] then base
    else
      var n := |strokes| - 1;
      Overlay(AfterStrokes(base, strokes[..n]), strokes[n].0, strokes[n].1)
  }

  /** A window once whatever it owes has been restored. */
  ghost function SettledWindow(win: Window): Window
    requires WindowShape(win)
  {
    if win.owed == {} then win else Restored(win)
  }

  /** The strokes have gone into the back buffer and into the frame Qt means alike. */
  ghost predicate StrokesMade(was: Window, now: Window, strokes: seq<(set<nat>, Pixels)>)
  {
    && WindowShape(was) && WindowShape(now) && now.back == was.back
    && (forall i :: 0 <= i < |strokes| ==> |strokes[i].1| == |was.canvas|)
    && now.canvas == AfterStrokes(was.canvas, strokes)
    && now.bufs[now.back] == AfterStrokes(was.bufs[was.back], strokes)
  }

  lemma StrokesOneMore(was: Window, now: Window, strokes: seq<(set<nat>, Pixels)>, at: set<nat>, src: Pixels)
    requires StrokesMade(was, now, strokes) && |src| == |was.canvas|
    ensures StrokesMade(was, Painted(now, at, src), strokes + [(at, src)])
  {
    assert (strokes + [(at, src)])[..|strokes|] == strokes;
  }

  /** Some of what is flushed lies in an open window's buffer. */
  predicate Shows(was: State, f: Frame, w: nat, left: int, top: int, width: nat, height: nat)
  {
    WindowOf(was, w) && !Clipped(f, left, top, width, height).Empty()
  }

  /**
   * What a flush comes to: the buffer painted has been posted with the flushed part of it as damage, and the
   * other one, that part still owed to it, is the one to paint next; or nothing, if none of it shows.
   */
  ghost predicate FlushedInto(was: State, f: Frame, w: nat, left: int, top: int, width: nat, height: nat,
                              now: State, f': Frame)
    requires Shape(was) && w < |was.windows|
  {
    && w < |now.windows|
    && var area := Clipped(f, left, top, width, height);
       if Shows(was, f, w, left, top, width, height) then
         && now.windows[w] == Presented(SettledWindow(was.windows[w]), Covered(f, area))
         && now.commitPending == Some(Commit(w, Covered(f, area), was.windows[w].back)) && f'.owed == area
       else now.windows[w] == was.windows[w] && f'.owed == f.owed
  }

  /** A shared buffer as the process sees it once mapped. */
  method MapBuffer(pixels: Pixels) returns (a: array<Surfaces.Colour>)
    ensures fresh(a) && a[..] == pixels
  {
    a := new Surfaces.Colour[|pixels|](i requires 0 <= i < |pixels| => pixels[i]);
  }

  class Client {
    // QStarosConnection: the flag, and the two endpoints it talks through.
    var commitPending: bool
    var requests: seq<Request>
    var replies: seq<Reply>
    // QStarosWindow and QStarosBackingStore, one of each per window.
    var windows: seq<Window>
    var frames: seq<Frame>
    // The server's side.
    var surfaces: seq<Surface>

    /** Which commit the flag stands for, which call is waiting, and everything that has happened. */
    ghost var asked: Option<Request>
    ghost var calling: Option<Request>
    ghost var states: seq<State>
    ghost var events: seq<Event>
    /** How often the kernel had no buffers to give. */
    ghost var refused: nat

    ghost function Now(): State
      reads this
    {
      State(windows, asked, calling, requests, replies, surfaces)
    }

    /** All that has happened is a run of the protocol, and it ends here. */
    ghost predicate Traced()
      reads this
    {
      IsRun(states, events) && states[|events|] == Now() && Shape(Now())
    }

    ghost predicate Linked()
      reads this
    {
      Traced() && calling.None? && commitPending == asked.Some?
    }

    ghost predicate Valid()
      reads this
    {
      Linked() && |frames| == |windows| && forall w :: 0 <= w < |frames| ==> FrameOk(windows[w], frames[w])
    }

    ghost predicate AllAimed()
      reads this
    {
      |frames| == |windows| && forall w :: 0 <= w < |frames| ==> Aimed(windows[w], frames[w])
    }

    /** What flushes of window `w` have left out and nothing has made up for. */
    ghost function MissedNow(w: nat): set<nat>
      requires |states| == |events| + 1
      reads this
    {
      Missed(states, events, w, |events|)
    }

    ghost method Record(e: Event)
      requires IsRun(states, events) && Shape(states[|events|]) && Enabled(states[|events|], e)
      requires Now() == Apply(states[|events|], e)
      modifies this`states, this`events
      ensures Traced() && events == old(events) + [e] && states == old(states) + [Now()]
      ensures forall v: nat :: MissedNow(v) == MissedAfter(old(states[|events|]), e, v, old(MissedNow(v)))
      ensures e.Serve? || e.Collect? || e.Restore? || e.Call? ==> forall v: nat :: MissedNow(v) == old(MissedNow(v))
    {
      RunOneMore(states, events, e, Now());
      forall v: nat ensures Missed(states + [Now()], events + [e], v, |events|) == MissedNow(v) {
        MissedOfPrefix(states, events, e, Now(), v, |events|);
      }
      states, events := states + [Now()], events + [e];
      EveryRunKeepsInv(states, events, |events|);
    }

    constructor (count: nat)
      ensures Valid() && AllAimed() && |windows| == count && forall w :: 0 <= w < count ==> !windows[w].open
    {
      var none := Window(false, [[], []], 0, {}, [], {}, false);
      commitPending, requests, replies := false, [], [];
      windows, frames := seq(count, _ => none), seq(count, _ => Frame(0, 0, NOWHERE, Null));
      surfaces := seq(count, _ => NoSurface);
      asked, calling, events := None, None, [];
      states := [State(seq(count, _ => none), None, None, [], [], seq(count, _ => NoSurface))];
    }

    // ---- The server, and waiting for it ----

    /** The server takes the oldest request, acts on it, and answers. */
    method Serve()
      requires Traced() && requests != []
      modifies this`requests, this`replies, this`surfaces, this`states, this`events
      ensures Traced() && requests == old(requests[1..]) && Outstanding(Now()) == old(Outstanding(Now()))
      ensures old(events) <= events && forall v: nat :: MissedNow(v) == old(MissedNow(v))
    {
      var r := requests[0];
      requests, replies := requests[1..], replies + [Reply(r)];
      surfaces := surfaces[r.w := Answered(surfaces[r.w], windows[r.w], r)];
      Record(Handover.Serve);
    }

    /** Between any two things the client does, the server may have acted or not. */
    method Interleave()
      requires Linked()
      modifies this`requests, this`replies, this`surfaces, this`states, this`events
      ensures Linked()
      ensures old(events) <= events && forall v: nat :: MissedNow(v) == old(MissedNow(v))
    {
      var acts := *;
      if acts && requests != [] {
        Serve();
      }
    }

    /** Wait for an answer. It is there at once or after one turn of the server, and it is the right one. */
    method Await()
      requires Traced() && Outstanding(Now()).Some?
      modifies this`requests, this`replies, this`surfaces, this`states, this`events
      ensures Traced() && replies == [Reply(Outstanding(Now()).value)]
      ensures Outstanding(Now()) == old(Outstanding(Now()))
      ensures old(events) <= events && forall v: nat :: MissedNow(v) == old(MissedNow(v))
    {
      EveryRunKeepsInv(states, events, |events|);
      while replies == []
        invariant Traced() && Inv(Now()) && Outstanding(Now()) == old(Outstanding(Now()))
        invariant old(events) <= events && forall v: nat :: MissedNow(v) == old(MissedNow(v))
        decreases |requests|
      {
        Serve();
        EveryRunKeepsInv(states, events, |events|);
      }
    }

    // ---- QStarosConnection ----

    /** Take the answer to the outstanding commit, if there is one. The flag goes down before the wait. */
    method CollectCommit() returns (answer: Option<Reply>)
      requires Linked()
      modifies this`commitPending, this`requests, this`replies, this`surfaces, this`asked, this`states, this`events
      ensures Linked() && !commitPending
      ensures answer == if old(commitPending) then Some(Reply(old(asked).value)) else None
      ensures old(events) <= events && forall v: nat :: MissedNow(v) == old(MissedNow(v))
    {
      if !commitPending {
        return None;
      }
      commitPending := false;
      Await();
      answer := TakeReply();
    }

    /** Read the answer to the commit outstanding. */
    method TakeReply() returns (answer: Option<Reply>)
      requires Traced() && calling.None? && asked.Some? && !commitPending && replies != []
      modifies this`replies, this`asked, this`states, this`events
      ensures Linked() && answer == Some(old(replies[0]))
      ensures old(events) <= events && forall v: nat :: MissedNow(v) == old(MissedNow(v))
    {
      answer := Some(replies[0]);
      replies, asked := replies[1..], None;
      Record(Collect);
    }

    /** Ask and wait. Whatever was outstanding is collected first, so the answer read is this question's. */
    method Call(r: Request) returns (answer: Reply)
      requires Linked() && r.w < |windows| && !r.Commit?
      requires r.Create? ==> !windows[r.w].open
      requires r.Destroy? ==> windows[r.w].open && windows[r.w].owed == {}
      modifies this`commitPending, this`requests, this`replies, this`surfaces, this`windows,
               this`asked, this`calling, this`states, this`events
      ensures Linked() && !commitPending && answer == Reply(r)
      ensures windows == old(windows)[r.w := Returned(old(windows)[r.w], r)]
      ensures old(events) <= events && Handover.Call(r) in events[|old(events)|..]
      ensures !r.Create? ==> forall v: nat :: MissedNow(v) == old(MissedNow(v))
    {
      var _ := CollectCommit();
      requests, calling := requests + [r], Some(r);
      Record(Handover.Call(r));
      ghost var asking := |events| - 1;
      Await();
      answer := TakeAnswer(r);
      assert events[asking] == Handover.Call(r);
    }

    /** Read the answer to a call, and with it learn what became of the window that asked. */
    method TakeAnswer(r: Request) returns (answer: Reply)
      requires Traced() && calling == Some(r) && !commitPending && asked.None? && replies == [Reply(r)]
      modifies this`replies, this`windows, this`calling, this`states, this`events
      ensures r.w < |old(windows)| && Linked() && answer == Reply(r)
      ensures windows == old(windows)[r.w := Returned(old(windows)[r.w], r)]
      ensures old(events) <= events
      ensures !r.Create? ==> forall v: nat :: MissedNow(v) == old(MissedNow(v))
    {
      answer := replies[0];
      replies, calling := replies[1..], None;
      windows := windows[r.w := Returned(windows[r.w], r)];
      Record(Return);
    }

    /** Send a commit and do not wait: the record is one message behind until the window has swapped. */
    method PostCommit(r: Request)
      requires Linked() && r.Commit?
      modifies this`commitPending, this`requests, this`replies, this`surfaces, this`asked, this`states, this`events
      ensures commitPending && asked == Some(r) && IsRun(states, events)
      ensures var before := states[|events|];
        && Shape(before) && before.commitPending.None?
        && Now() == before.(requests := before.requests + [r], commitPending := Some(r))
      ensures old(events) <= events && forall v: nat :: MissedNow(v) == old(MissedNow(v))
    {
      var _ := CollectCommit();
      requests, commitPending, asked := requests + [r], true, Some(r);
    }

    // ---- QStarosWindow ----

    /** Afterwards nothing is owed, and the restore was an enabled step. */
    method Settle(w: nat)
      requires Valid() && w < |windows|
      modifies this`commitPending, this`requests, this`replies, this`surfaces, this`windows, this`frames,
               this`asked, this`states, this`events
      ensures Valid() && |windows| == |old(windows)| && windows[w].open == old(windows)[w].open
      ensures windows[w].open ==>
        && windows[w].owed == {} && frames[w].owed.Empty()
        && WindowShape(old(windows)[w]) && windows[w] == SettledWindow(old(windows)[w])
      ensures windows[w] == if old(frames)[w].owed.Empty() then old(windows)[w] else Restored(old(windows)[w])
      ensures frames[w] == old(frames)[w].(owed := frames[w].owed)
      ensures forall v :: 0 <= v < |windows| && v != w ==> windows[v] == old(windows)[v] && frames[v] == old(frames)[v]
      ensures !old(frames)[w].owed.Empty() && Missed(states, events, w, |events|) == {}
           ==> windows[w].bufs == [windows[w].canvas, windows[w].canvas]
      ensures old(events) <= events && forall v: nat :: MissedNow(v) == old(MissedNow(v))
    {
      var area := frames[w].owed;
      if area.Empty() {
        return;
      }
      frames := frames[w := frames[w].(owed := NOWHERE)];
      CornerCovered(old(frames)[w], area);
      var _ := CollectCommit();
      CopyOwed(w, area);
    }

    /** The restore copy, once the answer has said that the server let go of the buffer written here. */
    method CopyOwed(w: nat, area: Area)
      requires Linked() && !commitPending && w < |windows| == |frames| && windows[w].open
      requires area.left + area.w <= frames[w].width && area.top + area.h <= frames[w].height && !area.Empty()
      requires windows[w].owed == Covered(frames[w], area) != {}
      requires |windows[w].bufs[0]| == frames[w].height * frames[w].width
      modifies this`windows, this`states, this`events
      ensures Linked() && WindowShape(old(windows)[w]) && windows == old(windows)[w := Restored(old(windows)[w])]
      ensures Missed(states, events, w, |events|) == {} ==> windows[w].bufs == [windows[w].canvas, windows[w].canvas]
      ensures old(events) <= events && forall v: nat :: MissedNow(v) == old(MissedNow(v))
    {
      var win := windows[w];
      var to := MapBuffer(win.bufs[win.back]);
      var from := MapBuffer(win.bufs[1 - win.back]);
      RestoreCopy.Restore(to, from, frames[w].width, frames[w].height, area.left, area.top, area.w, area.h);
      windows := windows[w := win.(bufs := win.bufs[win.back := to[..]], owed := {})];
      Record(Restore(w));
      if Missed(states, events, w, |events|) == {} {
        assert Missed(states, events, w, |events| - 1) == {};
        SettledBuffersAgree(states, events, |events| - 1, w);
      }
    }

    /**
     * Post the back buffer, swap, and owe the damage: exactly that part of what Qt flushes that lies in the
     * buffer. Missed are then exactly the painted pixels outside the flush; none, if it covers them all.
     */
    method Present(w: nat, left: int, top: int, width: nat, height: nat)
      requires Valid() && w < |windows|
      modifies this`commitPending, this`requests, this`replies, this`surfaces, this`windows, this`frames,
               this`asked, this`states, this`events
      ensures Valid() && |windows| == |old(windows)| && old(events) <= events
      ensures frames[w] == old(frames)[w].(owed := frames[w].owed)
      ensures forall v :: 0 <= v < |windows| && v != w ==> windows[v] == old(windows)[v] && frames[v] == old(frames)[v]
      ensures Shape(old(Now())) && FlushedInto(old(Now()), old(frames)[w], w, left, top, width, height, Now(), frames[w])
      ensures MissedNow(w) == old(MissedNow(w))
        + if Shows(old(Now()), old(frames)[w], w, left, top, width, height)
          then set i | i in old(windows)[w].dirty && !Flushed(old(frames)[w], left, top, width, height, i) else {}
      ensures forall v: nat :: v != w ==> MissedNow(v) == old(MissedNow(v))
    {
      var area := Clipped(frames[w], left, top, width, height);
      if !windows[w].open || area.Empty() {
        return;
      }
      CoveredExactly(frames[w], left, top, width, height);
      PostArea(w, area);
    }

    /** Anything still owed first; then post, and owe this much. */
    method PostArea(w: nat, area: Area)
      requires Valid() && w < |windows| && windows[w].open && !area.Empty()
      requires area.left + area.w <= frames[w].width && area.top + area.h <= frames[w].height
      modifies this`commitPending, this`requests, this`replies, this`surfaces, this`windows, this`frames,
               this`asked, this`states, this`events
      ensures Valid() && WindowShape(old(windows)[w]) && old(events) <= events
      ensures var damage := Covered(old(frames)[w], area);
        && |windows| == |old(windows)| && windows[w] == Presented(SettledWindow(old(windows)[w]), damage)
        && frames[w] == old(frames)[w].(owed := area)
        && asked == Some(Commit(w, damage, old(windows)[w].back))
        && MissedNow(w) == old(MissedNow(w)) + (old(windows)[w].dirty - damage)
      ensures forall v :: 0 <= v < |windows| && v != w ==> windows[v] == old(windows)[v] && frames[v] == old(frames)[v]
      ensures forall v: nat :: v != w ==> MissedNow(v) == old(MissedNow(v))
    {
      Settle(w);
      CornerCovered(frames[w], area);
      PostFrame(w, Covered(frames[w], area));
      frames := frames[w := frames[w].(owed := area)];
    }

    /** Post the painted buffer, make the other one current, and owe it the damage. */
    method PostFrame(w: nat, damage: set<nat>)
      requires Linked() && w < |windows| && windows[w].open && windows[w].owed == {}
      requires damage != {}
      modifies this`commitPending, this`requests, this`replies, this`surfaces, this`windows,
               this`asked, this`states, this`events
      ensures Linked() && windows == old(windows)[w := Presented(old(windows)[w], damage)]
      ensures asked == Some(Commit(w, damage, old(windows)[w].back)) && old(events) <= events
      ensures MissedNow(w) == old(MissedNow(w)) + (old(windows)[w].dirty - damage)
      ensures forall v: nat :: v != w ==> MissedNow(v) == old(MissedNow(v))
    {
      PostCommit(Commit(w, damage, windows[w].back));
      windows := windows[w := Presented(windows[w], damage)];
      Record(Post(w, damage));
    }

    /** Take the surface down. The restore is finished first: it copies between the buffers about to go. */
    method Release(w: nat)
      requires Valid() && AllAimed() && w < |windows|
      modifies this
      ensures Valid() && AllAimed() && |windows| == |old(windows)| && !windows[w].open && refused == old(refused)
      ensures old(events) <= events
      ensures old(windows)[w].open ==> Handover.Call(Destroy(w)) in events[|old(events)|..]
      ensures frames[w].width == 0 && frames[w].height == 0
      ensures forall v :: 0 <= v < |windows| && v != w ==> windows[v] == old(windows)[v] && frames[v] == old(frames)[v]
    {
      Settle(w);
      if windows[w].open {
        var _ := Call(Destroy(w));
      }
      var f := frames[w];
      var image := if f.image.View? then Elsewhere(f.width, f.height) else f.image;
      frames := frames[w := Frame(0, 0, NOWHERE, image)];
    }

    /** Two buffers from the kernel, unless it has none to give. */
    method TakeBuffers() returns (granted: bool)
      modifies this`refused
      ensures refused == old(refused) + if granted then 0 else 1
    {
      granted := *;
      if !granted {
        refused := refused + 1;
      }
    }

    /** Two zeroed buffers and a surface over the first; or nothing, exactly if the buffers cannot be had. */
    method Allocate(w: nat, width: nat, height: nat) returns (ok: bool)
      requires Valid() && AllAimed() && w < |windows|
      modifies this
      ensures Valid() && AllAimed() && |windows| == |old(windows)| && windows[w].open == ok
      ensures ok ==> windows[w] == OpenWindow(height * width) && frames[w].width == width && frames[w].height == height
      ensures refused == old(refused) + if !ok && width > 0 && height > 0 then 1 else 0
      ensures forall v :: 0 <= v < |windows| && v != w ==> windows[v] == old(windows)[v] && frames[v] == old(frames)[v]
    {
      Release(w);
      if width == 0 || height == 0 {
        return false;
      }
      var granted := TakeBuffers();
      if !granted {
        return false;
      }
      var _ := Call(Create(w, height * width));
      frames := frames[w := Frame(width, height, NOWHERE, frames[w].image)];
      return true;
    }

    /** Raising, or taking focus: a question with no effect on the buffers. */
    method Raise(w: nat)
      requires Valid() && w < |windows|
      modifies this`commitPending, this`requests, this`replies, this`surfaces, this`windows,
               this`asked, this`calling, this`states, this`events
      ensures Valid() && windows == old(windows) && old(events) <= events
      ensures windows[w].open ==> Handover.Call(Other(w)) in events[|old(events)|..]
      ensures forall v: nat :: MissedNow(v) == old(MissedNow(v))
    {
      if windows[w].open {
        var _ := Call(Other(w));
      }
    }

    // ---- QStarosBackingStore ----

    /** Lay the image over the buffer Qt may write, or over nothing if the sizes disagree. */
    method Resize(w: nat, width: nat, height: nat)
      requires Valid() && w < |windows|
      modifies this`frames
      ensures Valid() && |frames| == |old(frames)| && Aimed(windows[w], frames[w])
      ensures forall v :: 0 <= v < |frames| && v != w ==> frames[v] == old(frames)[v]
      ensures frames[w] == old(frames)[w].(image := frames[w].image)
      ensures frames[w].image.View? <==> windows[w].open && frames[w].width == width && frames[w].height == height
    {
      var fits := windows[w].open && frames[w].width == width && frames[w].height == height;
      frames := frames[w := frames[w].(image := if fits then View(windows[w].back) else Null)];
    }

    /**
     * `beginPaint` and the strokes Qt then makes through the image. No stroke lands in the buffer the
     * server is pointed at once this window has committed.
     */
    method PaintFrame(w: nat, strokes: seq<(set<nat>, Pixels)>)
      requires Valid() && AllAimed() && w < |windows|
      requires forall i :: 0 <= i < |strokes| ==>
        |strokes[i].1| == |windows[w].canvas| && forall p :: p in strokes[i].0 ==> p < |strokes[i].1|
      modifies this`commitPending, this`requests, this`replies, this`surfaces, this`windows, this`frames,
               this`asked, this`states, this`events
      ensures Valid() && AllAimed() && |windows| == |old(windows)|
      ensures forall v :: 0 <= v < |windows| && v != w ==> windows[v] == old(windows)[v] && frames[v] == old(frames)[v]
      ensures old(frames)[w].image.View? ==>
        && WindowShape(old(windows)[w]) && StrokesMade(SettledWindow(old(windows)[w]), windows[w], strokes)
        && (Missed(states, events, w, |events|) == {} ==> windows[w].bufs[windows[w].back] == windows[w].canvas)
    {
      Settle(w);
      if frames[w].image.View? {
        MakeStrokes(w, strokes);
        if Missed(states, events, w, |events|) == {} {
          BackHoldsCanvas(states, events, w);
        }
      }
    }

    /** The strokes one by one, with the server acting or not between any two. */
    method MakeStrokes(w: nat, strokes: seq<(set<nat>, Pixels)>)
      requires Valid() && AllAimed() && w < |windows| && frames[w].image.View? && windows[w].owed == {}
      requires forall i :: 0 <= i < |strokes| ==>
        |strokes[i].1| == |windows[w].canvas| && forall p :: p in strokes[i].0 ==> p < |strokes[i].1|
      modifies this`requests, this`replies, this`surfaces, this`windows, this`states, this`events
      ensures Valid() && AllAimed() && |windows| == |old(windows)| && windows[w].owed == {} && windows[w].open
      ensures StrokesMade(old(windows)[w], windows[w], strokes)
      ensures forall v :: 0 <= v < |windows| && v != w ==> windows[v] == old(windows)[v]
    {
      ghost var base := windows[w];
      for i := 0 to |strokes|
        invariant Valid() && AllAimed() && |windows| == |old(windows)|
        invariant windows[w].open && windows[w].owed == {}
        invariant StrokesMade(base, windows[w], strokes[..i])
        invariant forall v :: 0 <= v < |windows| && v != w ==> windows[v] == old(windows)[v]
      {
        Interleave();
        StrokesOneMore(base, windows[w], strokes[..i], strokes[i].0, strokes[i].1);
        assert strokes[..i + 1] == strokes[..i] + [strokes[i]];
        Stroke(w, strokes[i].0, strokes[i].1);
      }
      assert strokes[..|strokes|] == strokes;
    }

    /** One stroke through the image, straight into shared pages. */
    method Stroke(w: nat, at: set<nat>, src: Pixels)
      requires Valid() && AllAimed() && w < |windows| && frames[w].image.View? && windows[w].owed == {}
      requires |src| == |windows[w].canvas| && forall p :: p in at ==> p < |src|
      modifies this`windows, this`states, this`events
      ensures Valid() && AllAimed() && windows == old(windows)[w := Painted(old(windows)[w], at, src)]
      ensures windows[w].posted ==> surfaces[w].Surface? && surfaces[w].points != frames[w].image.buffer
    {
      var win := windows[w];
      var b := frames[w].image.buffer;
      windows := windows[w := win.(bufs := win.bufs[b := Overlay(win.bufs[b], at, src)],
                                   canvas := Overlay(win.canvas, at, src), dirty := win.dirty + at)];
      Record(Paint(w, at, src));
      if win.posted {
        NeverWritesWhatServerShows(states, events, |events| - 1, w);
      }
    }

    /** Present, then move the image to the buffer that is now the back one. */
    method Flush(w: nat, left: int, top: int, width: nat, height: nat)
      requires Valid() && AllAimed() && w < |windows|
      modifies this`commitPending, this`requests, this`replies, this`surfaces, this`windows, this`frames,
               this`asked, this`states, this`events
      ensures Valid() && AllAimed() && |windows| == |old(windows)|
      ensures forall v :: 0 <= v < |windows| && v != w ==> windows[v] == old(windows)[v] && frames[v] == old(frames)[v]
      ensures old(frames)[w].image.View? ==> frames[w].image == View(windows[w].back)
      ensures Shape(old(Now())) && if old(frames)[w].image.Null?
        then windows[w] == old(windows)[w] && frames[w] == old(frames)[w]
        else FlushedInto(old(Now()), old(frames)[w], w, left, top, width, height, Now(), frames[w])
      ensures MissedNow(w) == old(MissedNow(w))
        + if !old(frames)[w].image.Null? && Shows(old(Now()), old(frames)[w], w, left, top, width, height)
          then set i | i in old(windows)[w].dirty && !Flushed(old(frames)[w], left, top, width, height, i) else {}
    {
      var image := frames[w].image;
      if image.Null? {
        return;
      }
      Present(w, left, top, width, height);
      if image.View? {
        Resize(w, frames[w].width, frames[w].height);
      } else {
        Resize(w, image.width, image.height);
      }
    }
  }
}
