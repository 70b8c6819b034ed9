/**
 * Where the two halves meet: the client of `Handover` and the compositor of `DisplayRuns` running
 * together over the same buffers, from the opening of a window to its closing, with other clients doing
 * as they please. What the client's restore copy establishes is what makes its commits honest, so its
 * surfaces are among those `ShownRight` is about.
 */
module FrameDelivery {
  import opened Common
  import opened Surfaces
  import opened ShownRight
  import DisplayRuns
  import Handover
  import RestoreCopy

  /** Buffers equal outside the damaged positions are equal on every pixel outside the damaged rectangle. */
  lemma AgreeingBuffersAgreeOnSurface(t: Surface, mem: Shared, other: nat, dx: nat, dy: nat, dw: nat, dh: nat)
    requires Backed(t, mem) && Backed(t.(pixels := other), mem)
    requires var n := t.width * t.height;
      Handover.AgreeOutside(mem[t.pixels][..n], mem[other][..n], RestoreCopy.Positions(n, t.width, dx, dy, dw, dh))
    ensures DisplayRuns.AgreeOutside(t, mem, other, dx, dy, dw, dh)
  {
    var n := t.width * t.height;
    forall p: Point | Covers(t, p) && !Rect(t.x + dx, t.y + dy, dw, dh).Has(p)
      ensures At(t, mem, p) == At(t.(pixels := other), mem, p)
    {
      var (row, col) := (p.y - t.y, p.x - t.x);
      PixelInBuffer(row, col, t.width, t.height);
      RestoreCopy.PositionOf(t.width, row, col);
      var i := row * t.width + col;
      assert !RestoreCopy.Inside(i, t.width, dx, dy, dw, dh);
      assert mem[t.pixels][..n][i] == mem[other][..n][i];
    }
  }

  // ---- One client and the server, over the same buffers ----

  /** How a window is known to the server: its surface, where it stands, and its two buffers. */
  datatype Placement = Placement(id: nat, width: U64, height: U64, x: U64, y: U64, caps: seq<nat>)

  /** Client, server, what is undeclared, which surfaces are good, and where the client's windows are. */
  datatype Both = Both(h: Handover.State, d: DisplayRuns.Sys, pending: DisplayRuns.Pending, good: iset<nat>,
                       v: seq<Placement>)

  /** The server has taken up the request that opens window `w`, and the client has not heard yet. */
  ghost predicate Opening(h: Handover.State, w: nat)
  {
    Handover.Creating(h, w) && h.requests == []
  }

  /** The window's buffers are in use. */
  ghost predicate Live(h: Handover.State, w: nat)
    requires w < |h.windows|
  {
    h.windows[w].open || Opening(h, w)
  }

  /** The server has a surface for the window, and will until it is asked to take it down. */
  ghost predicate Visible(h: Handover.State, w: nat)
    requires w < |h.windows|
  {
    (h.windows[w].open && h.calling != Some(Handover.Destroy(w))) || Opening(h, w)
  }

  /** The window as the client will know it once it hears. */
  ghost function Seen(h: Handover.State, w: nat): Handover.Window
    requires w < |h.windows|
  {
    if Opening(h, w) then Handover.OpenWindow(h.calling.value.size) else h.windows[w]
  }

  ghost predicate ValidPlacement(v: Placement)
  {
    |v.caps| == 2 && v.caps[0] != v.caps[1] && 0 !in v.caps
  }

  /** Windows in use share neither surface nor buffer. */
  ghost predicate Placed(h: Handover.State, v: seq<Placement>)
    requires |v| == |h.windows|
  {
    && (forall w: nat :: w < |v| && Live(h, w) ==> ValidPlacement(v[w]))
    && (forall w: nat, x: nat :: w < |v| && x < |v| && w != x && Live(h, w) && Live(h, x) ==> Separate(v[w], v[x]))
  }

  ghost predicate Separate(a: Placement, b: Placement)
  {
    a.id != b.id && forall c :: c in a.caps ==> c !in b.caps
  }

  /** A shared buffer begins with these pixels; what pages hold beyond them is nobody's. */
  ghost predicate Holds(mem: Shared, cap: nat, buf: Handover.Pixels)
  {
    cap in mem && |buf| <= |mem[cap]| && mem[cap][..|buf|] == buf
  }

  /** The server's surface for a window is over the buffer the client thinks it is, and the pages agree. */
  ghost predicate Mirrored(win: Handover.Window, x: Handover.Surface, d: DisplayRuns.Sys, client: nat, v: Placement)
  {
    && |v.caps| == 2 && Handover.WindowShape(win) && |win.canvas| == v.width * v.height
    && 0 < v.width && 0 < v.height && x.Surface? && x.points < 2
    && Holds(d.mem, v.caps[0], win.bufs[0]) && Holds(d.mem, v.caps[1], win.bufs[1])
    && HasSurface(d.stack, client, v, x.points)
  }

  ghost predicate HasSurface(stack: seq<Surface>, client: nat, v: Placement, points: nat)
  {
    points < |v.caps| && Surface(v.id, client, v.caps[points], v.width, v.height, v.x, v.y) in stack
  }

  /** No surface but a window's own is over that window's buffers. */
  ghost predicate Exclusive(stack: seq<Surface>, client: nat, v: Placement)
  {
    forall i :: 0 <= i < |stack| && stack[i].pixels in v.caps ==> stack[i].id == v.id && stack[i].owner == client
  }

  // ---- Steps that are not about a window ----

  /** The step is about other surfaces and other buffers than these. */
  ghost predicate Leaves(d: DisplayRuns.Sys, e: DisplayRuns.Event, client: nat, v: Placement)
  {
    match e
    case Create(_, _, _, _, _, cap) => cap !in v.caps
    case Commit(c, id, _, _, _, _, cap, _) => (c != client || id != v.id) && cap !in v.caps
    case Raise(_, _, _) => true
    case Destroy(c, id, _) => c != client || id != v.id
    case Reap(c, _) => c != client
    case ClientWrite(mem) => forall c :: c in v.caps && c in d.mem ==> c in mem && mem[c] == d.mem[c]
    case Repaint(_) => true
  }

  lemma {:induction false} InOthers(stack: seq<Surface>, c: nat, t: Surface)
    requires t in stack && t.owner != c
    ensures t in Others(stack, c)
    decreases |stack|
  {
    var top := |stack| - 1;
    if t != stack[top] {
      InOthers(stack[..top], c, t);
    }
  }

  lemma SurfaceKept(d: DisplayRuns.Sys, e: DisplayRuns.Event, client: nat, v: Placement, t: Surface)
    requires Leaves(d, e, client, v) && t in d.stack && t.id == v.id && t.owner == client
    ensures t in DisplayRuns.StackAfter(d, e)
  {
    var i :| 0 <= i < |d.stack| && d.stack[i] == t;
    var after := DisplayRuns.StackAfter(d, e);
    if e.Raise? || e.Destroy? || e.Commit? {
      var at := DisplayRuns.IndexOf(d.stack, e.client, e.id);
      if at.Some? {
        if e.Commit? {
          assert after[i] == t;
        } else if e.Destroy? {
          assert after[if i < at.value then i else i - 1] == t;
        } else {
          assert after[if i < at.value then i else if i == at.value then |after| - 1 else i - 1] == t;
        }
      }
    } else if e.Reap? {
      InOthers(d.stack, e.client, t);
    } else {
      assert after[i] == t;
    }
  }

  lemma NothingComesIn(d: DisplayRuns.Sys, e: DisplayRuns.Event, t: Surface)
    requires t in DisplayRuns.StackAfter(d, e)
    ensures t in d.stack || ((e.Create? || e.Commit?) && t.pixels == e.cap)
  {
    var i :| 0 <= i < |DisplayRuns.StackAfter(d, e)| && DisplayRuns.StackAfter(d, e)[i] == t;
  }

  lemma ExclusiveKept(d: DisplayRuns.Sys, e: DisplayRuns.Event, client: nat, v: Placement)
    requires Exclusive(d.stack, client, v) && ((e.Create? || e.Commit?) ==> e.cap !in v.caps)
    ensures Exclusive(DisplayRuns.StackAfter(d, e), client, v)
  {
    var after := DisplayRuns.StackAfter(d, e);
    forall i | 0 <= i < |after| && after[i].pixels in v.caps ensures after[i].id == v.id && after[i].owner == client {
      NothingComesIn(d, e, after[i]);
    }
  }

  /** Such a step leaves the window mirrored. */
  lemma MirrorKept(d: DisplayRuns.Sys, e: DisplayRuns.Event, d': DisplayRuns.Sys, client: nat, win: Handover.Window,
                   x: Handover.Surface, v: Placement)
    requires DisplayRuns.Shape(d) && DisplayRuns.Next(d, e, d') && Leaves(d, e, client, v)
    requires Mirrored(win, x, d, client, v)
    ensures Mirrored(win, x, d', client, v)
  {
    SurfaceKept(d, e, client, v, Surface(v.id, client, v.caps[x.points], v.width, v.height, v.x, v.y));
  }

  /** And leaves it as good as it was. */
  lemma GoodKept(d: DisplayRuns.Sys, e: DisplayRuns.Event, client: nat, win: Handover.Window, x: Handover.Surface,
                 v: Placement, good: iset<nat>)
    requires DisplayRuns.Shape(d) && Leaves(d, e, client, v) && Mirrored(win, x, d, client, v)
    ensures v.id in GoodAfter(d, e, good) <==> v.id in good
  {
    var t := Surface(v.id, client, v.caps[x.points], v.width, v.height, v.x, v.y);
    var i :| 0 <= i < |d.stack| && d.stack[i] == t;
    assert forall j :: 0 <= j < |d.stack| && d.stack[j].id == v.id ==> j == i;
    assert !Swaps(d, e, i) && !Completes(d, e, i);
    assert t.pixels in v.caps;
    assert !Breaks(d, e, i);
    assert v.id in good ==> GoodNext(d, e, good, v.id);
  }

  // ---- The joint invariant ----

  ghost predicate Frames(h: Handover.State)
  {
    forall w: nat :: w < |h.windows| && h.windows[w].open ==> Handover.BuffersOk(h.windows[w], {})
  }

  /** A window in use has its buffers to itself; a visible one is mirrored, and good only once it has committed. */
  ghost predicate JointAt(b: Both, client: nat, w: nat)
    requires w < |b.v| == |b.h.windows| == |b.h.surfaces|
  {
    && (Live(b.h, w) ==> Exclusive(b.d.stack, client, b.v[w]))
    && (Visible(b.h, w) ==>
          && Mirrored(Seen(b.h, w), b.h.surfaces[w], b.d, client, b.v[w])
          && (b.v[w].id in b.good ==> b.h.surfaces[w].frame.Some?))
  }

  ghost predicate ServerOk(b: Both)
  {
    DisplayRuns.Inv(b.d, b.pending) && Clean(b.d, b.pending, b.good)
  }

  ghost predicate JointInv(b: Both, client: nat)
  {
    && Handover.Inv(b.h) && ServerOk(b) && Frames(b.h)
    && |b.v| == |b.h.windows| && Placed(b.h, b.v)
    && forall w: nat :: w < |b.v| ==> JointAt(b, client, w)
  }

  /** The display server takes a step, and what is undeclared and good follows. */
  ghost predicate DisplayStep(b: Both, e: DisplayRuns.Event, b': Both)
    requires DisplayRuns.Shape(b.d)
  {
    && DisplayRuns.Next(b.d, e, b'.d) && b'.good == GoodAfter(b.d, e, b.good)
    && (DisplayRuns.Shape(b'.d) ==> b'.pending == DisplayRuns.PendingAfter(b.d, e, b'.d, b.pending))
  }

  ghost predicate DisplayIdle(b: Both, b': Both)
  {
    b'.d == b.d && b'.pending == b.pending && b'.good == b.good
  }

  lemma ServerKept(b: Both, e: DisplayRuns.Event, b': Both)
    requires ServerOk(b) && DisplayStep(b, e, b')
    ensures ServerOk(b')
  {
    DisplayRuns.StepKeepsInv(b.d, e, b'.d, b.pending);
    CleanKept(b.d, e, b'.d, b.pending, b.good);
  }

  /** To the client the window is the same, or no longer there. */
  ghost predicate Unmoved(h: Handover.State, h': Handover.State, w: nat)
    requires w < |h.windows| == |h'.windows| == |h.surfaces| == |h'.surfaces|
  {
    && (Live(h', w) ==> Live(h, w))
    && (Visible(h', w) ==>
          && Visible(h, w) && h'.surfaces[w] == h.surfaces[w]
          && Seen(h', w).bufs == Seen(h, w).bufs && |Seen(h', w).canvas| == |Seen(h, w).canvas|
          && (Handover.WindowShape(Seen(h, w)) ==> Handover.WindowShape(Seen(h', w))))
  }

  /** A visible window that was good still is. */
  ghost predicate StaysGoodAt(b: Both, b': Both, w: nat)
    requires w < |b.v| == |b'.v| == |b.h.windows| == |b'.h.windows|
  {
    Visible(b.h, w) && Visible(b'.h, w) && b.v[w].id in b.good ==> b'.v[w] == b.v[w] && b'.v[w].id in b'.good
  }

  ghost predicate StaysGood(b: Both, b': Both)
    requires |b.v| == |b'.v| == |b.h.windows| == |b'.h.windows|
  {
    forall w: nat :: w < |b.v| ==> StaysGoodAt(b, b', w)
  }

  /** A window that neither side's step is about stays in order. */
  lemma LeftAlone(b: Both, e: DisplayRuns.Event, b': Both, client: nat, w: nat)
    requires JointInv(b, client) && DisplayStep(b, e, b') && w < |b.v| == |b'.v| && b'.v[w] == b.v[w]
    requires |b'.h.windows| == |b.h.windows| == |b'.h.surfaces| && Unmoved(b.h, b'.h, w)
    requires Live(b.h, w) ==> Leaves(b.d, e, client, b.v[w])
    ensures JointAt(b', client, w) && StaysGoodAt(b, b', w)
  {
    assert JointAt(b, client, w);
    if Live(b'.h, w) {
      ExclusiveKept(b.d, e, client, b.v[w]);
    }
    if Visible(b'.h, w) {
      MirrorKept(b.d, e, b'.d, client, Seen(b.h, w), b.h.surfaces[w], b.v[w]);
      GoodKept(b.d, e, client, Seen(b.h, w), b.h.surfaces[w], b.v[w], b.good);
    }
  }

  lemma LeftIdle(b: Both, b': Both, client: nat, w: nat)
    requires JointInv(b, client) && DisplayIdle(b, b') && w < |b.v| == |b'.v| && b'.v[w] == b.v[w]
    requires |b'.h.windows| == |b.h.windows| == |b'.h.surfaces| && Unmoved(b.h, b'.h, w)
    ensures JointAt(b', client, w) && StaysGoodAt(b, b', w)
  {
    assert JointAt(b, client, w);
  }

  // ---- What each step of the client leaves alone ----

  /** Posting, collecting, asking and being answered move no window. */
  lemma ClientUnmoved(h: Handover.State, e: Handover.Event, w: nat)
    requires Handover.Inv(h) && Handover.Enabled(h, e) && w < |h.windows|
    requires e.Post? || e.Collect? || e.Call? || e.Return?
    ensures var h' := Handover.Apply(h, e);
      |h'.windows| == |h.windows| == |h.surfaces| == |h'.surfaces| && Unmoved(h, h', w)
  {
  }

  /** A paint or a restore moves only its own window. */
  lemma WriterUnmoved(h: Handover.State, e: Handover.Event, w: nat)
    requires Handover.Inv(h) && Handover.Enabled(h, e) && w < |h.windows|
    requires (e.Paint? || e.Restore?) && e.w != w
    ensures var h' := Handover.Apply(h, e);
      |h'.windows| == |h.windows| == |h.surfaces| == |h'.surfaces| && Unmoved(h, h', w)
  {
  }

  /** The server's answer moves only the window asked about. */
  lemma ServerUnmoved(h: Handover.State, w: nat)
    requires Handover.Inv(h) && h.requests != [] && w < |h.windows|
    requires h.requests[0].w != w || h.requests[0].Other? || h.requests[0].Destroy?
    ensures var h' := Handover.Apply(h, Handover.Serve);
      |h'.windows| == |h.windows| == |h.surfaces| == |h'.surfaces| && Unmoved(h, h', w)
  {
  }

  lemma {:induction false} PlacedKept(h: Handover.State, h': Handover.State, v: seq<Placement>)
    requires |v| == |h.windows| == |h'.windows| == |h.surfaces| == |h'.surfaces| && Placed(h, v)
    requires forall w: nat :: w < |v| ==> (Live(h', w) ==> Live(h, w))
    ensures Placed(h', v)
  {
  }

  // ---- Joint steps ----

  /** A step of the client, or of the server for it and how the server sees that; or a step of anyone else. */
  datatype Joint =
    | Ours(e: Handover.Event, seen: Option<DisplayRuns.Event>, placed: Placement)
    | Theirs(other: DisplayRuns.Event)

  /** What the pages become when the client writes a buffer. */
  function Rewritten(mem: Shared, cap: nat, buf: Handover.Pixels): Shared
    requires cap in mem && |buf| <= |mem[cap]|
  {
    mem[cap := buf + mem[cap][|buf|..]]
  }

  /** Painting and restoring write the pages the server reads. */
  ghost predicate Writes(b: Both, e: Handover.Event, b': Both)
    requires Handover.Shape(b.h) && Handover.Enabled(b.h, e) && (e.Paint? || e.Restore?) && |b.v| == |b.h.windows|
    requires Placed(b.h, b.v) && DisplayRuns.Shape(b.d)
  {
    var back := b.h.windows[e.w].back;
    var buf := Handover.Apply(b.h, e).windows[e.w].bufs[back];
    var cap := b.v[e.w].caps[back];
    && cap in b.d.mem && |buf| <= |b.d.mem[cap]|
    && DisplayStep(b, DisplayRuns.ClientWrite(Rewritten(b.d.mem, cap, buf)), b')
  }

  ghost predicate IsDamage(damage: set<nat>, v: Placement, area: Rect)
  {
    && area.x < v.width && area.y < v.height && area.w > 0 && area.h > 0
    && 0 < v.width && damage == RestoreCopy.Positions(v.width * v.height, v.width, area.x, area.y, area.w, area.h)
  }

  /** A commit arrives with its damage as a rectangle and its buffer as a handle. */
  ghost predicate IsCommit(r: Handover.Request, e: DisplayRuns.Event, client: nat, v: Placement)
  {
    && r.Commit? && r.buffer < |v.caps| && e.Commit? && e.client == client && e.id == v.id
    && e.cap == v.caps[r.buffer] && IsDamage(r.damage, v, Rect(e.dx, e.dy, e.dw, e.dh))
  }

  /** A window opens over two blank buffers that nobody uses yet, as a new surface. */
  ghost predicate IsOpening(b: Both, r: Handover.Request, e: DisplayRuns.Event, client: nat, placed: Placement)
  {
    && r.Create? && ValidPlacement(placed) && placed.id == b.d.nextId
    && 0 < placed.width && 0 < placed.height && placed.width * placed.height == r.size
    && e == DisplayRuns.Create(client, placed.width, placed.height, placed.x, placed.y, placed.caps[0])
    && |b.d.stack| < DisplayRuns.MAX_SURFACES
    && Holds(b.d.mem, placed.caps[0], Handover.OpenWindow(r.size).canvas)
    && Holds(b.d.mem, placed.caps[1], Handover.OpenWindow(r.size).canvas)
    && (forall i :: 0 <= i < |b.d.stack| ==> b.d.stack[i].pixels !in placed.caps)
    && (|b.v| == |b.h.windows| ==>
          forall w: nat, c :: w < |b.v| && Live(b.h, w) && c in placed.caps ==> c !in b.v[w].caps)
  }

  /** Anything any other client may ask for, write or die of, but for using this client's buffers. */
  ghost predicate Foreign(b: Both, e: DisplayRuns.Event, client: nat)
    requires |b.v| == |b.h.windows|
  {
    && ((e.Create? || e.Commit? || e.Raise? || e.Destroy? || e.Reap?) ==> e.client != client)
    && forall w: nat :: w < |b.v| && Live(b.h, w) ==> KeepsOff(b.d, e, b.v[w])
  }

  ghost predicate KeepsOff(d: DisplayRuns.Sys, e: DisplayRuns.Event, v: Placement)
  {
    && ((e.Create? || e.Commit?) ==> e.cap !in v.caps)
    && (e.ClientWrite? ==> forall c :: c in v.caps && c in d.mem ==> c in e.mem && e.mem[c] == d.mem[c])
  }

  /** The server takes up the client's request. Asking for focus or the screen size is nothing to the display. */
  ghost predicate Serves(b: Both, r: Handover.Request, seen: Option<DisplayRuns.Event>, placed: Placement, b': Both,
                         client: nat)
    requires r.w < |b.v| && DisplayRuns.Shape(b.d)
  {
    match r
    case Commit(w, _, _) => seen.Some? && IsCommit(r, seen.value, client, b.v[w]) && b'.v == b.v && DisplayStep(b, seen.value, b')
    case Create(w, _) =>
      seen.Some? && IsOpening(b, r, seen.value, client, placed) && b'.v == b.v[w := placed] && DisplayStep(b, seen.value, b')
    case Destroy(w) =>
      seen.Some? && seen.value.Destroy? && seen.value.client == client && seen.value.id == b.v[w].id && b'.v == b.v
      && DisplayStep(b, seen.value, b')
    case Other(_) =>
      b'.v == b.v
      && match seen
         case None => DisplayIdle(b, b')
         case Some(e) => e.Raise? && e.client == client && DisplayStep(b, e, b')
  }

  /** Of the client it is assumed that its flushes cover what was painted; of everyone else, `Foreign` alone. */
  ghost predicate JointStep(b: Both, j: Joint, b': Both, client: nat)
    requires JointInv(b, client)
  {
    match j
    case Theirs(e) => b'.h == b.h && b'.v == b.v && Foreign(b, e, client) && DisplayStep(b, e, b')
    case Ours(e, seen, placed) =>
      && Handover.Enabled(b.h, e) && b'.h == Handover.Apply(b.h, e)
      && (e.Post? ==> Handover.MissedBy(b.h, e, e.w) == {})
      && if e.Paint? || e.Restore? then b'.v == b.v && Writes(b, e, b')
         else if e.Serve? then Serves(b, b.h.requests[0], seen, placed, b', client)
         else b'.v == b.v && DisplayIdle(b, b')
  }

  // ---- Each keeps the invariant ----

  lemma FramesKept(h: Handover.State, e: Handover.Event)
    requires Handover.Inv(h) && Handover.Enabled(h, e) && Frames(h) && (e.Post? ==> Handover.MissedBy(h, e, e.w) == {})
    ensures Frames(Handover.Apply(h, e))
  {
    forall w: nat | w < |h.windows| && Handover.Apply(h, e).windows[w].open
      ensures Handover.BuffersOk(Handover.Apply(h, e).windows[w], {})
    {
      Handover.BuffersKept(h, e, w, {});
      assert Handover.MissedAfter(h, e, w, {}) == {};
    }
  }

  lemma TheirsKeep(b: Both, e: DisplayRuns.Event, b': Both, client: nat)
    requires JointInv(b, client) && JointStep(b, Theirs(e), b', client)
    ensures JointInv(b', client) && StaysGood(b, b')
  {
    ServerKept(b, e, b');
    forall w: nat | w < |b.v| ensures JointAt(b', client, w) && StaysGoodAt(b, b', w) {
      if Live(b.h, w) {
        assert KeepsOff(b.d, e, b.v[w]);
      }
      LeftAlone(b, e, b', client, w);
    }
  }

  lemma QuietKeeps(b: Both, e: Handover.Event, b': Both, client: nat)
    requires JointInv(b, client) && Handover.Enabled(b.h, e) && b'.h == Handover.Apply(b.h, e)
    requires (e.Post? && Handover.MissedBy(b.h, e, e.w) == {}) || e.Collect? || e.Call? || e.Return?
    requires b'.v == b.v && DisplayIdle(b, b')
    ensures JointInv(b', client) && StaysGood(b, b')
  {
    Handover.StepKeepsInv(b.h, e);
    FramesKept(b.h, e);
    forall w: nat | w < |b.v| ensures (Live(b'.h, w) ==> Live(b.h, w)) && JointAt(b', client, w) && StaysGoodAt(b, b', w) {
      ClientUnmoved(b.h, e, w);
      LeftIdle(b, b', client, w);
    }
    PlacedKept(b.h, b'.h, b.v);
  }

  // ---- The client writes what is not shown ----

  /** While the client can paint or restore, the window is visible and its own surface is not over the back buffer. */
  lemma BackIsHidden(b: Both, e: Handover.Event, client: nat)
    requires JointInv(b, client) && Handover.Enabled(b.h, e) && (e.Paint? || e.Restore?)
    ensures var win := b.h.windows[e.w];
      && Visible(b.h, e.w) && Seen(b.h, e.w) == win && win.back < 2 && b.h.surfaces[e.w].Surface?
      && (b.v[e.w].id in b.good ==> b.h.surfaces[e.w].points == 1 - win.back)
  {
    Handover.SettledPointsAway(b.h, e.w);
    assert JointAt(b, client, e.w);
  }

  /** Such a step writes the back buffer of its window and nothing else the server could see. */
  lemma WriteShape(h: Handover.State, e: Handover.Event)
    requires Handover.Inv(h) && Handover.Enabled(h, e) && (e.Paint? || e.Restore?)
    ensures var (h', w) := (Handover.Apply(h, e), e.w);
      && |h'.windows| == |h.windows| == |h.surfaces| && h'.surfaces == h.surfaces
      && Handover.WindowShape(h.windows[w]) && Handover.WindowShape(h'.windows[w])
      && |h'.windows[w].canvas| == |h.windows[w].canvas|
      && h'.windows[w].bufs[1 - h.windows[w].back] == h.windows[w].bufs[1 - h.windows[w].back]
      && (Live(h', w) ==> Live(h, w)) && Visible(h', w) && Seen(h', w) == h'.windows[w]
  {
  }

  /** The window written to is mirrored as before. */
  lemma WriteMirrored(d: DisplayRuns.Sys, d': DisplayRuns.Sys, win: Handover.Window, win': Handover.Window,
                      x: Handover.Surface, client: nat, v: Placement, back: nat)
    requires Mirrored(win, x, d, client, v) && Handover.WindowShape(win') && back < 2 && v.caps[0] != v.caps[1]
    requires |win'.canvas| == |win.canvas| && win'.bufs[1 - back] == win.bufs[1 - back]
    requires v.caps[back] in d.mem && |win'.bufs[back]| <= |d.mem[v.caps[back]]|
    requires d'.stack == d.stack && d'.mem == Rewritten(d.mem, v.caps[back], win'.bufs[back])
    ensures Mirrored(win', x, d', client, v)
  {
  }

  /** A good window stays good when its hidden buffer is written. */
  lemma WriteKeepsGood(d: DisplayRuns.Sys, e: DisplayRuns.Event, client: nat, win: Handover.Window, x: Handover.Surface,
                       v: Placement, back: nat, good: iset<nat>)
    requires DisplayRuns.Shape(d) && Mirrored(win, x, d, client, v) && ValidPlacement(v) && back < 2
    requires e.ClientWrite? && x.points == 1 - back
    requires forall c :: c in d.mem && c != v.caps[back] ==> c in e.mem && e.mem[c] == d.mem[c]
    ensures v.id in good ==> v.id in GoodAfter(d, e, good)
  {
    var t := Surface(v.id, client, v.caps[x.points], v.width, v.height, v.x, v.y);
    var i :| 0 <= i < |d.stack| && d.stack[i] == t;
    assert !Breaks(d, e, i);
    assert v.id in good ==> GoodNext(d, e, good, v.id);
  }

  /** The window written to: still in order, and still good if it was. */
  lemma WriterKeeps(b: Both, e: Handover.Event, b': Both, client: nat)
    requires JointInv(b, client) && Handover.Enabled(b.h, e) && b'.h == Handover.Apply(b.h, e)
    requires (e.Paint? || e.Restore?) && b'.v == b.v && Writes(b, e, b')
    ensures |b'.v| == |b'.h.windows| == |b'.h.surfaces| && JointAt(b', client, e.w)
    ensures b.v[e.w].id in b.good ==> b.v[e.w].id in b'.good
  {
    WriteShape(b.h, e);
    BackIsHidden(b, e, client);
    var (w, back) := (e.w, b.h.windows[e.w].back);
    var ev := DisplayRuns.ClientWrite(Rewritten(b.d.mem, b.v[w].caps[back], b'.h.windows[w].bufs[back]));
    assert JointAt(b, client, w);
    WriteMirrored(b.d, b'.d, b.h.windows[w], b'.h.windows[w], b.h.surfaces[w], client, b.v[w], back);
    if b.v[w].id in b.good {
      WriteKeepsGood(b.d, ev, client, b.h.windows[w], b.h.surfaces[w], b.v[w], back, b.good);
    } else {
      assert !GoodNext(b.d, ev, b.good, b.v[w].id);
    }
  }

  lemma WriteKeeps(b: Both, e: Handover.Event, b': Both, client: nat)
    requires JointInv(b, client) && Handover.Enabled(b.h, e) && b'.h == Handover.Apply(b.h, e)
    requires (e.Paint? || e.Restore?) && b'.v == b.v && Writes(b, e, b')
    ensures JointInv(b', client) && StaysGood(b, b')
  {
    Handover.StepKeepsInv(b.h, e);
    FramesKept(b.h, e);
    WriteShape(b.h, e);
    WriterKeeps(b, e, b', client);
    var (w, back) := (e.w, b.h.windows[e.w].back);
    var ev := DisplayRuns.ClientWrite(Rewritten(b.d.mem, b.v[w].caps[back], b'.h.windows[w].bufs[back]));
    ServerKept(b, ev, b');
    forall x: nat | x < |b.v| ensures (Live(b'.h, x) ==> Live(b.h, x)) && JointAt(b', client, x) && StaysGoodAt(b, b', x) {
      if x != w {
        WriterUnmoved(b.h, e, x);
        if Live(b.h, x) {
          assert Separate(b.v[w], b.v[x]) && b.v[w].caps[back] in b.v[w].caps;
        }
        LeftAlone(b, ev, b', client, x);
      }
    }
    PlacedKept(b.h, b'.h, b.v);
  }

  // ---- The server acts on a commit ----

  /** The surface of a window is the one its client and id find. */
  lemma FindSurface(d: DisplayRuns.Sys, client: nat, v: Placement, points: nat) returns (i: nat)
    requires DisplayRuns.Shape(d) && HasSurface(d.stack, client, v, points)
    ensures DisplayRuns.IndexOf(d.stack, client, v.id) == Some(i) && i < |d.stack|
    ensures d.stack[i] == Surface(v.id, client, v.caps[points], v.width, v.height, v.x, v.y)
  {
    var t := Surface(v.id, client, v.caps[points], v.width, v.height, v.x, v.y);
    var j :| 0 <= j < |d.stack| && d.stack[j] == t;
    assert DisplayRuns.IndexOf(d.stack, client, v.id).Some?;
    i := DisplayRuns.IndexOf(d.stack, client, v.id).value;
    assert forall k :: 0 <= k < |d.stack| && d.stack[k].id == v.id ==> k == j;
  }

  /** An unserved commit is its window's last, of the buffer that is not the back one. */
  lemma UnservedCommit(h: Handover.State)
    requires Handover.Inv(h) && h.requests != [] && h.requests[0].Commit?
    ensures var r := h.requests[0];
      && r.w < |h.windows| == |h.surfaces| && h.windows[r.w].open && h.windows[r.w].owed == r.damage != {}
      && Handover.WindowShape(h.windows[r.w]) && r.buffer == 1 - h.windows[r.w].back
      && Visible(h, r.w) && Seen(h, r.w) == h.windows[r.w]
  {
  }

  /** Whichever buffer the surface was over, it agrees with the committed one outside the damage. */
  lemma PagesAgree(mem: Shared, win: Handover.Window, x: Handover.Surface, d: DisplayRuns.Sys, client: nat, v: Placement,
                   buffer: nat)
    requires Mirrored(win, x, d, client, v) && Handover.BuffersOk(win, {}) && win.owed != {} && buffer == 1 - win.back
    requires mem == d.mem
    ensures var n := v.width * v.height;
      var (was, now) := (v.caps[x.points], v.caps[buffer]);
      && was in mem && now in mem && n <= |mem[was]| && n <= |mem[now]|
      && Handover.AgreeOutside(mem[was][..n], mem[now][..n], win.owed)
  {
  }

  /** So the client's commits are honest. */
  lemma CommitIsHonest(d: DisplayRuns.Sys, e: DisplayRuns.Event, client: nat, win: Handover.Window, x: Handover.Surface,
                       v: Placement, r: Handover.Request, i: nat)
    requires Mirrored(win, x, d, client, v) && Handover.BuffersOk(win, {}) && r.Commit? && win.owed == r.damage != {}
    requires r.buffer == 1 - win.back && IsCommit(r, e, client, v) && ValidPlacement(v)
    requires i < |d.stack| && d.stack[i] == Surface(v.id, client, v.caps[x.points], v.width, v.height, v.x, v.y)
    ensures Honest(d, e, i) && DisplayRuns.AcceptBuffer(d.mem, e.cap, v.width, v.height) == DisplayRuns.Ok(e.cap)
  {
    PagesAgree(d.mem, win, x, d, client, v, r.buffer);
    MulBefore(0, v.height, v.width);
    AgreeingBuffersAgreeOnSurface(d.stack[i], d.mem, e.cap, e.dx, e.dy, e.dw, e.dh);
  }

  /** The window committed to is mirrored with the surface over the new buffer, and honestly so. */
  lemma CommitKeepsWindow(d: DisplayRuns.Sys, e: DisplayRuns.Event, d': DisplayRuns.Sys, client: nat, win: Handover.Window,
                          x: Handover.Surface, v: Placement, r: Handover.Request, good: iset<nat>)
    requires DisplayRuns.Shape(d) && DisplayRuns.Next(d, e, d') && Exclusive(d.stack, client, v)
    requires Mirrored(win, x, d, client, v) && Handover.BuffersOk(win, {}) && r.Commit? && win.owed == r.damage != {}
    requires r.buffer == 1 - win.back && IsCommit(r, e, client, v) && ValidPlacement(v)
    ensures Exclusive(d'.stack, client, v)
    ensures Mirrored(win, Handover.Surface(r.buffer, Some(win.bufs[r.buffer])), d', client, v)
    ensures v.id in good ==> v.id in GoodAfter(d, e, good)
    ensures v.width <= e.dw && v.height <= e.dh && e.dx == e.dy == 0 ==> v.id in GoodAfter(d, e, good)
  {
    var i := FindSurface(d, client, v, x.points);
    CommitIsHonest(d, e, client, win, x, v, r, i);
    var t := d.stack[i].(pixels := e.cap);
    assert d'.stack == d.stack[i := t] && d'.stack[i] == t;
    assert t == Surface(v.id, client, v.caps[r.buffer], v.width, v.height, v.x, v.y);
    assert !Breaks(d, e, i);
    assert v.id in good ==> GoodNext(d, e, good, v.id);
    assert v.width <= e.dw && v.height <= e.dh && e.dx == e.dy == 0 ==> GoodNext(d, e, good, v.id);
    assert forall j :: 0 <= j < |d'.stack| && j != i ==> d'.stack[j] == d.stack[j];
  }

  /** What serving a commit makes of the client's side. */
  lemma CommitServed(h: Handover.State)
    requires Handover.Inv(h) && h.requests != [] && h.requests[0].Commit?
    ensures var (r, h') := (h.requests[0], Handover.Apply(h, Handover.Serve));
      && r.w < |h.windows| == |h'.windows| == |h'.surfaces| && h'.windows == h.windows && Visible(h', r.w)
      && Seen(h', r.w) == h.windows[r.w] && r.buffer < 2 == |h.windows[r.w].bufs|
      && (h.surfaces[r.w].Surface? ==>
            h'.surfaces[r.w] == Handover.Surface(r.buffer, Some(h.windows[r.w].bufs[r.buffer])))
  {
    UnservedCommit(h);
  }

  lemma CommitKeeps(b: Both, seen: DisplayRuns.Event, b': Both, client: nat)
    requires JointInv(b, client) && b.h.requests != [] && b.h.requests[0].Commit?
    requires b.h.requests[0].w < |b.v| && IsCommit(b.h.requests[0], seen, client, b.v[b.h.requests[0].w])
    requires b'.h == Handover.Apply(b.h, Handover.Serve) && b'.v == b.v && DisplayStep(b, seen, b')
    ensures JointInv(b', client) && StaysGood(b, b')
    ensures var v := b.v[b.h.requests[0].w];
      v.id in b.good || (v.width <= seen.dw && v.height <= seen.dh && seen.dx == seen.dy == 0) ==> v.id in b'.good
  {
    var (h, r) := (b.h, b.h.requests[0]);
    Handover.StepKeepsInv(h, Handover.Serve);
    FramesKept(h, Handover.Serve);
    ServerKept(b, seen, b');
    UnservedCommit(h);
    CommitServed(h);
    assert JointAt(b, client, r.w);
    CommitKeepsWindow(b.d, seen, b'.d, client, h.windows[r.w], h.surfaces[r.w], b.v[r.w], r, b.good);
    forall x: nat | x < |b.v| ensures (Live(b'.h, x) ==> Live(h, x)) && JointAt(b', client, x) && StaysGoodAt(b, b', x) {
      if x != r.w {
        ServerUnmoved(h, x);
        if Live(h, x) {
          assert Separate(b.v[r.w], b.v[x]) && seen.cap in b.v[r.w].caps;
        }
        LeftAlone(b, seen, b', client, x);
      }
    }
    PlacedKept(h, b'.h, b.v);
  }

  // ---- The server opens and closes windows ----

  /** What serving the opening of a window makes of the client's side. */
  lemma OpeningServed(h: Handover.State)
    requires Handover.Inv(h) && h.requests != [] && h.requests[0].Create?
    ensures var (r, h') := (h.requests[0], Handover.Apply(h, Handover.Serve));
      && r.w < |h.windows| == |h'.windows| == |h'.surfaces| && h.calling == Some(r) && Opening(h', r.w)
      && Visible(h', r.w) && Seen(h', r.w) == Handover.OpenWindow(r.size) && h'.surfaces[r.w] == Handover.Surface(0, None)
      && !Live(h, r.w)
  {
    assert Handover.WindowOk(h, h.requests[0].w);
  }

  /** While a window is being opened every window in use is visible, so none has the id the server gives next. */
  lemma NextIdIsNew(b: Both, client: nat, w: nat)
    requires JointInv(b, client) && b.h.requests != [] && b.h.requests[0].Create? && w < |b.v| && Live(b.h, w)
    ensures b.v[w].id < b.d.nextId
  {
    OpeningServed(b.h);
    assert JointAt(b, client, w);
    var i := FindSurface(b.d, client, b.v[w], b.h.surfaces[w].points);
  }

  lemma OpeningMirrored(b: Both, r: Handover.Request, seen: DisplayRuns.Event, b': Both, client: nat, placed: Placement)
    requires ServerOk(b) && IsOpening(b, r, seen, client, placed) && DisplayStep(b, seen, b')
    ensures Exclusive(b'.d.stack, client, placed) && placed.id !in b'.good
    ensures Mirrored(Handover.OpenWindow(r.size), Handover.Surface(0, None), b'.d, client, placed)
  {
    var t := Surface(placed.id, client, placed.caps[0], placed.width, placed.height, placed.x, placed.y);
    MulBefore(0, placed.height, placed.width);
    assert DisplayRuns.AcceptBuffer(b.d.mem, placed.caps[0], placed.width, placed.height).Ok?;
    assert b'.d.stack == b.d.stack + [t] && b'.d.stack[|b.d.stack|] == t;
  }

  lemma OpeningPlaced(b: Both, seen: DisplayRuns.Event, h': Handover.State, client: nat, placed: Placement)
    requires JointInv(b, client) && b.h.requests != [] && b.h.requests[0].Create?
    requires IsOpening(b, b.h.requests[0], seen, client, placed) && h' == Handover.Apply(b.h, Handover.Serve)
    ensures b.h.requests[0].w < |b.v| == |h'.windows| && Placed(h', b.v[b.h.requests[0].w := placed])
  {
    OpeningServed(b.h);
    var w := b.h.requests[0].w;
    forall x: nat | x < |b.v| && x != w && Live(h', x)
      ensures Live(b.h, x) && Separate(placed, b.v[x]) && Separate(b.v[x], placed)
    {
      ServerUnmoved(b.h, x);
      NextIdIsNew(b, client, x);
    }
    forall x: nat, y: nat | x < |b.v| && y < |b.v| && x != y && x != w && y != w && Live(h', x) && Live(h', y)
      ensures Separate(b.v[x], b.v[y])
    {
      assert Live(b.h, x) && Live(b.h, y);
    }
  }

  lemma OpeningKeeps(b: Both, seen: DisplayRuns.Event, b': Both, client: nat, placed: Placement)
    requires JointInv(b, client) && b.h.requests != [] && b.h.requests[0].Create? && b.h.requests[0].w < |b.v|
    requires IsOpening(b, b.h.requests[0], seen, client, placed) && DisplayStep(b, seen, b')
    requires b'.h == Handover.Apply(b.h, Handover.Serve) && b'.v == b.v[b.h.requests[0].w := placed]
    ensures JointInv(b', client) && StaysGood(b, b')
  {
    var (h, r) := (b.h, b.h.requests[0]);
    Handover.StepKeepsInv(h, Handover.Serve);
    FramesKept(h, Handover.Serve);
    ServerKept(b, seen, b');
    OpeningServed(h);
    OpeningMirrored(b, r, seen, b', client, placed);
    OpeningPlaced(b, seen, b'.h, client, placed);
    forall x: nat | x < |b.v| ensures JointAt(b', client, x) && StaysGoodAt(b, b', x) {
      if x != r.w {
        ServerUnmoved(h, x);
        if Live(h, x) {
          assert seen.cap in placed.caps;
        }
        LeftAlone(b, seen, b', client, x);
      }
    }
  }

  lemma ClosingKeeps(b: Both, seen: DisplayRuns.Event, b': Both, client: nat)
    requires JointInv(b, client) && b.h.requests != [] && b.h.requests[0].Destroy? && b.h.requests[0].w < |b.v|
    requires seen.Destroy? && seen.client == client && seen.id == b.v[b.h.requests[0].w].id && DisplayStep(b, seen, b')
    requires b'.h == Handover.Apply(b.h, Handover.Serve) && b'.v == b.v
    ensures JointInv(b', client) && StaysGood(b, b')
  {
    var (h, r) := (b.h, b.h.requests[0]);
    Handover.StepKeepsInv(h, Handover.Serve);
    FramesKept(h, Handover.Serve);
    ServerKept(b, seen, b');
    ClosingServed(h);
    forall x: nat | x < |b.v| ensures (Live(b'.h, x) ==> Live(h, x)) && JointAt(b', client, x) && StaysGoodAt(b, b', x) {
      ServerUnmoved(h, x);
      assert JointAt(b, client, x);
      if x == r.w {
        ExclusiveKept(b.d, seen, client, b.v[x]);
      } else {
        if Live(h, x) {
          assert Separate(b.v[r.w], b.v[x]);
        }
        LeftAlone(b, seen, b', client, x);
      }
    }
    PlacedKept(h, b'.h, b.v);
  }

  lemma ClosingServed(h: Handover.State)
    requires Handover.Inv(h) && h.requests != [] && h.requests[0].Destroy?
    ensures var (r, h') := (h.requests[0], Handover.Apply(h, Handover.Serve));
      && r.w < |h.windows| == |h'.windows| == |h'.surfaces| && h.calling == Some(r) && Live(h, r.w) && !Visible(h', r.w)
  {
    assert Handover.WindowOk(h, h.requests[0].w);
  }

  /** Raising one of its windows, or asking something that is nothing to the display. */
  lemma AskingKeeps(b: Both, seen: Option<DisplayRuns.Event>, b': Both, client: nat)
    requires JointInv(b, client) && b.h.requests != [] && b.h.requests[0].Other? && b'.v == b.v
    requires b'.h == Handover.Apply(b.h, Handover.Serve)
    requires match seen case None => DisplayIdle(b, b') case Some(e) => e.Raise? && DisplayStep(b, e, b')
    ensures JointInv(b', client) && StaysGood(b, b')
  {
    Handover.StepKeepsInv(b.h, Handover.Serve);
    FramesKept(b.h, Handover.Serve);
    if seen.Some? {
      ServerKept(b, seen.value, b');
    }
    forall x: nat | x < |b.v| ensures (Live(b'.h, x) ==> Live(b.h, x)) && JointAt(b', client, x) && StaysGoodAt(b, b', x) {
      ServerUnmoved(b.h, x);
      if seen.Some? {
        LeftAlone(b, seen.value, b', client, x);
      } else {
        LeftIdle(b, b', client, x);
      }
    }
    PlacedKept(b.h, b'.h, b.v);
  }

  lemma JointStepKeeps(b: Both, j: Joint, b': Both, client: nat)
    requires JointInv(b, client) && JointStep(b, j, b', client)
    ensures JointInv(b', client) && StaysGood(b, b')
  {
    match j
    case Theirs(e) => TheirsKeep(b, e, b', client);
    case Ours(e, seen, placed) =>
      if e.Paint? || e.Restore? {
        WriteKeeps(b, e, b', client);
      } else if e.Serve? {
        match b.h.requests[0]
        case Commit(_, _, _) => CommitKeeps(b, seen.value, b', client);
        case Create(_, _) => OpeningKeeps(b, seen.value, b', client, placed);
        case Destroy(_) => ClosingKeeps(b, seen.value, b', client);
        case Other(_) => AskingKeeps(b, seen, b', client);
      } else {
        QuietKeeps(b, e, b', client);
      }
  }

  // ---- Joint runs ----

  /** A client that has opened nothing yet joins a server in whatever state its other clients have left it. */
  ghost predicate Joins(b: Both)
  {
    Handover.Initial(b.h) && ServerOk(b) && b.good == iset{} && |b.v| == |b.h.windows|
  }

  lemma JoiningInv(b: Both, client: nat)
    requires Joins(b)
    ensures JointInv(b, client)
  {
    assert Handover.IsRun([b.h], []);
    Handover.EveryRunKeepsInv([b.h], [], 0);
  }

  ghost predicate JointRun(bs: seq<Both>, js: seq<Joint>, client: nat)
  {
    && |bs| == |js| + 1 && Joins(bs[0])
    && forall k: nat :: k < |js| ==> JointStepAt(bs, js, client, k)
  }

  /** Nothing is assumed of the state a step starts from. */
  ghost predicate JointStepAt(bs: seq<Both>, js: seq<Joint>, client: nat, k: nat)
    requires |bs| == |js| + 1 && k < |js|
  {
    JointInv(bs[k], client) ==> JointStep(bs[k], js[k], bs[k + 1], client)
  }

  lemma {:induction false} EveryJointRunKeepsInv(bs: seq<Both>, js: seq<Joint>, client: nat, k: nat)
    requires JointRun(bs, js, client) && k < |bs|
    ensures JointInv(bs[k], client)
  {
    if k == 0 {
      JoiningInv(bs[0], client);
    } else {
      EveryJointRunKeepsInv(bs, js, client, k - 1);
      assert JointStepAt(bs, js, client, k - 1);
      JointStepKeeps(bs[k - 1], js[k - 1], bs[k], client);
    }
  }

  lemma JointRunOneMore(bs: seq<Both>, js: seq<Joint>, client: nat, j: Joint, b: Both)
    returns (bs': seq<Both>, js': seq<Joint>)
    requires JointRun(bs, js, client) && JointInv(bs[|js|], client) && JointStep(bs[|js|], j, b, client)
    ensures bs' == bs + [b] && js' == js + [j] && JointRun(bs', js', client) && JointInv(b, client)
  {
    bs', js' := bs + [b], js + [j];
    forall k: nat | k < |js'| ensures JointStepAt(bs', js', client, k) {
      assert k < |js| ==> JointStepAt(bs, js, client, k);
    }
    JointStepKeeps(bs[|js|], j, b, client);
  }

  /** In every such run a window that has become good is good until it is closed. */
  lemma OnceGoodStaysGood(bs: seq<Both>, js: seq<Joint>, client: nat, k: nat, w: nat)
    requires JointRun(bs, js, client) && k < |js| && w < |bs[k].v|
    ensures w < |bs[k].h.windows| && |bs[k].v| == |bs[k + 1].v| == |bs[k + 1].h.windows|
    ensures Visible(bs[k].h, w) && Visible(bs[k + 1].h, w) && bs[k].v[w].id in bs[k].good ==>
      bs[k + 1].v[w].id in bs[k + 1].good
  {
    EveryJointRunKeepsInv(bs, js, client, k);
    assert JointStepAt(bs, js, client, k);
    JointStepKeeps(bs[k], js[k], bs[k + 1], client);
    assert StaysGoodAt(bs[k], bs[k + 1], w);
  }

  // ---- What is on the display ----

  ghost predicate InPlace(v: Placement, p: Point)
  {
    v.x <= p.x < v.x + v.width && v.y <= p.y < v.y + v.height
  }

  /** The pixel of a frame that belongs at a screen position. */
  ghost function FrameAt(frame: Handover.Pixels, v: Placement, p: Point): Colour
    requires InPlace(v, p) && |frame| == v.width * v.height
  {
    PixelInBuffer(p.y - v.y, p.x - v.x, v.width, v.height);
    frame[(p.y - v.y) * v.width + (p.x - v.x)]
  }

  /** Wherever the window is uppermost, the display shows this frame. */
  ghost predicate ShowsFrame(d: DisplayRuns.Sys, v: Placement, frame: Handover.Pixels)
    requires DisplayRuns.Shape(d)
  {
    && |frame| == v.width * v.height
    && forall p: Point, i: nat :: d.g.OnScreen(p) && IsTopmost(d.stack, p, Some(i)) && d.stack[i].id == v.id ==>
         InPlace(v, p) && DisplayRuns.Pixel(d.g, d.fb, d.shown, p) == FrameAt(frame, v, p)
  }

  /** A mirrored surface holds the pixels of the buffer it is over. */
  lemma SurfaceHolds(d: DisplayRuns.Sys, client: nat, win: Handover.Window, x: Handover.Surface, v: Placement, p: Point, i: nat)
    requires DisplayRuns.Shape(d) && Mirrored(win, x, d, client, v)
    requires i < |d.stack| && d.stack[i].id == v.id && Covers(d.stack[i], p)
    ensures InPlace(v, p) && |win.bufs[x.points]| == v.width * v.height
    ensures At(d.stack[i], d.mem, p) == Some(FrameAt(win.bufs[x.points], v, p))
  {
    var j := FindSurface(d, client, v, x.points);
    assert i == j;
    PixelInBuffer(p.y - v.y, p.x - v.x, v.width, v.height);
  }

  /** A visible window's surface is over the last frame it committed. */
  lemma LastFrame(h: Handover.State, w: nat)
    requires Handover.Inv(h) && w < |h.windows| == |h.surfaces| && Visible(h, w) && h.surfaces[w].Surface?
    requires h.surfaces[w].frame.Some? && h.surfaces[w].points < 2
    ensures |Seen(h, w).bufs| == 2 && Seen(h, w).bufs[h.surfaces[w].points] == h.surfaces[w].frame.value
  {
    assert Handover.WindowOk(h, w);
  }

  /** What the display shows of good surfaces, read as windows. */
  lemma GoodIsShown(d: DisplayRuns.Sys, good: iset<nat>, client: nat, win: Handover.Window, x: Handover.Surface, v: Placement)
    requires DisplayRuns.Shape(d) && ShowsGood(d, good) && Mirrored(win, x, d, client, v) && v.id in good
    ensures ShowsFrame(d, v, win.bufs[x.points])
  {
    forall p: Point, i: nat | d.g.OnScreen(p) && IsTopmost(d.stack, p, Some(i)) && d.stack[i].id == v.id
      ensures InPlace(v, p) && DisplayRuns.Pixel(d.g, d.fb, d.shown, p) == FrameAt(win.bufs[x.points], v, p)
    {
      SurfaceHolds(d, client, win, x, v, p, i);
    }
  }

  /** When anyone's step reaches the display, every good window of this client shows the frame it committed last. */
  lemma GoodWindowsShown(b: Both, e: DisplayRuns.Event, b': Both, client: nat, w: nat)
    requires JointInv(b, client) && JointInv(b', client) && DisplayStep(b, e, b') && DisplayRuns.Presented(b.d, e)
    requires w < |b'.v| && Visible(b'.h, w) && b'.v[w].id in b'.good
    ensures b'.h.surfaces[w].Surface? && b'.h.surfaces[w].frame.Some?
    ensures ShowsFrame(b'.d, b'.v[w], b'.h.surfaces[w].frame.value)
  {
    PresentedShowsGood(b.d, e, b'.d, b.pending, b.good);
    assert JointAt(b', client, w);
    LastFrame(b'.h, w);
    GoodIsShown(b'.d, b'.good, client, Seen(b'.h, w), b'.h.surfaces[w], b'.v[w]);
  }

  /** The display server's part in a joint step, if it has one. */
  ghost function ServerEvent(b: Both, j: Joint): Option<DisplayRuns.Event>
  {
    match j
    case Theirs(e) => Some(e)
    case Ours(e, seen, _) => if e.Serve? then seen else None
  }

  /**
   * Over every run of this client and the server among any others, from the client's first request on:
   * whenever a step, anyone's, reaches the display, each of its windows that has been committed whole
   * since it opened shows, wherever it is uppermost, exactly the frame it committed last.
   */
  lemma WindowsAreShown(bs: seq<Both>, js: seq<Joint>, client: nat, k: nat, w: nat)
    requires JointRun(bs, js, client) && k < |js| && ServerEvent(bs[k], js[k]).Some?
    requires DisplayRuns.Presented(bs[k].d, ServerEvent(bs[k], js[k]).value)
    requires w < |bs[k + 1].v| == |bs[k + 1].h.windows| && Visible(bs[k + 1].h, w) && bs[k + 1].v[w].id in bs[k + 1].good
    ensures w < |bs[k + 1].h.surfaces| && bs[k + 1].h.surfaces[w].Surface? && bs[k + 1].h.surfaces[w].frame.Some?
    ensures DisplayRuns.Shape(bs[k + 1].d) && ShowsFrame(bs[k + 1].d, bs[k + 1].v[w], bs[k + 1].h.surfaces[w].frame.value)
  {
    EveryJointRunKeepsInv(bs, js, client, k);
    EveryJointRunKeepsInv(bs, js, client, k + 1);
    assert JointStepAt(bs, js, client, k);
    GoodWindowsShown(bs[k], ServerEvent(bs[k], js[k]).value, bs[k + 1], client, w);
  }

  /** The step serves a commit, and what it paints is put on the display. */
  ghost predicate PresentsCommit(b: Both, j: Joint)
  {
    && j.Ours? && j.e.Serve? && b.h.requests != [] && b.h.requests[0].Commit? && j.seen.Some?
    && DisplayRuns.Presented(b.d, j.seen.value)
  }

  /** The damage the server receives is the whole window. */
  predicate WholeWindow(e: DisplayRuns.Event, v: Placement)
  {
    e.Commit? && e.dx == 0 && e.dy == 0 && v.width <= e.dw && v.height <= e.dh
  }

  lemma NothingUndeclaredShowsAll(b: Both, e: DisplayRuns.Event, b': Both)
    requires ServerOk(b) && DisplayStep(b, e, b') && DisplayRuns.Presented(b.d, e)
    ensures DisplayRuns.Shape(b'.d) && (b'.pending == iset{} ==> DisplayRuns.ShowsFullRender(b'.d))
  {
    DisplayRuns.StepKeepsInv(b.d, e, b'.d, b.pending);
    forall p: Point | b'.pending == iset{} && b'.d.g.OnScreen(p)
      ensures DisplayRuns.Pixel(b'.d.g, b'.d.fb, b'.d.shown, p) == Render(b'.d.stack, b'.d.mem, p)
    {
      DisplayRuns.PresentedStepShowsRender(b.d, e, b'.d, b.pending, p);
    }
  }

  /** The served window is good afterwards, and its last frame is the one Qt meant. */
  lemma ServedFrameIsCanvas(b: Both, seen: Option<DisplayRuns.Event>, placed: Placement, b': Both, client: nat)
    requires JointInv(b, client) && JointStep(b, Ours(Handover.Serve, seen, placed), b', client)
    requires b.h.requests != [] && b.h.requests[0].Commit? && seen.Some?
    ensures var w := b.h.requests[0].w;
      && w < |b.v| == |b.h.windows| && b'.v == b.v && Visible(b'.h, w) && w < |b'.h.surfaces|
      && (b.v[w].id in b.good || WholeWindow(seen.value, b.v[w]) ==> b.v[w].id in b'.good)
      && b'.h.surfaces[w] == Handover.Surface(b.h.requests[0].buffer, Some(b.h.windows[w].canvas))
  {
    UnservedCommit(b.h);
    CommitServed(b.h);
    var r := b.h.requests[0];
    CommitKeeps(b, seen.value, b', client);
    assert JointAt(b, client, r.w);
    assert b.h.windows[r.w].bufs[r.buffer] == b.h.windows[r.w].canvas;
  }

  /**
   * End to end: when a commit of the whole window, or of any part of a good one, is served and reaches the
   * display, the window shows exactly the frame Qt meant wherever it is uppermost; and if nothing is left
   * undeclared by anyone, the display is right everywhere.
   */
  lemma CommittedFrameReachesDisplay(bs: seq<Both>, js: seq<Joint>, client: nat, k: nat)
    requires JointRun(bs, js, client) && k < |js| && PresentsCommit(bs[k], js[k])
    ensures var (b, b', w) := (bs[k], bs[k + 1], bs[k].h.requests[0].w);
      && w < |b.v| == |b.h.windows| && DisplayRuns.Shape(b'.d)
      && (b.v[w].id in b.good || WholeWindow(js[k].seen.value, b.v[w]) ==>
            b.v[w].id in b'.good && ShowsFrame(b'.d, b.v[w], b.h.windows[w].canvas))
      && (b'.pending == iset{} ==> DisplayRuns.ShowsFullRender(b'.d))
  {
    EveryJointRunKeepsInv(bs, js, client, k);
    EveryJointRunKeepsInv(bs, js, client, k + 1);
    assert JointStepAt(bs, js, client, k);
    var (b, b', e) := (bs[k], bs[k + 1], js[k].seen.value);
    ServedFrameIsCanvas(b, js[k].seen, js[k].placed, b', client);
    NothingUndeclaredShowsAll(b, e, b');
    if b.v[b.h.requests[0].w].id in b'.good {
      GoodWindowsShown(b, e, b', client, b.h.requests[0].w);
    }
  }
}
