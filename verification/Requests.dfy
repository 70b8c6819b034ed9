/**
 * services/displaysrv/main.rs: what each granted request brings about, and why one is refused, told
 * without the functions that compute either.
 */
module Requests {
  import opened Common
  import opened Surfaces
  import opened DisplayRuns

  /** Surface `i` is the one a client means by that id. */
  predicate Names(stack: seq<Surface>, client: nat, id: nat, i: nat)
  {
    i < |stack| && stack[i].owner == client && stack[i].id == id
  }

  ghost predicate NamesNone(stack: seq<Surface>, client: nat, id: nat)
  {
    forall i: nat :: !Names(stack, client, id, i)
  }

  /** Ids are distinct, so the search finds the one surface there is to find. */
  lemma FindsTheOne(s: Sys, client: nat, id: nat, i: nat)
    requires Shape(s) && Names(s.stack, client, id, i)
    ensures IndexOf(s.stack, client, id) == Some(i)
  {
    var r := IndexOf(s.stack, client, id);
    assert s.stack[i].id == id;
    assert r.Some? ==> s.stack[r.value].id == id;
  }

  /** Everything but surface `i` is in `now`, in the same order and with nothing between. */
  ghost predicate RestInOrder(was: seq<Surface>, i: nat, now: seq<Surface>)
    requires i < |was|
  {
    |was| <= |now| + 1 && forall j: nat :: j < |was| && j != i ==> now[if j < i then j else j - 1] == was[j]
  }

  // ---- What is granted ----

  /**
   * A raised surface is the last of as many as before, the others keep their order, and wherever it
   * is, its own pixel is what the screen should show.
   */
  lemma RaiseRaises(s: Sys, e: Event, s': Sys, i: nat)
    requires Shape(s) && Next(s, e, s') && e.Raise? && Names(s.stack, e.client, e.id, i)
    ensures ReplyTo(s, e).Ok? && s'.mem == s.mem && Shape(s')
    ensures |s'.stack| == |s.stack| && s'.stack[|s.stack| - 1] == s.stack[i]
    ensures RestInOrder(s.stack, i, s'.stack)
    ensures forall p: Point :: Covers(s.stack[i], p) ==>
      Some(Render(s'.stack, s'.mem, p)) == At(s.stack[i], s.mem, p)
  {
    FindsTheOne(s, e.client, e.id, i);
    ShapeKept(s, e, s');
    TopShows(s'.stack, s'.mem);
  }

  lemma TopShows(stack: seq<Surface>, mem: Shared)
    requires stack != [] && AllBacked(stack, mem)
    ensures forall p: Point :: Covers(stack[|stack| - 1], p) ==>
      Some(Render(stack, mem, p)) == At(stack[|stack| - 1], mem, p)
  {
  }

  /** A destroyed surface is gone for its client, and the others keep their order. */
  lemma DestroyDestroys(s: Sys, e: Event, s': Sys, i: nat)
    requires Shape(s) && Next(s, e, s') && e.Destroy? && Names(s.stack, e.client, e.id, i)
    ensures ReplyTo(s, e).Ok? && s'.mem == s.mem
    ensures |s'.stack| == |s.stack| - 1 && RestInOrder(s.stack, i, s'.stack)
    ensures NamesNone(s'.stack, e.client, e.id)
  {
    FindsTheOne(s, e.client, e.id, i);
    forall j: nat ensures !Names(s'.stack, e.client, e.id, j) {
      if j < |s'.stack| {
        assert s'.stack[j] == s.stack[if j < i then j else j + 1];
      }
    }
  }

  /** A buffer the surface can be put over: known here, not empty, and large enough. */
  predicate Holds(mem: Shared, cap: nat, width: nat, height: nat)
  {
    cap in mem && 0 < |mem[cap]| && width * height <= |mem[cap]|
  }

  /** A commit changes nothing of the stack but the buffer of its surface, and that only for one large enough. */
  lemma CommitCommits(s: Sys, e: Event, s': Sys, i: nat)
    requires Shape(s) && Next(s, e, s') && e.Commit? && Names(s.stack, e.client, e.id, i)
    ensures s'.mem == s.mem && |s'.stack| == |s.stack|
    ensures forall j: nat :: j < |s.stack| && j != i ==> s'.stack[j] == s.stack[j]
    ensures var (t, t') := (s.stack[i], s'.stack[i]);
      && t' == Surface(t.id, t.owner, t'.pixels, t.width, t.height, t.x, t.y)
      && t'.pixels == if e.cap != 0 && Holds(s.mem, e.cap, t.width, t.height) then e.cap else t.pixels
  {
    FindsTheOne(s, e.client, e.id, i);
  }

  /** A created surface is on top of all the others, as it was asked for, and shows wherever it is. */
  lemma CreateCreates(s: Sys, e: Event, s': Sys)
    requires Shape(s) && Next(s, e, s') && e.Create? && ReplyTo(s, e).Ok?
    ensures Shape(s') && |s'.stack| == |s.stack| + 1
    ensures forall j: nat :: j < |s.stack| ==> s'.stack[j] == s.stack[j]
    ensures var t := s'.stack[|s.stack|];
      && t == Surface(ReplyTo(s, e).value, e.client, e.cap, e.width, e.height, e.x, e.y)
      && forall p: Point :: Covers(t, p) ==> Some(Render(s'.stack, s'.mem, p)) == At(t, s'.mem, p)
  {
    ShapeKept(s, e, s');
  }

  ghost predicate Below(stack: seq<Surface>, lower: Surface, upper: Surface)
  {
    exists i: nat, j: nat :: i < j < |stack| && stack[i] == lower && stack[j] == upper
  }

  lemma {:induction false} OthersKeep(stack: seq<Surface>, owner: nat, i: nat)
    requires i < |stack| && stack[i].owner != owner
    ensures stack[i] in Others(stack, owner)
    decreases |stack|
  {
    if i < |stack| - 1 {
      OthersKeep(stack[..|stack| - 1], owner, i);
    }
  }

  lemma {:induction false} OthersKeepOrder(stack: seq<Surface>, owner: nat, i: nat, j: nat)
    requires i < j < |stack| && stack[i].owner != owner && stack[j].owner != owner
    ensures Below(Others(stack, owner), stack[i], stack[j])
    decreases |stack|
  {
    var top := |stack| - 1;
    var rest := Others(stack[..top], owner);
    var all := Others(stack, owner);
    if j < top {
      OthersKeepOrder(stack[..top], owner, i, j);
      var a: nat, b: nat :| a < b < |rest| && rest[a] == stack[i] && rest[b] == stack[j];
      assert all[a] == stack[i] && all[b] == stack[j];
    } else {
      OthersKeep(stack[..top], owner, i);
      var a: nat :| a < |rest| && rest[a] == stack[i];
      assert all[a] == stack[i] && all[|rest|] == stack[j];
    }
  }

  lemma {:induction false} OthersAreFewer(stack: seq<Surface>, owner: nat)
    requires exists i :: 0 <= i < |stack| && stack[i].owner == owner
    ensures |Others(stack, owner)| < |stack|
    decreases |stack|
  {
    var top := |stack| - 1;
    OthersNoMore(stack[..top], owner);
    if stack[top].owner != owner {
      var i :| 0 <= i < |stack| && stack[i].owner == owner;
      assert stack[..top][i].owner == owner;
      OthersAreFewer(stack[..top], owner);
    }
  }

  lemma {:induction false} OthersNoMore(stack: seq<Surface>, owner: nat)
    ensures |Others(stack, owner)| <= |stack|
    decreases |stack|
  {
    if stack != [] {
      OthersNoMore(stack[..|stack| - 1], owner);
    }
  }

  /** Of a dead client nothing is left; of everyone else, everything, in the same order. */
  lemma ReapReaps(s: Sys, e: Event, s': Sys)
    requires Shape(s) && Next(s, e, s') && e.Reap?
    ensures s'.mem == s.mem
    ensures forall t :: t in s'.stack <==> t in s.stack && t.owner != e.client
    ensures forall i: nat, j: nat :: i < j < |s.stack| && s.stack[i].owner != e.client && s.stack[j].owner != e.client ==>
      Below(s'.stack, s.stack[i], s.stack[j])
  {
    forall t | t in s.stack && t.owner != e.client ensures t in s'.stack {
      var i :| 0 <= i < |s.stack| && s.stack[i] == t;
      OthersKeep(s.stack, e.client, i);
    }
    forall i: nat, j: nat | i < j < |s.stack| && s.stack[i].owner != e.client && s.stack[j].owner != e.client
      ensures Below(s'.stack, s.stack[i], s.stack[j])
    {
      OthersKeepOrder(s.stack, e.client, i, j);
    }
  }

  // ---- What is refused ----

  /** Every reason there is to refuse a create, in the order they are looked for. */
  lemma CreateRefusals(s: Sys, e: Event)
    requires e.Create?
    ensures ReplyTo(s, e) == Err(ERR_MALFORMED) <==> e.width == 0 || e.height == 0 || e.cap == 0
    ensures ReplyTo(s, e) == Err(ERR_BUFFER) <==>
      e.width != 0 && e.height != 0 && e.cap != 0 && !Holds(s.mem, e.cap, e.width, e.height)
    ensures ReplyTo(s, e) == Err(ERR_FULL) <==>
      e.width != 0 && e.height != 0 && e.cap != 0 && Holds(s.mem, e.cap, e.width, e.height) && |s.stack| == MAX_SURFACES
    ensures ReplyTo(s, e).Err? ==> ReplyTo(s, e).reason in {ERR_MALFORMED, ERR_BUFFER, ERR_FULL}
  {
  }

  /** And to refuse anything else: no such surface of that client's, a bad buffer, or damage that misses the surface. */
  lemma OtherRefusals(s: Sys, e: Event)
    requires Shape(s) && (e.Commit? || e.Raise? || e.Destroy?)
    ensures ReplyTo(s, e) == Err(ERR_NO_SURFACE) <==> NamesNone(s.stack, e.client, e.id)
    ensures !e.Commit? ==> ReplyTo(s, e).Ok? || ReplyTo(s, e) == Err(ERR_NO_SURFACE)
    ensures e.Commit? ==> forall i: nat :: Names(s.stack, e.client, e.id, i) ==>
      var t := s.stack[i];
      var good := e.cap == 0 || Holds(s.mem, e.cap, t.width, t.height);
      var meets := e.dx < t.width && e.dy < t.height && e.dw > 0 && e.dh > 0;
      && (ReplyTo(s, e) == Err(ERR_BUFFER) <==> !good)
      && (ReplyTo(s, e) == Err(ERR_MALFORMED) <==> good && !meets)
      && (ReplyTo(s, e).Ok? <==> good && meets)
  {
    forall i: nat | Names(s.stack, e.client, e.id, i) ensures IndexOf(s.stack, e.client, e.id) == Some(i) {
      FindsTheOne(s, e.client, e.id, i);
    }
    var r := IndexOf(s.stack, e.client, e.id);
    assert r.Some? ==> Names(s.stack, e.client, e.id, r.value);
  }

  // ---- What is declared ----

  /** Pixel `p` is in the damaged part of the surface. */
  predicate Damaged(t: Surface, e: Event, p: Point)
    requires e.Commit?
  {
    && Covers(t, p)
    && t.x + e.dx <= p.x < t.x + e.dx + e.dw && t.y + e.dy <= p.y < t.y + e.dy + e.dh
  }

  /**
   * A granted commit declares what it damaged, all of it. It declares more only for a surface so far
   * out that the damage begins past 2^64, and then nothing of the surface was on screen there.
   */
  lemma CommitDeclares(s: Sys, e: Event, i: nat, p: Point)
    requires Shape(s) && ValidEvent(s, e) && e.Commit? && ReplyTo(s, e).Ok? && Names(s.stack, e.client, e.id, i)
    requires s.g.OnScreen(p)
    ensures Damaged(s.stack[i], e, p) ==> InStale(Declared(s, e), p)
    ensures InStale(Declared(s, e), p) && s.stack[i].x + e.dx < TWO_64 && s.stack[i].y + e.dy < TWO_64 ==>
      Damaged(s.stack[i], e, p)
  {
    FindsTheOne(s, e.client, e.id, i);
    ClipExact(DamageRect(s.stack[i], e.dx, e.dy, e.dw, e.dh), s.g.width, s.g.height);
  }

  /** A surface raised or destroyed is declared, all of it that is on screen, and nothing else. */
  lemma EditDeclares(s: Sys, e: Event, i: nat, p: Point)
    requires Shape(s) && (e.Raise? || e.Destroy?) && Names(s.stack, e.client, e.id, i) && s.g.OnScreen(p)
    ensures InStale(Declared(s, e), p) <==> Covers(s.stack[i], p)
  {
    FindsTheOne(s, e.client, e.id, i);
    ClipExact(SurfaceRect(s.stack[i]), s.g.width, s.g.height);
  }

  /** The opening paint declares the whole screen; a create and a client's own write declare nothing. */
  lemma PaintDeclares(s: Sys, e: Event, p: Point)
    requires s.g.OnScreen(p)
    ensures e.Repaint? ==> InStale(Declared(s, e), p)
    ensures e.Create? || e.ClientWrite? ==> Declared(s, e).None?
  {
  }

  /** All of a client's surfaces lie where additions do not wrap. */
  ghost predicate NoneWraps(stack: seq<Surface>, owner: nat)
  {
    forall i :: 0 <= i < |stack| && stack[i].owner == owner ==>
      stack[i].x + stack[i].width < TWO_64 && stack[i].y + stack[i].height < TWO_64
  }

  ghost predicate Encloses(r: Rect, stack: seq<Surface>, owner: nat)
  {
    forall i :: 0 <= i < |stack| && stack[i].owner == owner ==>
      && r.x <= stack[i].x && stack[i].x + stack[i].width <= r.x + r.w
      && r.y <= stack[i].y && stack[i].y + stack[i].height <= r.y + r.h
  }

  /** The bounds, rectangle by rectangle: inside everything that encloses the client's surfaces. */
  lemma {:induction false} OwnerBoundsLeast(stack: seq<Surface>, owner: nat, r: Rect)
    requires NoneWraps(stack, owner)
    ensures OwnerBounds(stack, owner).None? <==> forall i :: 0 <= i < |stack| ==> stack[i].owner != owner
    ensures match OwnerBounds(stack, owner)
      case None => true
      case Some(b) =>
        && b.x0 <= b.x1 && b.y0 <= b.y1 && Encloses(BoundsRect(b), stack, owner)
        && (Encloses(r, stack, owner) ==> r.x <= b.x0 && b.x1 <= r.x + r.w && r.y <= b.y0 && b.y1 <= r.y + r.h)
    decreases |stack|
  {
    if stack != [] {
      var top := |stack| - 1;
      OwnerBoundsLeast(stack[..top], owner, r);
      assert Encloses(r, stack, owner) ==> Encloses(r, stack[..top], owner);
      assert forall i :: 0 <= i < top ==> stack[..top][i] == stack[i];
    }
  }

  /** So reaping declares the least rectangle around what is gone, as far as it is on screen. */
  lemma ReapDeclares(s: Sys, e: Event, r: Rect)
    requires Shape(s) && e.Reap? && NoneWraps(s.stack, e.client) && Encloses(r, s.stack, e.client)
    ensures forall i, p: Point ::
      (0 <= i < |s.stack| && s.stack[i].owner == e.client && Covers(s.stack[i], p) && s.g.OnScreen(p) ==>
         InStale(Declared(s, e), p))
    ensures forall p: Point :: InStale(Declared(s, e), p) ==> r.Has(p) && s.g.OnScreen(p)
    ensures (forall i :: 0 <= i < |s.stack| ==> s.stack[i].owner != e.client) ==> Declared(s, e).None?
  {
    OwnerBoundsLeast(s.stack, e.client, r);
    match OwnerBounds(s.stack, e.client) {
      case None =>
      case Some(b) => ClipExact(BoundsRect(b), s.g.width, s.g.height);
    }
  }

  // ---- How much is declared ----

  function PixelsIn(r: Rect): (pixels: set<Point>)
    ensures forall p: Point :: p in pixels <==> r.Has(p)
  {
    set x: nat, y: nat | r.x <= x < r.x + r.w && r.y <= y < r.y + r.h :: Point(x, y)
  }

  lemma {:induction false} RowCount(x: nat, y: nat, w: nat)
    ensures |PixelsIn(Rect(x, y, w, 1))| == w
  {
    if w > 0 {
      RowCount(x, y, w - 1);
      assert PixelsIn(Rect(x, y, w, 1)) == PixelsIn(Rect(x, y, w - 1, 1)) + {Point(x + w - 1, y)};
    }
  }

  lemma CountBoth(all: set<Point>, a: set<Point>, b: set<Point>)
    requires a !! b && forall p :: p in all <==> p in a || p in b
    ensures |all| == |a| + |b|
  {
    assert all == a + b;
  }

  lemma LastRow(x: nat, y: nat, w: nat, h: nat)
    ensures |PixelsIn(Rect(x, y, w, h + 1))| == |PixelsIn(Rect(x, y, w, h))| + w
  {
    RowCount(x, y + h, w);
    CountBoth(PixelsIn(Rect(x, y, w, h + 1)), PixelsIn(Rect(x, y, w, h)), PixelsIn(Rect(x, y + h, w, 1)));
  }

  lemma {:induction false} RectCount(x: nat, y: nat, w: nat, h: nat)
    ensures |PixelsIn(Rect(x, y, w, h))| == w * h
  {
    if h == 0 {
      assert PixelsIn(Rect(x, y, w, 0)) == {};
    } else {
      RectCount(x, y, w, h - 1);
      LastRow(x, y, w, h - 1);
      assert w * h == w * (h - 1) + w;
    }
  }

  /** The pixels of the screen in the rectangle a step composites. */
  ghost function DeclaredPixels(s: Sys, e: Event): (pixels: set<Point>)
    ensures forall p: Point :: p in pixels <==> InStale(Declared(s, e), p)
  {
    match Declared(s, e)
    case None => {}
    case Some(r) => PixelsIn(r)
  }

  /** The number a client is told is the number of pixels of the screen that were composited for it. */
  lemma ReplyCountsPixels(s: Sys, e: Event)
    requires ReplyTo(s, e).Ok? && !e.Create?
    ensures ReplyTo(s, e).value == |DeclaredPixels(s, e)|
  {
    match Declared(s, e) {
      case None =>
      case Some(r) => RectCount(r.x, r.y, r.w, r.h);
    }
  }
}
