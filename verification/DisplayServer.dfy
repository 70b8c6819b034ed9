/**
 * services/displaysrv/main.rs: `composite` and the requests built on it. Each request is proved to be
 * a step of the transition system of `DisplayRuns`, answer included, so what that module proves of
 * every run holds of this code.
 */
module DisplayServer {
  import opened Common
  import opened Surfaces
  import opened DisplayRuns
  import opened Display

  ghost predicate Valid(c: Compositor, s: Screen)
    reads c, s, s.base, s.stale
  {
    && c.Valid() && s.Valid()
    && c.surfaces as object != s.base && c.surfaces as object != s.stale
  }

  ghost function State(c: Compositor, s: Screen, mem: Shared): Sys
    requires Valid(c, s)
    reads c, c.surfaces, s, s.base, s.stale
  {
    Sys(s.g, s.base[..], s.stale[..], s.back, s.shown, c.Stack(), c.nextId, mem)
  }

  /** The kernel answers a flip only for a process holding the scanout capability. */
  function Flips(s: Screen, flip: bool): bool
  {
    s.scanout != 0 && flip
  }

  /** What `composite` leaves behind, from the state it was called in. */
  ghost predicate Outcome(before: Sys, rect: Rect, flip: bool, after: Sys, damaged: nat)
    requires ScreenShape(before) && AllBacked(before.stack, before.mem)
  {
    && after.g == before.g && after.stack == before.stack && after.nextId == before.nextId
    && after.mem == before.mem
    && damaged == Area(Clip(rect, before.g.width, before.g.height))
    && match Clip(rect, before.g.width, before.g.height)
       case None => after == before
       case Some(r) => Composited(before, r, flip, before.stack, before.mem, after)
  }

  /** The inner paint loop: one row of a rectangle of the back buffer. */
  method PaintRow(c: Compositor, s: Screen, mem: Shared, r: Rect, sy: nat, ghost was: Words)
    requires Valid(c, s) && AllBacked(c.Stack(), mem) && Within(r, s.g.width, s.g.height)
    requires r.y <= sy < r.y + r.h && |was| == s.g.Bytes()
    requires PaintedTo(s.g, was, s.base[..], s.back, r, c.Stack(), mem, r.x, sy)
    modifies s.base
    ensures Valid(c, s) && c.Stack() == old(c.Stack()) && s.stale[..] == old(s.stale[..])
    ensures PaintedTo(s.g, was, s.base[..], s.back, r, c.Stack(), mem, r.x + r.w, sy)
  {
    ghost var stack := c.Stack();
    var sx := r.x;
    while sx < r.x + r.w
      invariant r.x <= sx <= r.x + r.w
      invariant Valid(c, s) && c.Stack() == stack && s.stale[..] == old(s.stale[..])
      invariant PaintedTo(s.g, was, s.base[..], s.back, r, stack, mem, sx, sy)
    {
      var colour := c.ColourAt(mem, Point(sx, sy));
      PaintOne(s.g, was, s.base[..], s.back, r, stack, mem, sx, sy);
      s.Put(Point(sx, sy), colour);
      sx := sx + 1;
    }
  }

  /** The outer paint loop over one rectangle of the back buffer. */
  method Paint(c: Compositor, s: Screen, mem: Shared, r: Rect)
    requires Valid(c, s) && AllBacked(c.Stack(), mem) && Within(r, s.g.width, s.g.height)
    modifies s.base
    ensures Valid(c, s) && c.Stack() == old(c.Stack()) && s.stale[..] == old(s.stale[..])
    ensures PaintedTo(s.g, old(s.base[..]), s.base[..], s.back, r, c.Stack(), mem, 0, r.y + r.h)
  {
    ghost var was := s.base[..];
    ghost var stack := c.Stack();
    var sy := r.y;
    while sy < r.y + r.h
      invariant r.y <= sy <= r.y + r.h
      invariant Valid(c, s) && c.Stack() == stack && s.stale[..] == old(s.stale[..])
      invariant PaintedTo(s.g, was, s.base[..], s.back, r, stack, mem, 0, sy)
    {
      RowDone(s.g, was, s.base[..], s.back, r, stack, mem, sy);
      PaintRow(c, s, mem, r, sy, was);
      RowDone(s.g, was, s.base[..], s.back, r, stack, mem, sy);
      sy := sy + 1;
    }
  }

  /** The whole of a composite: the new state is the one `Composited` describes. */
  method Composite(c: Compositor, s: Screen, mem: Shared, rect: Rect, flip: bool) returns (damaged: nat)
    requires Valid(c, s) && AllBacked(c.Stack(), mem)
    modifies s, s.base, s.stale
    ensures Valid(c, s)
    ensures Outcome(old(State(c, s, mem)), rect, Flips(s, flip), State(c, s, mem), damaged)
  {
    ghost var before := State(c, s, mem);
    var clipped := Clip(rect, s.g.width, s.g.height);
    if clipped.None? {
      return 0;
    }
    var r := clipped.value;
    damaged := r.w * r.h;
    var widened := s.Damage(r);
    // Clipping the widened rectangle cannot refuse it: staleness never leaves the screen.
    var repaint := Clip(widened, s.g.width, s.g.height);
    assert repaint == Some(widened);
    Paint(c, s, mem, repaint.value);
    s.Present(flip);
    assert Composited(before, r, Flips(s, flip), before.stack, mem, State(c, s, mem));
  }

  /** A stack edit followed by compositing what it declared is a step. */
  lemma EditThenComposite(before: Sys, e: Event, edited: Sys, rect: Rect, after: Sys, damaged: nat)
    requires Shape(before) && ValidEvent(before, e) && !e.Create? && !e.ClientWrite?
    requires edited == before.(stack := StackAfter(before, e))
    requires |edited.stack| <= |before.stack| && AllBacked(edited.stack, edited.mem)
    requires Damage(before, e) == Some(rect)
    requires Outcome(edited, rect, FlipOf(e), after, damaged)
    ensures Next(before, e, after) && damaged == DeclaredArea(before, e)
  {
  }

  // ---- Requests ----

  method CreateSurface(c: Compositor, s: Screen, mem: Shared, e: Event) returns (reply: Reply)
    requires Valid(c, s) && Shape(State(c, s, mem)) && e.Create?
    modifies c, c.surfaces
    ensures Valid(c, s) && Next(old(State(c, s, mem)), e, State(c, s, mem))
    ensures reply == ReplyTo(old(State(c, s, mem)), e)
  {
    if e.width == 0 || e.height == 0 {
      return Err(ERR_MALFORMED);
    }
    var pixels := AcceptBuffer(mem, e.cap, e.width, e.height);
    if pixels.Err? {
      return pixels;
    }
    var id := c.Add(e.client, pixels.value, e.width, e.height, e.x, e.y);
    return if id.None? then Err(ERR_FULL) else Ok(id.value);
  }

  /** The buffer is swapped in before the damage is looked at, so a refused rectangle still swaps. */
  method CommitSurface(c: Compositor, s: Screen, mem: Shared, e: Event, flip: bool) returns (reply: Reply)
    requires Valid(c, s) && Shape(State(c, s, mem)) && e.Commit? && ValidEvent(State(c, s, mem), e)
    requires e.flip == Flips(s, flip)
    modifies c.surfaces, s, s.base, s.stale
    ensures Valid(c, s) && Next(old(State(c, s, mem)), e, State(c, s, mem))
    ensures reply == ReplyTo(old(State(c, s, mem)), e)
  {
    ghost var before := State(c, s, mem);
    var index := c.IndexOf(e.client, e.id);
    if index.None? {
      return Err(ERR_NO_SURFACE);
    }
    var i := index.value;
    if e.cap != 0 {
      var pixels := AcceptBuffer(mem, e.cap, c.surfaces[i].width, c.surfaces[i].height);
      if pixels.Err? {
        return pixels;
      }
      c.surfaces[i] := c.surfaces[i].(pixels := pixels.value);
      assert c.Stack() == before.stack[i := c.surfaces[i]];
    }
    StackStaysBacked(before, e);
    assert c.Stack() == StackAfter(before, e);
    var surface := c.surfaces[i];
    if e.dx >= surface.width || e.dy >= surface.height || e.dw == 0 || e.dh == 0 {
      return Err(ERR_MALFORMED);
    }
    ghost var edited := State(c, s, mem);
    assert edited.stack == StackAfter(before, e);
    var painted := Composite(c, s, mem, DamageRect(surface, e.dx, e.dy, e.dw, e.dh), flip);
    EditThenComposite(before, e, edited, DamageRect(surface, e.dx, e.dy, e.dw, e.dh), State(c, s, mem), painted);
    return Ok(painted);
  }

  method RaiseSurface(c: Compositor, s: Screen, mem: Shared, e: Event, flip: bool) returns (reply: Reply)
    requires Valid(c, s) && Shape(State(c, s, mem)) && e.Raise? && e.flip == Flips(s, flip)
    modifies c.surfaces, s, s.base, s.stale
    ensures Valid(c, s) && Next(old(State(c, s, mem)), e, State(c, s, mem))
    ensures reply == ReplyTo(old(State(c, s, mem)), e)
  {
    ghost var before := State(c, s, mem);
    var index := c.IndexOf(e.client, e.id);
    if index.None? {
      return Err(ERR_NO_SURFACE);
    }
    c.Raise(index.value);
    StackStaysBacked(before, e);
    var surface := c.surfaces[c.count - 1];
    ghost var edited := State(c, s, mem);
    assert edited.stack == StackAfter(before, e);
    var painted := Composite(c, s, mem, SurfaceRect(surface), flip);
    EditThenComposite(before, e, edited, SurfaceRect(surface), State(c, s, mem), painted);
    return Ok(painted);
  }

  method DestroySurface(c: Compositor, s: Screen, mem: Shared, e: Event, flip: bool) returns (reply: Reply)
    requires Valid(c, s) && Shape(State(c, s, mem)) && e.Destroy? && e.flip == Flips(s, flip)
    modifies c, c.surfaces, s, s.base, s.stale
    ensures Valid(c, s) && Next(old(State(c, s, mem)), e, State(c, s, mem))
    ensures reply == ReplyTo(old(State(c, s, mem)), e)
  {
    ghost var before := State(c, s, mem);
    var index := c.IndexOf(e.client, e.id);
    if index.None? {
      return Err(ERR_NO_SURFACE);
    }
    var surface := c.surfaces[index.value];
    c.Remove(index.value);
    StackStaysBacked(before, e);
    ghost var edited := State(c, s, mem);
    assert edited.stack == StackAfter(before, e);
    var painted := Composite(c, s, mem, SurfaceRect(surface), flip);
    EditThenComposite(before, e, edited, SurfaceRect(surface), State(c, s, mem), painted);
    return Ok(painted);
  }

  /** What the server does about a client that died. */
  method ReapClient(c: Compositor, s: Screen, mem: Shared, e: Event, flip: bool) returns (painted: nat)
    requires Valid(c, s) && Shape(State(c, s, mem)) && e.Reap? && e.flip == Flips(s, flip)
    modifies c, c.surfaces, s, s.base, s.stale
    ensures Valid(c, s) && Next(old(State(c, s, mem)), e, State(c, s, mem))
    ensures painted == DeclaredArea(old(State(c, s, mem)), e)
  {
    ghost var before := State(c, s, mem);
    var rect := c.RemoveOwner(e.client);
    StackStaysBacked(before, e);
    OthersSubsequence(before.stack, e.client, before.nextId);
    painted := 0;
    if rect.Some? {
      ghost var edited := State(c, s, mem);
      painted := Composite(c, s, mem, rect.value, flip);
      EditThenComposite(before, e, edited, rect.value, State(c, s, mem), painted);
    }
  }
}
