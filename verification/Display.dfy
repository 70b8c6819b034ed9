/**
 * services/displaysrv/main.rs: the server's own data structures, updated in place, each operation
 * proved to be the step of `DisplayRuns` it stands for.
 */
module Display {
  import opened Common
  import opened Surfaces
  import opened DisplayRuns

  /** Accepts exactly the seeds every other result here can rely on. */
  function SeedGeometry(base: nat, width: nat, height: nat, stride: nat, buffers: nat): (r: Option<Geometry>)
    requires width < TWO_32 && height < TWO_32 && stride < TWO_32
    ensures r.Some? <==> base != 0 && Geometry(width, height, stride, 1).Valid()
    ensures r.Some? ==> r.value == Geometry(width, height, stride, if buffers >= 2 then 2 else 1) && r.value.Valid()
  {
    if base == 0 || width == 0 || height == 0 || stride < width * BPP then None
    else Some(Geometry(width, height, stride, Max(1, Min(buffers, MAX_BUFFERS))))
  }

  /** One pixel written: that pixel of that buffer changes and no other. */
  lemma PutChangesOnePixel(g: Geometry, fb: Words, b: nat, p: Point, c: Colour, b': nat, q: Point)
    requires g.Valid() && |fb| == g.Bytes() && b < g.buffers && g.OnScreen(p)
    requires b' < g.buffers && g.OnScreen(q)
    ensures g.Offset(b, p) < |fb|
    ensures Pixel(g, fb[g.Offset(b, p) := c], b', q) == if b' == b && q == p then c else Pixel(g, fb, b', q)
  {
    OffsetInBounds(g, b, p);
    OffsetInBounds(g, b', q);
    if b' != b || q != p {
      OffsetsDisjoint(g, b, p, b', q);
    }
  }

  /** The paint loops, stopped at (x, y): rows above are done, and row `y` is done left of `x`. */
  ghost predicate PaintedTo(g: Geometry, was: Words, now: Words, back: nat, r: Rect,
                            stack: seq<Surface>, mem: Shared, x: nat, y: nat)
    requires g.Valid() && |was| == g.Bytes() && AllBacked(stack, mem)
  {
    && |now| == |was|
    && forall b: nat, p: Point :: b < g.buffers && g.OnScreen(p) ==>
         Pixel(g, now, b, p) ==
           if b == back && r.Has(p) && (p.y < y || (p.y == y && p.x < x))
           then Render(stack, mem, p) else Pixel(g, was, b, p)
  }

  lemma PaintOne(g: Geometry, was: Words, now: Words, back: nat, r: Rect,
                 stack: seq<Surface>, mem: Shared, x: nat, y: nat)
    requires g.Valid() && |was| == g.Bytes() && AllBacked(stack, mem) && back < g.buffers
    requires Within(r, g.width, g.height) && r.Has(Point(x, y))
    requires PaintedTo(g, was, now, back, r, stack, mem, x, y)
    ensures g.Offset(back, Point(x, y)) < |now|
    ensures PaintedTo(g, was, now[g.Offset(back, Point(x, y)) := Render(stack, mem, Point(x, y))],
                      back, r, stack, mem, x + 1, y)
  {
    var c := Render(stack, mem, Point(x, y));
    OffsetInBounds(g, back, Point(x, y));
    var after := now[g.Offset(back, Point(x, y)) := c];
    forall b: nat, p: Point | b < g.buffers && g.OnScreen(p)
      ensures Pixel(g, after, b, p) ==
           if b == back && r.Has(p) && (p.y < y || (p.y == y && p.x < x + 1))
           then Render(stack, mem, p) else Pixel(g, was, b, p)
    {
      PutChangesOnePixel(g, now, back, Point(x, y), c, b, p);
    }
  }

  /** A finished row, seen from the start of the next; and a row not yet begun. */
  lemma RowDone(g: Geometry, was: Words, now: Words, back: nat, r: Rect, stack: seq<Surface>, mem: Shared, y: nat)
    requires g.Valid() && |was| == g.Bytes() && AllBacked(stack, mem)
    ensures PaintedTo(g, was, now, back, r, stack, mem, r.x + r.w, y)
        ==> PaintedTo(g, was, now, back, r, stack, mem, 0, y + 1)
    ensures PaintedTo(g, was, now, back, r, stack, mem, 0, y)
        ==> PaintedTo(g, was, now, back, r, stack, mem, r.x, y)
  {
  }

  /** The sweep of `remove_owner` after `seen` surfaces: `i` of them kept, the rest of the stack untouched. */
  ghost predicate Swept(stack: seq<Surface>, i: nat, was: seq<Surface>, seen: nat, owner: nat, bounds: Option<Bounds>)
  {
    && i <= |stack| && seen <= |was|
    && stack[..i] == Others(was[..seen], owner)
    && stack[i..] == was[seen..]
    && bounds == OwnerBounds(was[..seen], owner)
  }

  lemma SweepOne(stack: seq<Surface>, i: nat, was: seq<Surface>, seen: nat, owner: nat, bounds: Option<Bounds>)
    requires Swept(stack, i, was, seen, owner, bounds) && i < |stack|
    ensures stack[i].owner != owner ==> Swept(stack, i + 1, was, seen + 1, owner, bounds)
    ensures stack[i].owner == owner ==>
      Swept(Without(stack, i), i, was, seen + 1, owner, Grow(bounds, stack[i]))
  {
    assert stack[i] == stack[i..][0] == was[seen];
    assert was[..seen + 1][..seen] == was[..seen];
    assert stack[i..][1..] == stack[i + 1..] && was[seen..][1..] == was[seen + 1..];
    if stack[i].owner == owner {
      var rest := Without(stack, i);
      assert rest[..i] == stack[..i] && rest[i..] == stack[i + 1..];
    } else {
      assert stack[..i + 1] == stack[..i] + [stack[i]];
    }
  }

  class Screen {
    const g: Geometry
    const base: array<Colour>
    const stale: array<Option<Rect>>
    const scanout: nat
    var back: nat
    var flips: nat
    var flipsRefused: nat
    /** Which buffer the display is reading. Known to the kernel, not to this process. */
    ghost var shown: nat

    ghost predicate Valid()
      reads this, base, stale
    {
      && g.Valid() && base.Length == g.Bytes() && stale.Length == MAX_BUFFERS
      && back < g.buffers && shown < g.buffers
      && (forall b :: 0 <= b < g.buffers && stale[b].Some? ==> Within(stale[b].value, g.width, g.height))
      && (g.buffers == 2 ==> back != shown)
    }

    constructor (geometry: Geometry, pixels: array<Colour>, handle: nat)
      requires geometry.Valid() && pixels.Length == geometry.Bytes()
      ensures Valid() && fresh(stale) && base == pixels && g == geometry && scanout == handle
      ensures stale[..] == [Some(Rect(0, 0, g.width, g.height)), Some(Rect(0, 0, g.width, g.height))]
      ensures back == (if g.buffers > 1 then 1 else 0) && shown == 0
    {
      g := geometry;
      base := pixels;
      scanout := handle;
      stale := new Option<Rect>[MAX_BUFFERS](_ => Some(Rect(0, 0, geometry.width, geometry.height)));
      back := if geometry.buffers > 1 then 1 else 0;
      flips, flipsRefused := 0, 0;
      shown := 0;
    }

    /** At most one word changes, and none for a position off the screen. */
    method Put(p: Point, colour: Colour)
      requires Valid()
      modifies base
      ensures Valid()
      ensures g.OnScreen(p) ==>
        g.Offset(back, p) < base.Length && base[..] == old(base[..])[g.Offset(back, p) := colour]
      ensures !g.OnScreen(p) ==> base[..] == old(base[..])
    {
      if p.x >= g.width || p.y >= g.height {
        return;
      }
      OffsetInBounds(g, back, p);
      base[g.Offset(back, p)] := colour;
    }

    /** Adds `rect` to what the other buffers miss, and answers with all that the back one misses. */
    method Damage(rect: Rect) returns (repaint: Rect)
      requires Valid() && Within(rect, g.width, g.height)
      modifies stale
      ensures Valid()
      ensures repaint == FallBehind(old(stale[back]), rect) && Within(repaint, g.width, g.height)
      ensures forall b :: 0 <= b < g.buffers ==>
        stale[b] == if b == back then None else Some(FallBehind(old(stale[b]), rect))
    {
      for i := 0 to g.buffers
        invariant forall b :: 0 <= b < i ==> stale[b] == Some(FallBehind(old(stale[b]), rect))
        invariant forall b :: i <= b < stale.Length ==> stale[b] == old(stale[b])
        invariant forall b :: 0 <= b < g.buffers && stale[b].Some? ==> Within(stale[b].value, g.width, g.height)
      {
        stale[i] := Some(FallBehind(stale[i], rect));
      }
      repaint := if stale[back].Some? then stale[back].value else rect;
      stale[back] := None;
    }

    /** The two buffers trade places, or nothing happens. `flip` is the kernel's answer. */
    method Present(flip: bool)
      requires Valid()
      modifies this
      ensures Valid()
      ensures if g.buffers == 2 && scanout != 0 && flip
              then shown == old(back) && back == (old(back) + 1) % 2 && flips == old(flips) + 1
              else shown == old(shown) && back == old(back) && flips == old(flips)
    {
      if g.buffers < 2 || scanout == 0 {
        return;
      }
      if !flip {
        flipsRefused := flipsRefused + 1;
        return;
      }
      flips := flips + 1;
      shown := back;
      back := (back + 1) % g.buffers;
    }
  }

  class Compositor {
    const surfaces: array<Surface>
    var count: nat
    var nextId: nat

    ghost predicate Valid()
      reads this
    {
      surfaces.Length == MAX_SURFACES && count <= MAX_SURFACES
    }

    ghost function Stack(): seq<Surface>
      requires Valid()
      reads this, surfaces
    {
      surfaces[..count]
    }

    constructor ()
      ensures Valid() && fresh(surfaces) && Stack() == [] && nextId == 1
    {
      surfaces := new Surface[MAX_SURFACES](_ => Surface(0, 0, 0, 0, 0, 0, 0));
      count := 0;
      nextId := 1;
    }

    method IndexOf(owner: nat, id: nat) returns (r: Option<nat>)
      requires Valid()
      ensures r == DisplayRuns.IndexOf(Stack(), owner, id)
    {
      ghost var stack := Stack();
      var i := 0;
      while i < count
        invariant i <= count
        invariant IndexFrom(stack, owner, id, i) == DisplayRuns.IndexOf(stack, owner, id)
      {
        if surfaces[i].id == id && surfaces[i].owner == owner {
          return Some(i);
        }
        i := i + 1;
      }
      return None;
    }

    method Add(owner: nat, pixels: nat, width: U64, height: U64, x: U64, y: U64) returns (r: Option<nat>)
      requires Valid()
      modifies this, surfaces
      ensures Valid()
      ensures old(count) == MAX_SURFACES ==> r == None && Stack() == old(Stack()) && nextId == old(nextId)
      ensures old(count) < MAX_SURFACES ==>
        && r == Some(old(nextId)) && nextId == old(nextId) + 1
        && Stack() == old(Stack()) + [Surface(old(nextId), owner, pixels, width, height, x, y)]
    {
      if count == MAX_SURFACES {
        return None;
      }
      var id := nextId;
      nextId := nextId + 1;
      surfaces[count] := Surface(id, owner, pixels, width, height, x, y);
      count := count + 1;
      return Some(id);
    }

    /** `copy_within(index + 1..count, index)` */
    method CloseGap(index: nat)
      requires Valid() && index < count
      modifies surfaces
      ensures surfaces[..count - 1] == old(Without(Stack(), index))
    {
      forall j | index <= j < count - 1 {
        surfaces[j] := surfaces[j + 1];
      }
    }

    /** In place, the stack with one surface moved last. */
    method Raise(index: nat)
      requires Valid() && index < count
      modifies surfaces
      ensures Stack() == Raised(old(Stack()), index)
    {
      var surface := surfaces[index];
      CloseGap(index);
      surfaces[count - 1] := surface;
    }

    /** In place, the stack without one surface. */
    method Remove(index: nat)
      requires Valid() && index < count
      modifies this`count, surfaces
      ensures Valid() && Stack() == Without(old(Stack()), index) && count == old(count) - 1
    {
      CloseGap(index);
      count := count - 1;
    }

    /** Take every surface of `owner` off the stack; the answer bounds what has to be repainted. */
    method RemoveOwner(owner: nat) returns (rect: Option<Rect>)
      requires Valid()
      modifies this`count, surfaces
      ensures Valid() && Stack() == Others(old(Stack()), owner)
      ensures match OwnerBounds(old(Stack()), owner)
        case None => rect == None
        case Some(b) => rect == Some(BoundsRect(b))
    {
      ghost var was := Stack();
      ghost var seen := 0;
      var bounds: Option<Bounds> := None;
      var i := 0;
      while i < count
        invariant Valid() && Swept(Stack(), i, was, seen, owner, bounds)
        decreases count - i
      {
        SweepOne(Stack(), i, was, seen, owner, bounds);
        if surfaces[i].owner != owner {
          i := i + 1;
        } else {
          bounds := Grow(bounds, surfaces[i]);
          Remove(i);
        }
        seen := seen + 1;
      }
      assert was[..seen] == was && Stack()[..i] == Stack();
      match bounds {
        case None => rect := None;
        case Some(b) => rect := Some(BoundsRect(b));
      }
    }

    /** The topmost surface covering a position, scanning from the top down. */
    method TopmostAt(p: Point) returns (r: Option<nat>)
      requires Valid()
      ensures IsTopmost(Stack(), p, r)
    {
      ghost var stack := Stack();
      var i: int := count;
      while i > 0
        invariant 0 <= i <= count
        invariant forall j :: i <= j < |stack| ==> !Covers(stack[j], p)
      {
        i := i - 1;
        if Covers(surfaces[i], p) {
          return Some(i);
        }
      }
      return None;
    }

    /** The bottom-up loop ends with the rendered colour. */
    method ColourAt(mem: Shared, p: Point) returns (colour: Colour)
      requires Valid() && AllBacked(Stack(), mem)
      ensures colour == Render(Stack(), mem, p)
    {
      ghost var stack := Stack();
      colour := BACKGROUND;
      var i := 0;
      while i < count
        invariant i <= count && colour == Render(stack[..i], mem, p)
      {
        assert stack[..i + 1][..i] == stack[..i];
        var pixel := At(surfaces[i], mem, p);
        if pixel.Some? {
          colour := pixel.value;
        }
        i := i + 1;
      }
      assert stack[..i] == stack;
    }
  }
}
