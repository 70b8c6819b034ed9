/**
 * services/displaysrv/main.rs: rectangles, client surfaces, and what a stack of them looks like.
 */
module Surfaces {
  import opened Common

  datatype Point = Point(x: nat, y: nat)

  datatype Rect = Rect(x: nat, y: nat, w: nat, h: nat)
  {
    predicate Has(p: Point)
    {
      x <= p.x < x + w && y <= p.y < y + h
    }
  }

  /** The smallest rectangle covering both. */
  function Union(a: Rect, b: Rect): Rect
  {
    var x := Min(a.x, b.x);
    var y := Min(a.y, b.y);
    Rect(x, y, Max(a.x + a.w, b.x + b.w) - x, Max(a.y + a.h, b.y + b.h) - y)
  }

  /** The on-screen part of a rectangle, if it has one. */
  function Clip(r: Rect, width: nat, height: nat): Option<Rect>
  {
    if r.x >= width || r.y >= height || r.w == 0 || r.h == 0 then None
    else Some(Rect(r.x, r.y, Min(r.w, width - r.x), Min(r.h, height - r.y)))
  }

  /** A non-empty rectangle inside the screen: what clipping returns and what it leaves alone. */
  predicate Within(r: Rect, width: nat, height: nat)
  {
    0 < r.w && 0 < r.h && r.x + r.w <= width && r.y + r.h <= height
  }

  /** Clipping keeps exactly the pixels that are on the screen, and is the identity inside it. */
  lemma ClipExact(r: Rect, width: nat, height: nat)
    ensures match Clip(r, width, height)
      case None => forall p: Point :: r.Has(p) ==> !(p.x < width && p.y < height)
      case Some(c) =>
        && Within(c, width, height)
        && forall p: Point :: c.Has(p) <==> r.Has(p) && p.x < width && p.y < height
    ensures Within(r, width, height) ==> Clip(r, width, height) == Some(r)
  {
  }

  /** The union covers both, stays on the screen, and nothing smaller covers both. */
  lemma UnionLeast(a: Rect, b: Rect, c: Rect, width: nat, height: nat)
    requires Within(a, width, height) && Within(b, width, height)
    ensures Within(Union(a, b), width, height)
    ensures forall p: Point :: a.Has(p) || b.Has(p) ==> Union(a, b).Has(p)
    ensures (forall p: Point :: a.Has(p) || b.Has(p) ==> c.Has(p))
         ==> (forall p: Point :: Union(a, b).Has(p) ==> c.Has(p))
  {
    var u := Union(a, b);
    if forall p: Point :: a.Has(p) || b.Has(p) ==> c.Has(p) {
      assert a.Has(Point(a.x, a.y)) && b.Has(Point(b.x, b.y));
      assert a.Has(Point(a.x + a.w - 1, a.y + a.h - 1)) && b.Has(Point(b.x + b.w - 1, b.y + b.h - 1));
    }
  }

  // ---- Surfaces ----

  type Colour = c: nat | c < 0x1_0000_0000

  const BACKGROUND: Colour := 0x0010_2030

  /** Every shared buffer mapped here, by handle: the client's own pages, which it may write at any time. */
  type Shared = map<nat, seq<Colour>>

  datatype Surface = Surface(id: nat, owner: nat, pixels: nat, width: U64, height: U64, x: U64, y: U64)

  /** More pixels than any buffer mapped into a 48-bit address space can hold. */
  const BUFFER_LIMIT: nat := 0x1_0000_0000_0000

  ghost predicate ValidShared(mem: Shared)
  {
    forall b :: b in mem ==> |mem[b]| < BUFFER_LIMIT
  }

  /** What `Create` and `Commit` establish through `accept_buffer`. */
  predicate Backed(s: Surface, mem: Shared)
  {
    && 0 < s.width && 0 < s.height
    && s.pixels in mem && s.width * s.height <= |mem[s.pixels]|
  }

  predicate Covers(s: Surface, p: Point)
  {
    s.x <= p.x < s.x + s.width && s.y <= p.y < s.y + s.height
  }

  lemma PixelInBuffer(row: nat, col: nat, width: nat, height: nat)
    requires col < width && row < height
    ensures 0 <= row * width + col < width * height
  {
    assert row * width <= (height - 1) * width;
    assert (height - 1) * width == width * height - width;
  }

  /** The pixel a surface contributes at `p`: one exactly where it covers `p`. */
  function At(s: Surface, mem: Shared, p: Point): (r: Option<Colour>)
    requires Backed(s, mem)
    ensures r.Some? <==> Covers(s, p)
  {
    if p.x < s.x || p.y < s.y then None
    else
      var (col, row) := (p.x - s.x, p.y - s.y);
      if col >= s.width || row >= s.height then None
      else
        PixelInBuffer(row, col, s.width, s.height);
        Some(mem[s.pixels][row * s.width + col])
  }

  predicate AllBacked(stack: seq<Surface>, mem: Shared)
  {
    forall i :: 0 <= i < |stack| ==> Backed(stack[i], mem)
  }

  /** What the screen should show at `p`: the uppermost surface covering it, or the background. */
  function Render(stack: seq<Surface>, mem: Shared, p: Point): Colour
    requires AllBacked(stack, mem)
  {
    if stack == [] then BACKGROUND
    else
      var top := |stack| - 1;
      match At(stack[top], mem, p)
      case Some(c) => c
      case None => Render(stack[..top], mem, p)
  }

  /** The hit test names the surface whose pixel the screen shows, or nothing exactly on background. */
  ghost predicate IsTopmost(stack: seq<Surface>, p: Point, r: Option<nat>)
  {
    match r
    case Some(i) => i < |stack| && Covers(stack[i], p) && forall j :: i < j < |stack| ==> !Covers(stack[j], p)
    case None => forall j :: 0 <= j < |stack| ==> !Covers(stack[j], p)
  }

  lemma {:induction false} RenderShowsTopmost(stack: seq<Surface>, mem: Shared, p: Point, r: Option<nat>)
    requires AllBacked(stack, mem) && IsTopmost(stack, p, r)
    ensures r.None? ==> Render(stack, mem, p) == BACKGROUND
    ensures r.Some? ==> At(stack[r.value], mem, p) == Some(Render(stack, mem, p))
    decreases |stack|
  {
    if stack != [] {
      var top := |stack| - 1;
      if !Covers(stack[top], p) {
        RenderShowsTopmost(stack[..top], mem, p, r);
      }
    }
  }

  // ---- Stack edits ----

  function Without(stack: seq<Surface>, i: nat): seq<Surface>
    requires i < |stack|
  {
    stack[..i] + stack[i + 1..]
  }

  function Raised(stack: seq<Surface>, i: nat): seq<Surface>
    requires i < |stack|
  {
    Without(stack, i) + [stack[i]]
  }

  /** The surfaces of everyone but `owner`, in stacking order. */
  function Others(stack: seq<Surface>, owner: nat): (r: seq<Surface>)
    ensures forall i :: 0 <= i < |r| ==> r[i] in stack && r[i].owner != owner
  {
    if stack == [] then []
    else
      var top := |stack| - 1;
      Others(stack[..top], owner) + if stack[top].owner == owner then [] else [stack[top]]
  }

  lemma {:induction false} RenderWithout(stack: seq<Surface>, i: nat, mem: Shared, p: Point)
    requires i < |stack| && AllBacked(stack, mem) && !Covers(stack[i], p)
    ensures AllBacked(Without(stack, i), mem)
    ensures Render(Without(stack, i), mem, p) == Render(stack, mem, p)
    decreases |stack|
  {
    var top := |stack| - 1;
    if i < top {
      RenderWithout(stack[..top], i, mem, p);
      assert Without(stack, i)[..top - 1] == Without(stack[..top], i);
      assert Without(stack, i)[top - 1] == stack[top];
    } else {
      assert Without(stack, i) == stack[..top];
    }
  }

  lemma RenderRaised(stack: seq<Surface>, i: nat, mem: Shared, p: Point)
    requires i < |stack| && AllBacked(stack, mem) && !Covers(stack[i], p)
    ensures AllBacked(Raised(stack, i), mem)
    ensures Render(Raised(stack, i), mem, p) == Render(stack, mem, p)
  {
    RenderWithout(stack, i, mem, p);
    assert Raised(stack, i)[..|stack| - 1] == Without(stack, i);
  }

  lemma {:induction false} RenderOthers(stack: seq<Surface>, owner: nat, mem: Shared, p: Point)
    requires AllBacked(stack, mem)
    requires forall i :: 0 <= i < |stack| && stack[i].owner == owner ==> !Covers(stack[i], p)
    ensures AllBacked(Others(stack, owner), mem)
    ensures Render(Others(stack, owner), mem, p) == Render(stack, mem, p)
    decreases |stack|
  {
    if stack != [] {
      var top := |stack| - 1;
      RenderOthers(stack[..top], owner, mem, p);
      var r := Others(stack, owner);
      if stack[top].owner == owner {
        assert r == Others(stack[..top], owner);
      } else {
        assert r[..|r| - 1] == Others(stack[..top], owner);
      }
    }
  }

  lemma {:induction false} OthersAppend(a: seq<Surface>, b: seq<Surface>, owner: nat)
    ensures Others(a + b, owner) == Others(a, owner) + Others(b, owner)
    decreases |b|
  {
    if b == [] {
      assert a + b == a;
    } else {
      var top := |b| - 1;
      OthersAppend(a, b[..top], owner);
      assert (a + b)[..|a + b| - 1] == a + b[..top];
    }
  }

  lemma OthersAround(lo: seq<Surface>, s: Surface, hi: seq<Surface>, owner: nat)
    requires s.owner == owner
    ensures Others(lo + [s] + hi, owner) == Others(lo + hi, owner)
  {
    OthersAppend(lo + [s], hi, owner);
    OthersAppend(lo, hi, owner);
    assert (lo + [s])[..|lo|] == lo;
  }

  /** Editing one of `owner`'s surfaces leaves everyone else's in content and in order. */
  lemma OthersUntouched(stack: seq<Surface>, i: nat, s: Surface, owner: nat)
    requires i < |stack| && stack[i].owner == owner && s.owner == owner
    ensures Others(Without(stack, i), owner) == Others(stack, owner)
    ensures Others(Raised(stack, i), owner) == Others(stack, owner)
    ensures Others(stack[i := s], owner) == Others(stack, owner)
  {
    var (lo, hi) := (stack[..i], stack[i + 1..]);
    OthersAround(lo, stack[i], hi, owner);
    assert lo + [stack[i]] + hi == stack;
    OthersAround(lo, s, hi, owner);
    assert lo + [s] + hi == stack[i := s];
    assert lo + hi == Without(stack, i);
    OthersPush(Without(stack, i), stack[i], owner);
  }

  lemma OthersPush(stack: seq<Surface>, s: Surface, owner: nat)
    requires s.owner == owner
    ensures Others(stack + [s], owner) == Others(stack, owner)
  {
  }
}
