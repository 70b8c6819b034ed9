/**
 * services/displaysrv/main.rs as a transition system: every request, every client death and every
 * write a client makes to its own pages, with each flip taken or refused by the kernel.
 *
 * The claim is that repainting only damaged rectangles, into whichever of two buffers is not on
 * display, agrees with repainting the whole screen in painter's order every time.
 */
module DisplayRuns {
  import opened Common
  import opened Surfaces

  const BPP: nat := 4
  const MAX_SURFACES: nat := 8
  const MAX_BUFFERS: nat := 2
  const TWO_32: nat := 0x1_0000_0000

  const ERR_MALFORMED: nat := 1
  const ERR_NO_SURFACE: nat := 2
  const ERR_BUFFER: nat := 3
  const ERR_FULL: nat := 4

  datatype Reply = Ok(value: nat) | Err(reason: nat)

  // ---- The framebuffer ----

  datatype Geometry = Geometry(width: nat, height: nat, stride: nat, buffers: nat)
  {
    /** What `Screen::from_seed` accepts. */
    predicate Valid()
    {
      && 0 < width < TWO_32 && 0 < height < TWO_32 && width * BPP <= stride < TWO_32
      && 1 <= buffers <= MAX_BUFFERS
    }

    predicate OnScreen(p: Point)
    {
      p.x < width && p.y < height
    }

    function Plane(): nat
    {
      height * stride
    }

    function Bytes(): nat
    {
      buffers * Plane()
    }

    /** Byte offset of a pixel in the one mapping that holds every buffer. */
    function Offset(b: nat, p: Point): nat
    {
      b * Plane() + p.y * stride + p.x * BPP
    }
  }

  lemma RowInPlane(g: Geometry, p: Point)
    requires g.Valid() && g.OnScreen(p)
    ensures 0 <= p.y * g.stride + p.x * BPP <= g.Plane() - BPP
  {
    MulBefore(p.y, g.height, g.stride);
  }

  lemma OffsetInBounds(g: Geometry, b: nat, p: Point)
    requires g.Valid() && b < g.buffers && g.OnScreen(p)
    ensures g.Offset(b, p) + BPP <= g.Bytes()
  {
    RowInPlane(g, p);
    MulBefore(b, g.buffers, g.Plane());
  }

  /** Distinct pixels of distinct buffers never share a byte. */
  lemma OffsetsDisjoint(g: Geometry, b: nat, p: Point, c: nat, q: Point)
    requires g.Valid() && b < g.buffers && c < g.buffers && g.OnScreen(p) && g.OnScreen(q)
    requires b != c || p != q
    ensures g.Offset(b, p) + BPP <= g.Offset(c, q) || g.Offset(c, q) + BPP <= g.Offset(b, p)
  {
    RowInPlane(g, p);
    RowInPlane(g, q);
    if b < c {
      MulBefore(b, c, g.Plane());
    } else if c < b {
      MulBefore(c, b, g.Plane());
    } else if p.y < q.y {
      MulBefore(p.y, q.y, g.stride);
    } else if q.y < p.y {
      MulBefore(q.y, p.y, g.stride);
    }
  }

  /**
   * The words stored in the mapping, each under the byte offset it was written at. `OffsetsDisjoint`
   * is what makes that a faithful picture of memory: no two of them overlap.
   */
  type Words = seq<Colour>

  function Pixel(g: Geometry, fb: Words, b: nat, p: Point): Colour
    requires g.Valid() && |fb| == g.Bytes() && b < g.buffers && g.OnScreen(p)
  {
    OffsetInBounds(g, b, p);
    fb[g.Offset(b, p)]
  }

  // ---- State ----

  /** The whole system. `shown` is the buffer the display is scanning out: the kernel's to know. */
  datatype Sys = Sys(
    g: Geometry, fb: Words, stale: seq<Option<Rect>>, back: nat, shown: nat,
    stack: seq<Surface>, nextId: nat, mem: Shared)

  ghost predicate UniqueIds(stack: seq<Surface>, nextId: nat)
  {
    && (forall i :: 0 <= i < |stack| ==> stack[i].id < nextId)
    && (forall i, j :: 0 <= i < j < |stack| ==> stack[i].id != stack[j].id)
  }

  ghost predicate ScreenShape(s: Sys)
  {
    && s.g.Valid() && |s.fb| == s.g.Bytes()
    && |s.stale| == MAX_BUFFERS && s.back < s.g.buffers && s.shown < s.g.buffers
    && (forall b :: 0 <= b < s.g.buffers && s.stale[b].Some? ==> Within(s.stale[b].value, s.g.width, s.g.height))
    && (s.g.buffers == 2 ==> s.back != s.shown)
  }

  ghost predicate Shape(s: Sys)
  {
    && ScreenShape(s)
    && |s.stack| <= MAX_SURFACES && UniqueIds(s.stack, s.nextId)
    && ValidShared(s.mem) && AllBacked(s.stack, s.mem)
  }

  predicate InStale(r: Option<Rect>, p: Point)
  {
    r.Some? && r.value.Has(p)
  }

  /** Content that changed on screen and that no repaint has been asked for yet. */
  type Pending = iset<Point>

  /** Every pixel of every buffer is known to be behind, or is pending, or is what it should be. */
  ghost predicate CaughtUp(s: Sys, pending: Pending)
    requires Shape(s)
  {
    forall b: nat, p: Point :: b < s.g.buffers && s.g.OnScreen(p) ==>
      InStale(s.stale[b], p) || p in pending || Pixel(s.g, s.fb, b, p) == Render(s.stack, s.mem, p)
  }

  ghost predicate Inv(s: Sys, pending: Pending)
  {
    Shape(s) && CaughtUp(s, pending)
  }

  // ---- Events ----

  /** Requests, deaths and client writes; `Repaint` is the one full paint the server starts with. */
  datatype Event =
    | Create(client: nat, width: U64, height: U64, x: U64, y: U64, cap: nat)
    | Commit(client: nat, id: nat, dx: nat, dy: nat, dw: nat, dh: nat, cap: nat, flip: bool)
    | Raise(client: nat, id: nat, flip: bool)
    | Destroy(client: nat, id: nat, flip: bool)
    | Reap(client: nat, flip: bool)
    | ClientWrite(mem: Shared)
    | Repaint(flip: bool)

  /** Damage arrives as 32-bit halves, and a buffer never changes size once mapped. */
  ghost predicate ValidEvent(s: Sys, e: Event)
  {
    match e
    case Commit(_, _, dx, dy, dw, dh, _, _) => dx < TWO_32 && dy < TWO_32 && dw < TWO_32 && dh < TWO_32
    case ClientWrite(mem) =>
      ValidShared(mem) && forall b :: b in s.mem ==> b in mem && |mem[b]| == |s.mem[b]|
    case _ => true
  }

  /** `accept_buffer`: a handle is good if the object behind it holds enough pixels. */
  function AcceptBuffer(mem: Shared, cap: nat, width: nat, height: nat): Reply
  {
    if cap == 0 then Err(ERR_MALFORMED)
    else if cap !in mem || |mem[cap]| == 0 || width * height > |mem[cap]| then Err(ERR_BUFFER)
    else Ok(cap)
  }

  /** The first index at or above `lo` whose surface matches both owner and id. */
  function IndexFrom(stack: seq<Surface>, owner: nat, id: nat, lo: nat): (r: Option<nat>)
    requires lo <= |stack|
    ensures r.Some? ==> lo <= r.value < |stack| && stack[r.value].id == id && stack[r.value].owner == owner
    ensures r.None? ==> forall i :: lo <= i < |stack| ==> !(stack[i].id == id && stack[i].owner == owner)
    decreases |stack| - lo
  {
    if lo == |stack| then None
    else if stack[lo].id == id && stack[lo].owner == owner then Some(lo)
    else IndexFrom(stack, owner, id, lo + 1)
  }

  function IndexOf(stack: seq<Surface>, owner: nat, id: nat): Option<nat>
  {
    IndexFrom(stack, owner, id, 0)
  }

  /** The corner-and-corner bounds `remove_owner` accumulates, with the additions a `usize` makes. */
  datatype Bounds = Bounds(x0: U64, y0: U64, x1: U64, y1: U64)

  function Grow(b: Option<Bounds>, s: Surface): Option<Bounds>
  {
    var right := WrappingAdd(s.x, s.width);
    var bottom := WrappingAdd(s.y, s.height);
    match b
    case None => Some(Bounds(s.x, s.y, right, bottom))
    case Some(b) => Some(Bounds(Min(b.x0, s.x), Min(b.y0, s.y), Max(b.x1, right), Max(b.y1, bottom)))
  }

  function OwnerBounds(stack: seq<Surface>, owner: nat): Option<Bounds>
  {
    if stack == [] then None
    else
      var top := |stack| - 1;
      var below := OwnerBounds(stack[..top], owner);
      if stack[top].owner == owner then Grow(below, stack[top]) else below
  }

  function BoundsRect(b: Bounds): Rect
  {
    Rect(b.x0, b.y0, WrappingSub(b.x1, b.x0), WrappingSub(b.y1, b.y0))
  }

  function SurfaceRect(s: Surface): Rect
  {
    Rect(s.x, s.y, s.width, s.height)
  }

  predicate DamageOk(s: Surface, dx: nat, dy: nat, dw: nat, dh: nat)
  {
    dx < s.width && dy < s.height && dw != 0 && dh != 0
  }

  function DamageRect(s: Surface, dx: nat, dy: nat, dw: nat, dh: nat): Rect
    requires DamageOk(s, dx, dy, dw, dh)
  {
    Rect(WrappingAdd(s.x, dx), WrappingAdd(s.y, dy), Min(dw, s.width - dx), Min(dh, s.height - dy))
  }

  /** The surface a commit leaves behind: a buffer that comes with it is swapped in first. */
  function Swapped(s: Sys, i: nat, cap: nat): Option<Surface>
    requires i < |s.stack|
  {
    if cap == 0 then Some(s.stack[i])
    else
      match AcceptBuffer(s.mem, cap, s.stack[i].width, s.stack[i].height)
      case Ok(c) => Some(s.stack[i].(pixels := c))
      case Err(_) => None
  }

  function StackAfter(s: Sys, e: Event): seq<Surface>
  {
    match e
    case Create(client, width, height, x, y, cap) =>
      if width == 0 || height == 0 || AcceptBuffer(s.mem, cap, width, height).Err? || |s.stack| == MAX_SURFACES
      then s.stack
      else s.stack + [Surface(s.nextId, client, cap, width, height, x, y)]
    case Commit(client, id, _, _, _, _, cap, _) =>
      (match IndexOf(s.stack, client, id)
       case None => s.stack
       case Some(i) =>
         match Swapped(s, i, cap)
         case None => s.stack
         case Some(t) => s.stack[i := t])
    case Raise(client, id, _) =>
      (match IndexOf(s.stack, client, id) case None => s.stack case Some(i) => Raised(s.stack, i))
    case Destroy(client, id, _) =>
      (match IndexOf(s.stack, client, id) case None => s.stack case Some(i) => Without(s.stack, i))
    case Reap(client, _) => Others(s.stack, client)
    case _ => s.stack
  }

  /** The rectangle handed to `composite`, if the request gets that far. */
  function Damage(s: Sys, e: Event): Option<Rect>
  {
    match e
    case Create(_, _, _, _, _, _) => None
    case Commit(client, id, dx, dy, dw, dh, cap, _) =>
      (match IndexOf(s.stack, client, id)
       case None => None
       case Some(i) =>
         match Swapped(s, i, cap)
         case None => None
         case Some(t) => if DamageOk(t, dx, dy, dw, dh) then Some(DamageRect(t, dx, dy, dw, dh)) else None)
    case Raise(client, id, _) =>
      (match IndexOf(s.stack, client, id) case None => None case Some(i) => Some(SurfaceRect(s.stack[i])))
    case Destroy(client, id, _) =>
      (match IndexOf(s.stack, client, id) case None => None case Some(i) => Some(SurfaceRect(s.stack[i])))
    case Reap(client, _) =>
      (match OwnerBounds(s.stack, client) case None => None case Some(b) => Some(BoundsRect(b)))
    case ClientWrite(_) => None
    case Repaint(_) => Some(Rect(0, 0, s.g.width, s.g.height))
  }

  function FlipOf(e: Event): bool
  {
    match e
    case Commit(_, _, _, _, _, _, _, flip) => flip
    case Raise(_, _, flip) => flip
    case Destroy(_, _, flip) => flip
    case Reap(_, flip) => flip
    case Repaint(flip) => flip
    case _ => false
  }

  /** The on-screen part of the damage: what the caller declared, and what it is told was painted. */
  function Declared(s: Sys, e: Event): Option<Rect>
  {
    match Damage(s, e)
    case None => None
    case Some(r) => Clip(r, s.g.width, s.g.height)
  }

  /** The answer the client gets: refusals by reason, and pixels declared rather than pixels written. */
  function ReplyTo(s: Sys, e: Event): Reply
  {
    match e
    case Create(_, width, height, _, _, cap) =>
      if width == 0 || height == 0 then Err(ERR_MALFORMED)
      else if AcceptBuffer(s.mem, cap, width, height).Err? then AcceptBuffer(s.mem, cap, width, height)
      else if |s.stack| == MAX_SURFACES then Err(ERR_FULL)
      else Ok(s.nextId)
    case Commit(client, id, dx, dy, dw, dh, cap, _) =>
      (match IndexOf(s.stack, client, id)
       case None => Err(ERR_NO_SURFACE)
       case Some(i) =>
         var t := s.stack[i];
         if cap != 0 && AcceptBuffer(s.mem, cap, t.width, t.height).Err?
         then AcceptBuffer(s.mem, cap, t.width, t.height)
         else if !DamageOk(t, dx, dy, dw, dh) then Err(ERR_MALFORMED)
         else Ok(DeclaredArea(s, e)))
    case Raise(client, id, _) =>
      if IndexOf(s.stack, client, id).None? then Err(ERR_NO_SURFACE) else Ok(DeclaredArea(s, e))
    case Destroy(client, id, _) =>
      if IndexOf(s.stack, client, id).None? then Err(ERR_NO_SURFACE) else Ok(DeclaredArea(s, e))
    case _ => Ok(DeclaredArea(s, e))
  }

  function Area(r: Option<Rect>): nat
  {
    match r case None => 0 case Some(r) => r.w * r.h
  }

  function DeclaredArea(s: Sys, e: Event): nat
  {
    Area(Declared(s, e))
  }

  /** `Screen::damage`: every buffer falls behind by `r`. */
  function FallBehind(had: Option<Rect>, r: Rect): Rect
  {
    match had case None => r case Some(h) => Union(h, r)
  }

  /** `composite` of a rectangle on the screen. */
  ghost predicate Composited(s: Sys, r: Rect, flip: bool, stack: seq<Surface>, mem: Shared, s': Sys)
    requires ScreenShape(s) && AllBacked(stack, mem)
  {
    var repaint := FallBehind(s.stale[s.back], r);
    && |s'.fb| == |s.fb| && |s'.stale| == MAX_BUFFERS
    && (forall b: nat, p: Point :: b < s.g.buffers && s.g.OnScreen(p) ==>
          Pixel(s.g, s'.fb, b, p) ==
            if b == s.back && repaint.Has(p) then Render(stack, mem, p) else Pixel(s.g, s.fb, b, p))
    && (forall b: nat :: b < s.g.buffers ==>
          s'.stale[b] == if b == s.back then None else Some(FallBehind(s.stale[b], r)))
    && if s.g.buffers == 2 && flip
       then s'.shown == s.back && s'.back == (s.back + 1) % 2
       else s'.shown == s.shown && s'.back == s.back
  }

  function MemAfter(s: Sys, e: Event): Shared
  {
    if e.ClientWrite? then e.mem else s.mem
  }

  /** No request can leave a surface over a buffer too small for it. */
  lemma StackStaysBacked(s: Sys, e: Event)
    requires Shape(s) && ValidEvent(s, e)
    ensures AllBacked(StackAfter(s, e), MemAfter(s, e))
  {
  }

  ghost predicate Next(s: Sys, e: Event, s': Sys)
    requires Shape(s)
  {
    && ValidEvent(s, e)
    && s'.g == s.g
    && s'.stack == StackAfter(s, e)
    && s'.nextId == s.nextId + (if |s'.stack| > |s.stack| then 1 else 0)
    && s'.mem == MemAfter(s, e)
    && (StackStaysBacked(s, e);
        match Declared(s, e)
        case None => s'.fb == s.fb && s'.stale == s.stale && s'.back == s.back && s'.shown == s.shown
        case Some(r) => Composited(s, r, FlipOf(e), s'.stack, s'.mem, s'))
  }

  // ---- Every step keeps the shape ----

  lemma {:induction false} OthersSubsequence(stack: seq<Surface>, owner: nat, nextId: nat)
    requires UniqueIds(stack, nextId)
    ensures |Others(stack, owner)| <= |stack| && UniqueIds(Others(stack, owner), nextId)
    decreases |stack|
  {
    if stack != [] {
      var top := |stack| - 1;
      OthersSubsequence(stack[..top], owner, nextId);
    }
  }

  lemma EditsStayUnique(stack: seq<Surface>, i: nat, t: Surface, nextId: nat)
    requires UniqueIds(stack, nextId) && i < |stack| && t.id == stack[i].id
    ensures UniqueIds(Without(stack, i), nextId)
    ensures UniqueIds(Raised(stack, i), nextId)
    ensures UniqueIds(stack[i := t], nextId)
  {
  }

  lemma StackStaysUnique(s: Sys, e: Event)
    requires Shape(s) && ValidEvent(s, e)
    ensures var t := StackAfter(s, e);
      |t| <= MAX_SURFACES && UniqueIds(t, s.nextId + if |t| > |s.stack| then 1 else 0)
  {
    if e.Reap? {
      OthersSubsequence(s.stack, e.client, s.nextId);
    } else if e.Commit? || e.Raise? || e.Destroy? {
      var i := IndexOf(s.stack, e.client, e.id);
      if i.Some? {
        var t := if e.Commit? then Swapped(s, i.value, e.cap) else None;
        EditsStayUnique(s.stack, i.value, if t.Some? then t.value else s.stack[i.value], s.nextId);
      }
    }
  }

  lemma StaleStaysWithin(s: Sys, r: Rect, flip: bool, stack: seq<Surface>, mem: Shared, s': Sys)
    requires Shape(s) && AllBacked(stack, mem) && Within(r, s.g.width, s.g.height)
    requires Composited(s, r, flip, stack, mem, s')
    ensures forall b :: 0 <= b < s.g.buffers && s'.stale[b].Some? ==> Within(s'.stale[b].value, s.g.width, s.g.height)
    ensures s'.back < s.g.buffers && s'.shown < s.g.buffers && (s.g.buffers == 2 ==> s'.back != s'.shown)
  {
  }

  lemma ShapeKept(s: Sys, e: Event, s': Sys)
    requires Shape(s) && Next(s, e, s')
    ensures Shape(s')
  {
    StackStaysBacked(s, e);
    StackStaysUnique(s, e);
    if Declared(s, e).Some? {
      var r := Declared(s, e).value;
      ClipExact(Damage(s, e).value, s.g.width, s.g.height);
      StaleStaysWithin(s, r, FlipOf(e), s'.stack, s'.mem, s');
    }
  }

  // ---- Every step keeps the pixels ----

  /** Where the right answer changed. */
  ghost function Changed(s: Sys, s': Sys): Pending
    requires Shape(s) && Shape(s')
  {
    iset p: Point | s.g.OnScreen(p) && Render(s.stack, s.mem, p) != Render(s'.stack, s'.mem, p)
  }

  /** Pending grows by what changed and shrinks by what was declared. */
  ghost function PendingAfter(s: Sys, e: Event, s': Sys, pending: Pending): Pending
    requires Shape(s) && Shape(s')
  {
    iset p: Point | (p in pending || p in Changed(s, s')) && !InStale(Declared(s, e), p)
  }

  lemma CaughtUpKept(s: Sys, e: Event, s': Sys, pending: Pending)
    requires Inv(s, pending) && Next(s, e, s') && Shape(s')
    ensures CaughtUp(s', PendingAfter(s, e, s', pending))
  {
    var pending' := PendingAfter(s, e, s', pending);
    forall b: nat, p: Point | b < s'.g.buffers && s'.g.OnScreen(p)
      ensures InStale(s'.stale[b], p) || p in pending' || Pixel(s'.g, s'.fb, b, p) == Render(s'.stack, s'.mem, p)
    {
      assert InStale(s.stale[b], p) || p in pending || Pixel(s.g, s.fb, b, p) == Render(s.stack, s.mem, p);
      if Declared(s, e).Some? {
        var r := Declared(s, e).value;
        ClipExact(Damage(s, e).value, s.g.width, s.g.height);
        FallBehindCovers(s.stale[b], r, s.g, p);
      }
    }
  }

  lemma FallBehindCovers(had: Option<Rect>, r: Rect, g: Geometry, p: Point)
    requires Within(r, g.width, g.height) && (had.Some? ==> Within(had.value, g.width, g.height))
    ensures r.Has(p) || InStale(had, p) ==> FallBehind(had, r).Has(p)
  {
  }

  lemma StepKeepsInv(s: Sys, e: Event, s': Sys, pending: Pending)
    requires Inv(s, pending) && Next(s, e, s')
    ensures Shape(s') && Inv(s', PendingAfter(s, e, s', pending))
  {
    ShapeKept(s, e, s');
    CaughtUpKept(s, e, s', pending);
  }

  /** What a buffer is behind by is no larger than it must be: inside every rectangle that covers both parts. */
  lemma FallsBehindLeast(had: Option<Rect>, r: Rect, c: Rect, g: Geometry)
    requires Within(r, g.width, g.height) && (had.Some? ==> Within(had.value, g.width, g.height))
    requires forall p: Point :: r.Has(p) || InStale(had, p) ==> c.Has(p)
    ensures forall p: Point :: FallBehind(had, r).Has(p) ==> c.Has(p)
  {
    if had.Some? {
      UnionLeast(had.value, r, c, g.width, g.height);
    }
  }

  // ---- Runs ----

  /** What `Screen::from_seed` and `Compositor::new` set up: nothing drawn is trusted. */
  ghost predicate Initial(s: Sys)
  {
    && s.g.Valid() && |s.fb| == s.g.Bytes() && ValidShared(s.mem)
    && s.stale == [Some(Rect(0, 0, s.g.width, s.g.height)), Some(Rect(0, 0, s.g.width, s.g.height))]
    && s.back == (if s.g.buffers > 1 then 1 else 0) && s.shown == 0
    && s.stack == [] && s.nextId == 1
  }

  ghost predicate IsRun(states: seq<Sys>, events: seq<Event>)
  {
    && |states| == |events| + 1
    && Initial(states[0])
    && forall k: nat :: k < |events| ==> StepAt(states, events, k)
  }

  /** Nothing is assumed of the state a step starts from: that it has its shape is `ShapeAt`. */
  ghost predicate StepAt(states: seq<Sys>, events: seq<Event>, k: nat)
    requires k < |events| && |states| == |events| + 1
  {
    Shape(states[k]) ==> Next(states[k], events[k], states[k + 1])
  }

  lemma {:induction false} ShapeAt(states: seq<Sys>, events: seq<Event>, k: nat)
    requires IsRun(states, events) && k < |states|
    ensures Shape(states[k])
  {
    if k == 0 {
      InitialInv(states[0]);
    } else {
      ShapeAt(states, events, k - 1);
      assert StepAt(states, events, k - 1);
      ShapeKept(states[k - 1], events[k - 1], states[k]);
    }
  }

  ghost function PendingAt(states: seq<Sys>, events: seq<Event>, k: nat): Pending
    requires IsRun(states, events) && k < |states|
  {
    if k == 0 then iset{}
    else
      ShapeAt(states, events, k - 1);
      ShapeAt(states, events, k);
      PendingAfter(states[k - 1], events[k - 1], states[k], PendingAt(states, events, k - 1))
  }

  lemma InitialInv(s: Sys)
    requires Initial(s)
    ensures Inv(s, iset{})
  {
  }

  lemma InvAfter(states: seq<Sys>, events: seq<Event>, k: nat, pending: Pending)
    requires IsRun(states, events) && k < |events| && Inv(states[k], pending) && Shape(states[k + 1])
    ensures Inv(states[k + 1], PendingAfter(states[k], events[k], states[k + 1], pending))
  {
    assert StepAt(states, events, k);
    StepKeepsInv(states[k], events[k], states[k + 1], pending);
  }

  /**
   * Over every run: each pixel of each buffer is inside that buffer's stale rectangle, or changed
   * without being declared, or is what a full repaint in painter's order would put there; and with
   * two buffers the one being drawn is never the one on display.
   */
  lemma {:induction false} EveryRunKeepsInv(states: seq<Sys>, events: seq<Event>, k: nat)
    requires IsRun(states, events) && k < |states|
    ensures Inv(states[k], PendingAt(states, events, k))
  {
    if k == 0 {
      InitialInv(states[0]);
    } else {
      EveryRunKeepsInv(states, events, k - 1);
      ShapeAt(states, events, k);
      InvAfter(states, events, k - 1, PendingAt(states, events, k - 1));
    }
  }

  ghost predicate ShowsFullRender(s: Sys)
    requires Shape(s)
  {
    forall p: Point :: s.g.OnScreen(p) ==> Pixel(s.g, s.fb, s.shown, p) == Render(s.stack, s.mem, p)
  }

  /** The step painted, and what it painted is on display. */
  ghost predicate Presented(s: Sys, e: Event)
  {
    Declared(s, e).Some? && (s.g.buffers == 1 || FlipOf(e))
  }

  lemma PresentedStepShowsRender(s: Sys, e: Event, s': Sys, pending: Pending, p: Point)
    requires Inv(s, pending) && Next(s, e, s') && Presented(s, e) && s.g.OnScreen(p)
    ensures Shape(s')
    ensures p !in PendingAfter(s, e, s', pending)
         ==> Pixel(s'.g, s'.fb, s'.shown, p) == Render(s'.stack, s'.mem, p)
  {
    StepKeepsInv(s, e, s', pending);
    assert s'.shown == s.back && s'.stale[s'.shown] == None;
  }

  /** Whenever a frame reaches the display with nothing undeclared, the display is right everywhere. */
  lemma PresentedFrameIsComplete(states: seq<Sys>, events: seq<Event>, k: nat)
    requires IsRun(states, events) && k < |events|
    requires Presented(states[k], events[k])
    requires PendingAt(states, events, k + 1) == iset{}
    ensures Shape(states[k + 1]) && ShowsFullRender(states[k + 1])
  {
    EveryRunKeepsInv(states, events, k);
    ShapeAt(states, events, k + 1);
    assert StepAt(states, events, k);
    forall p: Point | states[k].g.OnScreen(p)
      ensures Pixel(states[k + 1].g, states[k + 1].fb, states[k + 1].shown, p)
           == Render(states[k + 1].stack, states[k + 1].mem, p)
    {
      PresentedStepShowsRender(states[k], events[k], states[k + 1], PendingAt(states, events, k), p);
    }
  }

  /** With two buffers no step writes a pixel of the one being scanned out. */
  lemma NeverDrawsOnDisplay(states: seq<Sys>, events: seq<Event>, k: nat, p: Point)
    requires IsRun(states, events) && k < |events|
    requires states[k].g.buffers == 2 && states[k].g.OnScreen(p)
    ensures Shape(states[k]) && |states[k + 1].fb| == states[k].g.Bytes()
         && Pixel(states[k].g, states[k + 1].fb, states[k].shown, p)
         == Pixel(states[k].g, states[k].fb, states[k].shown, p)
  {
    ShapeAt(states, events, k);
    assert StepAt(states, events, k);
  }

  // ---- What each request declares covers what it changes ----

  lemma {:induction false} OwnerBoundsCover(stack: seq<Surface>, owner: nat, i: nat, p: Point)
    requires i < |stack| && stack[i].owner == owner && Covers(stack[i], p)
    requires p.x < TWO_32 && p.y < TWO_32
    requires stack[i].width < BUFFER_LIMIT && stack[i].height < BUFFER_LIMIT
    ensures match OwnerBounds(stack, owner)
      case None => false
      case Some(b) => b.x0 <= p.x < b.x1 && b.y0 <= p.y < b.y1
    decreases |stack|
  {
    var top := |stack| - 1;
    if i < top {
      OwnerBoundsCover(stack[..top], owner, i, p);
    }
  }

  lemma BackedIsBounded(s: Surface, mem: Shared)
    requires Backed(s, mem) && ValidShared(mem)
    ensures s.width < BUFFER_LIMIT && s.height < BUFFER_LIMIT
  {
    assert s.width * s.height >= s.width && s.width * s.height >= s.height by {
      MulBefore(0, s.height, s.width);
      MulBefore(0, s.width, s.height);
    }
  }

  ghost predicate StackEdit(e: Event)
  {
    e.Raise? || e.Destroy? || e.Reap? || e.Repaint? || (e.Commit? && e.cap == 0)
  }

  /** Every pixel whose right answer a stack edit changes lies in the rectangle it composites. */
  lemma EditChangesOnlyDeclared(s: Sys, e: Event, s': Sys, p: Point)
    requires Shape(s) && Next(s, e, s') && Shape(s') && StackEdit(e) && s.g.OnScreen(p)
    requires !InStale(Declared(s, e), p)
    ensures Render(s'.stack, s'.mem, p) == Render(s.stack, s.mem, p)
  {
    if Damage(s, e).Some? {
      ClipExact(Damage(s, e).value, s.g.width, s.g.height);
    }
    match e
    case Raise(client, id, _) =>
      var i := IndexOf(s.stack, client, id);
      if i.Some? {
        RenderRaised(s.stack, i.value, s.mem, p);
      }
    case Destroy(client, id, _) =>
      var i := IndexOf(s.stack, client, id);
      if i.Some? {
        RenderWithout(s.stack, i.value, s.mem, p);
      }
    case Reap(client, _) =>
      forall i: nat | i < |s.stack| && s.stack[i].owner == client
        ensures !Covers(s.stack[i], p)
      {
        BackedIsBounded(s.stack[i], s.mem);
        if Covers(s.stack[i], p) {
          OwnerBoundsCover(s.stack, client, i, p);
        }
      }
      RenderOthers(s.stack, client, s.mem, p);
    case Commit(client, id, _, _, _, _, _, _) =>
      assert s'.stack == s.stack;
    case _ =>
  }

  /** So a stack edit never leaves anything undeclared behind. */
  lemma EditAddsNothingPending(s: Sys, e: Event, s': Sys, pending: Pending)
    requires Inv(s, pending) && Next(s, e, s') && StackEdit(e)
    ensures Shape(s') && PendingAfter(s, e, s', pending) <= pending
  {
    ShapeKept(s, e, s');
    forall p: Point | p in PendingAfter(s, e, s', pending) ensures p in pending {
      if s.g.OnScreen(p) {
        EditChangesOnlyDeclared(s, e, s', p);
      }
    }
  }

  // ---- Double-buffered clients ----

  /** The two buffers agree at every position of the surface outside the damage. */
  ghost predicate AgreeOutside(t: Surface, mem: Shared, other: nat, dx: nat, dy: nat, dw: nat, dh: nat)
  {
    && Backed(t, mem) && Backed(t.(pixels := other), mem)
    && forall p: Point :: Covers(t, p) && !Rect(t.x + dx, t.y + dy, dw, dh).Has(p)
         ==> At(t, mem, p) == At(t.(pixels := other), mem, p)
  }

  lemma {:induction false} RenderAfterSwap(stack: seq<Surface>, i: nat, t: Surface, mem: Shared, p: Point)
    requires i < |stack| && AllBacked(stack, mem) && Backed(t, mem)
    requires At(stack[i], mem, p) == At(t, mem, p)
    ensures AllBacked(stack[i := t], mem)
    ensures Render(stack[i := t], mem, p) == Render(stack, mem, p)
    decreases |stack|
  {
    var top := |stack| - 1;
    if i < top {
      RenderAfterSwap(stack[..top], i, t, mem, p);
      assert stack[i := t][..top] == stack[..top][i := t];
    } else {
      assert stack[i := t][..top] == stack[..top];
    }
  }

  /** A commit that swaps in a buffer agreeing with the old one outside its damage leaves nothing pending. */
  lemma HonestSwapAddsNothingPending(s: Sys, e: Event, s': Sys, pending: Pending, i: nat)
    requires Inv(s, pending) && Next(s, e, s') && e.Commit? && e.cap != 0
    requires IndexOf(s.stack, e.client, e.id) == Some(i)
    requires DamageOk(s.stack[i], e.dx, e.dy, e.dw, e.dh)
    requires AgreeOutside(s.stack[i], s.mem, e.cap, e.dx, e.dy, e.dw, e.dh)
    ensures Shape(s') && PendingAfter(s, e, s', pending) <= pending
  {
    ShapeKept(s, e, s');
    var t := s.stack[i];
    BackedIsBounded(t, s.mem);
    ClipExact(DamageRect(t, e.dx, e.dy, e.dw, e.dh), s.g.width, s.g.height);
    forall p: Point | p in PendingAfter(s, e, s', pending) ensures p in pending {
      if s.g.OnScreen(p) && p !in pending {
        HonestSwapKeepsRender(s, e, s', i, p);
      }
    }
  }

  lemma HonestSwapKeepsRender(s: Sys, e: Event, s': Sys, i: nat, p: Point)
    requires Shape(s) && Next(s, e, s') && Shape(s') && e.Commit? && e.cap != 0 && s.g.OnScreen(p)
    requires IndexOf(s.stack, e.client, e.id) == Some(i)
    requires DamageOk(s.stack[i], e.dx, e.dy, e.dw, e.dh)
    requires AgreeOutside(s.stack[i], s.mem, e.cap, e.dx, e.dy, e.dw, e.dh)
    requires !InStale(Declared(s, e), p)
    ensures Render(s'.stack, s'.mem, p) == Render(s.stack, s.mem, p)
  {
    var t := s.stack[i];
    var t' := t.(pixels := e.cap);
    BackedIsBounded(t, s.mem);
    assert s'.stack == s.stack || s'.stack == s.stack[i := t'];
    ClipExact(DamageRect(t, e.dx, e.dy, e.dw, e.dh), s.g.width, s.g.height);
    if s'.stack != s.stack {
      assert At(t, s.mem, p) == At(t', s.mem, p);
      RenderAfterSwap(s.stack, i, t', s.mem, p);
    }
  }

  // ---- What a reply promises ----

  /** A commit whose new buffer is accepted and whose damage is then refused: all of it known to the client. */
  predicate SwapsButRefused(s: Sys, e: Event)
  {
    && e.Commit? && e.cap != 0
    && match IndexOf(s.stack, e.client, e.id)
       case None => false
       case Some(i) =>
         var t := s.stack[i];
         e.cap != t.pixels && AcceptBuffer(s.mem, e.cap, t.width, t.height).Ok? && !DamageOk(t, e.dx, e.dy, e.dw, e.dh)
  }

  /** A refusal leaves everything as it was, except for exactly that one commit. */
  lemma RefusedChangesNothing(s: Sys, e: Event, s': Sys)
    requires Shape(s) && Next(s, e, s') && ReplyTo(s, e).Err?
    ensures s' == s <==> !SwapsButRefused(s, e)
  {
    if e.Commit? && IndexOf(s.stack, e.client, e.id).Some? {
      var i := IndexOf(s.stack, e.client, e.id).value;
      assert s.stack[i := s.stack[i]] == s.stack;
      if SwapsButRefused(s, e) {
        assert s'.stack[i].pixels == e.cap != s.stack[i].pixels;
      }
    }
  }

  /** And what that commit changed on screen stays undeclared, all of it. */
  lemma RefusedSwapIsPending(s: Sys, e: Event, s': Sys, pending: Pending)
    requires Inv(s, pending) && Next(s, e, s') && SwapsButRefused(s, e)
    ensures ReplyTo(s, e).Err? && Shape(s') && PendingAfter(s, e, s', pending) == pending + Changed(s, s')
  {
    ShapeKept(s, e, s');
    assert Declared(s, e).None?;
  }

  /** One pixel of screen, one surface over buffer 1, and a commit of buffer 2 with empty damage. */
  lemma RefusedSwapShows()
    ensures var s := Sys(Geometry(1, 1, 4, 1), [5, 0, 0, 0], [None, None], 0, 0,
                         [Surface(1, 0, 1, 1, 1, 0, 0)], 2, map[1 := [5], 2 := [7]]);
      var e := Commit(0, 1, 0, 0, 0, 0, 2, true);
      var s' := s.(stack := [Surface(1, 0, 2, 1, 1, 0, 0)]);
      && Shape(s) && Shape(s') && Next(s, e, s') && ReplyTo(s, e).Err?
      && Render(s.stack, s.mem, Point(0, 0)) == 5 && Render(s'.stack, s'.mem, Point(0, 0)) == 7
  {
    var s := Sys(Geometry(1, 1, 4, 1), [5, 0, 0, 0], [None, None], 0, 0,
                 [Surface(1, 0, 1, 1, 1, 0, 0)], 2, map[1 := [5], 2 := [7]]);
    assert IndexOf(s.stack, 0, 1) == Some(0);
    assert s.stack[0 := Surface(1, 0, 2, 1, 1, 0, 0)] == [Surface(1, 0, 2, 1, 1, 0, 0)];
  }

  /** A create is granted exactly when the stack grows, and the id it answers is new and the client's own. */
  lemma GrantedSurfaceIsNew(s: Sys, e: Event, s': Sys)
    requires Shape(s) && Next(s, e, s') && e.Create?
    ensures ReplyTo(s, e).Ok? <==> |s'.stack| > |s.stack|
    ensures ReplyTo(s, e).Ok? ==>
      var id := ReplyTo(s, e).value;
      !Live(s.stack, id) && IndexOf(s'.stack, e.client, id) == Some(|s.stack|)
  {
    if ReplyTo(s, e).Ok? {
      assert s'.stack[|s.stack|].id == s.nextId;
    }
  }

  // ---- Isolation ----

  /** Whatever a client asks for, or its death, leaves the other clients' surfaces and their order alone. */
  lemma OtherClientsUntouched(s: Sys, e: Event, s': Sys, c: nat)
    requires Shape(s) && Next(s, e, s')
    requires e.ClientWrite? || e.Repaint? || e.client == c
    ensures Others(s'.stack, c) == Others(s.stack, c)
  {
    match e
    case Create(client, width, height, x, y, cap) =>
      if s'.stack != s.stack {
        OthersPush(s.stack, s'.stack[|s.stack|], c);
      }
    case Commit(client, id, _, _, _, _, _, _) =>
      var i := IndexOf(s.stack, client, id);
      if i.Some? && Swapped(s, i.value, e.cap).Some? {
        OthersUntouched(s.stack, i.value, Swapped(s, i.value, e.cap).value, c);
      }
    case Raise(client, id, _) =>
      var i := IndexOf(s.stack, client, id);
      if i.Some? {
        OthersUntouched(s.stack, i.value, s.stack[i.value], c);
      }
    case Destroy(client, id, _) =>
      var i := IndexOf(s.stack, client, id);
      if i.Some? {
        OthersUntouched(s.stack, i.value, s.stack[i.value], c);
      }
    case Reap(client, _) => OthersIdempotent(s.stack, c);
    case _ =>
  }

  lemma {:induction false} OthersIdempotent(stack: seq<Surface>, c: nat)
    ensures Others(Others(stack, c), c) == Others(stack, c)
    decreases |stack|
  {
    if stack != [] {
      var top := |stack| - 1;
      OthersIdempotent(stack[..top], c);
      var lower := Others(stack[..top], c);
      if stack[top].owner == c {
        assert Others(stack, c) == lower;
      } else {
        assert (lower + [stack[top]])[..|lower|] == lower;
      }
    }
  }

  ghost predicate Live(stack: seq<Surface>, id: nat)
  {
    exists i :: 0 <= i < |stack| && stack[i].id == id
  }

  /** A surface on the stack after a step was there before, up to its buffer, or has just been created. */
  lemma SurfacesAreOldOrNew(s: Sys, e: Event, i: nat)
    requires Shape(s) && ValidEvent(s, e) && i < |StackAfter(s, e)|
    ensures Live(s.stack, StackAfter(s, e)[i].id)
         || (StackAfter(s, e)[i].id == s.nextId && |StackAfter(s, e)| > |s.stack|)
  {
    var t := StackAfter(s, e)[i];
    match e
    case Create(_, _, _, _, _, _) => assert i < |s.stack| ==> t == s.stack[i];
    case Commit(_, _, _, _, _, _, _, _) => assert t.id == s.stack[i].id;
    case Raise(client, id, _) =>
      var at := IndexOf(s.stack, client, id);
      if at.Some? {
        var k := if i < at.value then i else if i < |s.stack| - 1 then i + 1 else at.value;
        assert t == s.stack[k];
      }
    case Destroy(client, id, _) =>
      var at := IndexOf(s.stack, client, id);
      if at.Some? {
        assert t == s.stack[if i < at.value then i else i + 1];
      }
    case Reap(_, _) => assert t in s.stack;
    case _ =>
  }

  lemma DeadIdStaysDead(s: Sys, e: Event, s': Sys, id: nat)
    requires Shape(s) && Next(s, e, s') && id < s.nextId && !Live(s.stack, id)
    ensures s.nextId <= s'.nextId && !Live(s'.stack, id)
  {
    if i: nat :| i < |s'.stack| && s'.stack[i].id == id {
      SurfacesAreOldOrNew(s, e, i);
    }
  }

  /** An id that has been handed out and is gone never names a surface again, in any continuation. */
  lemma {:induction false} IdsNeverReused(states: seq<Sys>, events: seq<Event>, j: nat, k: nat, id: nat)
    requires IsRun(states, events) && j <= k < |states|
    requires id < states[j].nextId && !Live(states[j].stack, id)
    ensures states[j].nextId <= states[k].nextId && !Live(states[k].stack, id)
    decreases k
  {
    if j < k {
      IdsNeverReused(states, events, j, k - 1, id);
      DeadIdStaysDeadAt(states, events, k - 1, id);
    }
  }

  lemma DeadIdStaysDeadAt(states: seq<Sys>, events: seq<Event>, k: nat, id: nat)
    requires IsRun(states, events) && k < |events|
    requires id < states[k].nextId && !Live(states[k].stack, id)
    ensures states[k].nextId <= states[k + 1].nextId && !Live(states[k + 1].stack, id)
  {
    ShapeAt(states, events, k);
    assert StepAt(states, events, k);
    DeadIdStaysDead(states[k], events[k], states[k + 1], id);
  }
}
