/**
 * services/displaysrv/main.rs, as one client sees it. A surface whose client commits honestly is shown
 * right wherever it is uppermost, whatever every other client asks for, writes, or dies of; and it is
 * the client's own doing alone that can end this.
 */
module ShownRight {
  import opened Common
  import opened Surfaces
  import opened DisplayRuns

  // ---- Whose surface is on top ----

  lemma {:induction false} TopOfOthers(stack: seq<Surface>, owner: nat, p: Point, i: nat) returns (j: nat)
    requires IsTopmost(Others(stack, owner), p, Some(i))
    requires forall k :: 0 <= k < |stack| && stack[k].owner == owner ==> !Covers(stack[k], p)
    ensures IsTopmost(stack, p, Some(j)) && stack[j] == Others(stack, owner)[i]
    decreases |stack|
  {
    var top := |stack| - 1;
    var lower := Others(stack[..top], owner);
    if Covers(stack[top], p) {
      j := top;
      assert Others(stack, owner)[|lower|] == stack[top];
    } else {
      assert forall k :: 0 <= k < |lower| ==> Others(stack, owner)[k] == lower[k];
      j := TopOfOthers(stack[..top], owner, p, i);
    }
  }

  /** Where a step declares nothing, what is uppermost afterwards is new or was uppermost before. */
  lemma TopKept(s: Sys, e: Event, p: Point, i: nat) returns (j: nat)
    requires Shape(s) && s.g.OnScreen(p) && !InStale(Declared(s, e), p)
    requires IsTopmost(StackAfter(s, e), p, Some(i)) && StackAfter(s, e)[i].id < s.nextId
    ensures IsTopmost(s.stack, p, Some(j))
    ensures StackAfter(s, e)[i] == s.stack[j].(pixels := StackAfter(s, e)[i].pixels)
    ensures !e.Commit? ==> StackAfter(s, e)[i] == s.stack[j]
    ensures e.Commit? ==> i == j
  {
    if e.Raise? || e.Destroy? {
      j := TopKeptByEdit(s, e, p, i);
    } else if e.Reap? {
      j := TopKeptByReap(s, e, p, i);
    } else {
      j := i;
      if e.Commit? {
        TopKeptByCommit(s, e, p, i);
      } else {
        TopKeptUnlessNew(s, e, p, i);
      }
    }
  }

  lemma TopKeptUnlessNew(s: Sys, e: Event, p: Point, i: nat)
    requires e.Create? || e.ClientWrite? || e.Repaint?
    requires IsTopmost(StackAfter(s, e), p, Some(i)) && StackAfter(s, e)[i].id < s.nextId
    ensures IsTopmost(s.stack, p, Some(i)) && StackAfter(s, e)[i] == s.stack[i]
  {
    assert forall k :: 0 <= k < |s.stack| ==> StackAfter(s, e)[k] == s.stack[k];
  }

  lemma TopKeptByCommit(s: Sys, e: Event, p: Point, i: nat)
    requires e.Commit? && IsTopmost(StackAfter(s, e), p, Some(i))
    ensures IsTopmost(s.stack, p, Some(i)) && StackAfter(s, e)[i] == s.stack[i].(pixels := StackAfter(s, e)[i].pixels)
  {
    var t := StackAfter(s, e);
    assert |t| == |s.stack| && forall k :: 0 <= k < |t| ==> t[k] == s.stack[k].(pixels := t[k].pixels);
    forall k | 0 <= k < |t| ensures Covers(t[k], p) <==> Covers(s.stack[k], p) {
    }
  }

  lemma TopKeptByEdit(s: Sys, e: Event, p: Point, i: nat) returns (j: nat)
    requires (e.Raise? || e.Destroy?) && s.g.OnScreen(p) && !InStale(Declared(s, e), p)
    requires IsTopmost(StackAfter(s, e), p, Some(i))
    ensures IsTopmost(s.stack, p, Some(j)) && StackAfter(s, e)[i] == s.stack[j]
  {
    var at := IndexOf(s.stack, e.client, e.id);
    j := i;
    if at.Some? {
      ClipExact(SurfaceRect(s.stack[at.value]), s.g.width, s.g.height);
      assert SurfaceRect(s.stack[at.value]).Has(p) <==> Covers(s.stack[at.value], p);
      j := if i < at.value then i else i + 1;
      TopUnderGap(s.stack, at.value, p, i);
    }
  }

  lemma TopKeptByReap(s: Sys, e: Event, p: Point, i: nat) returns (j: nat)
    requires Shape(s) && e.Reap? && s.g.OnScreen(p) && !InStale(Declared(s, e), p)
    requires IsTopmost(StackAfter(s, e), p, Some(i))
    ensures IsTopmost(s.stack, p, Some(j)) && StackAfter(s, e)[i] == s.stack[j]
  {
    if Damage(s, e).Some? {
      ClipExact(Damage(s, e).value, s.g.width, s.g.height);
    }
    forall k: nat | k < |s.stack| && s.stack[k].owner == e.client ensures !Covers(s.stack[k], p) {
      BackedIsBounded(s.stack[k], s.mem);
      if Covers(s.stack[k], p) {
        OwnerBoundsCover(s.stack, e.client, k, p);
      }
    }
    j := TopOfOthers(s.stack, e.client, p, i);
  }

  /** Taking out, or moving to the top, a surface that does not cover `p` leaves what is uppermost there. */
  lemma TopUnderGap(stack: seq<Surface>, at: nat, p: Point, i: nat)
    requires at < |stack| && !Covers(stack[at], p)
    requires IsTopmost(Without(stack, at), p, Some(i)) || IsTopmost(Raised(stack, at), p, Some(i))
    ensures var j := if i < at then i else i + 1;
      IsTopmost(stack, p, Some(j)) && i < |stack| - 1 && stack[j] == Without(stack, at)[i] == Raised(stack, at)[i]
  {
    var j := if i < at then i else i + 1;
    var (gone, last) := (Without(stack, at), Raised(stack, at));
    assert last[|gone|] == stack[at];
    forall k | j < k < |stack| ensures !Covers(stack[k], p) {
      if k != at {
        var m := if k < at then k else k - 1;
        assert gone[m] == last[m] == stack[k];
      }
    }
  }

  // ---- What a client must keep to ----

  /** A commit that brings this surface an accepted buffer. */
  predicate Swaps(s: Sys, e: Event, i: nat)
  {
    && e.Commit? && IndexOf(s.stack, e.client, e.id) == Some(i) && e.cap != 0
    && AcceptBuffer(s.mem, e.cap, s.stack[i].width, s.stack[i].height).Ok?
  }

  /** The new buffer differs from the old one only inside a damage rectangle that is not refused. */
  ghost predicate Honest(s: Sys, e: Event, i: nat)
    requires e.Commit? && i < |s.stack|
  {
    DamageOk(s.stack[i], e.dx, e.dy, e.dw, e.dh)
    && AgreeOutside(s.stack[i], s.mem, e.cap, e.dx, e.dy, e.dw, e.dh)
  }

  /** The step changes what surface `i` shows without saying where: its own client's doing, and only that. */
  ghost predicate Breaks(s: Sys, e: Event, i: nat)
    requires i < |s.stack|
  {
    || (Swaps(s, e, i) && !Honest(s, e, i))
    || (e.ClientWrite? && s.stack[i].pixels in s.mem
        && (s.stack[i].pixels !in e.mem || e.mem[s.stack[i].pixels] != s.mem[s.stack[i].pixels]))
  }

  /** A commit whose damage is the whole surface. */
  predicate Completes(s: Sys, e: Event, i: nat)
  {
    && e.Commit? && IndexOf(s.stack, e.client, e.id) == Some(i) && Swapped(s, i, e.cap).Some?
    && e.dx == 0 && e.dy == 0 && s.stack[i].width <= e.dw && s.stack[i].height <= e.dh
  }

  /** A surface becomes good with a complete commit and stays good until its own client breaks it. */
  ghost predicate GoodNext(s: Sys, e: Event, good: iset<nat>, id: nat)
  {
    exists i :: 0 <= i < |s.stack| && s.stack[i].id == id && ((id in good && !Breaks(s, e, i)) || Completes(s, e, i))
  }

  ghost function GoodAfter(s: Sys, e: Event, good: iset<nat>): iset<nat>
  {
    iset id | GoodNext(s, e, good, id)
  }

  /** No pixel that is still undeclared has a good surface uppermost. */
  ghost predicate Clean(s: Sys, pending: Pending, good: iset<nat>)
  {
    && (forall id :: id in good ==> id < s.nextId)
    && forall p: Point, i: nat :: p in pending && s.g.OnScreen(p) && IsTopmost(s.stack, p, Some(i)) ==>
         s.stack[i].id !in good
  }

  // ---- And then it is shown right ----

  lemma HonestPixelKept(s: Sys, e: Event, p: Point, j: nat)
    requires Shape(s) && j < |s.stack| && Swaps(s, e, j) && Honest(s, e, j) && Covers(s.stack[j], p)
    requires s.g.OnScreen(p) && !InStale(Declared(s, e), p)
    ensures Backed(s.stack[j].(pixels := e.cap), s.mem)
    ensures At(s.stack[j], s.mem, p) == At(s.stack[j].(pixels := e.cap), s.mem, p)
  {
    var t := s.stack[j];
    BackedIsBounded(t, s.mem);
    ClipExact(DamageRect(t, e.dx, e.dy, e.dw, e.dh), s.g.width, s.g.height);
  }

  /** What an unbroken surface holds at a pixel where the step declares nothing is what it held before. */
  lemma UnbrokenPixelKept(s: Sys, e: Event, p: Point, i: nat, j: nat)
    requires Shape(s) && ValidEvent(s, e) && s.g.OnScreen(p) && !InStale(Declared(s, e), p)
    requires j < |s.stack| && Covers(s.stack[j], p) && !Breaks(s, e, j) && i < |StackAfter(s, e)|
    requires StackAfter(s, e)[i] == s.stack[j].(pixels := StackAfter(s, e)[i].pixels)
    requires (!e.Commit? ==> StackAfter(s, e)[i] == s.stack[j]) && (e.Commit? ==> i == j)
    ensures Backed(StackAfter(s, e)[i], MemAfter(s, e))
    ensures At(StackAfter(s, e)[i], MemAfter(s, e), p) == At(s.stack[j], s.mem, p)
  {
    StackStaysBacked(s, e);
    if e.Commit? {
      var at := IndexOf(s.stack, e.client, e.id);
      if at == Some(j) && Swaps(s, e, j) {
        HonestPixelKept(s, e, p, j);
      } else {
        assert StackAfter(s, e)[j] == s.stack[j];
      }
    }
  }

  /** What a good surface shows at a pixel where the step declares nothing is what it showed before. */
  lemma GoodPixelKept(s: Sys, e: Event, s': Sys, p: Point, i: nat, j: nat)
    requires Shape(s) && Next(s, e, s') && Shape(s') && s.g.OnScreen(p) && !InStale(Declared(s, e), p)
    requires IsTopmost(s'.stack, p, Some(i)) && IsTopmost(s.stack, p, Some(j)) && !Breaks(s, e, j)
    requires s'.stack[i] == s.stack[j].(pixels := s'.stack[i].pixels)
    requires (!e.Commit? ==> s'.stack[i] == s.stack[j]) && (e.Commit? ==> i == j)
    ensures Render(s'.stack, s'.mem, p) == Render(s.stack, s.mem, p)
  {
    RenderShowsTopmost(s.stack, s.mem, p, Some(j));
    RenderShowsTopmost(s'.stack, s'.mem, p, Some(i));
    UnbrokenPixelKept(s, e, p, i, j);
  }

  /** A complete commit declares every pixel of its surface that is on the screen. */
  lemma CompletesDeclares(s: Sys, e: Event, j: nat, p: Point)
    requires Shape(s) && j < |s.stack| && Completes(s, e, j) && s.g.OnScreen(p) && Covers(s.stack[j], p)
    ensures InStale(Declared(s, e), p)
  {
    var t := s.stack[j];
    BackedIsBounded(t, s.mem);
    ClipExact(DamageRect(t, e.dx, e.dy, e.dw, e.dh), s.g.width, s.g.height);
  }

  /** So what is uppermost at a pixel still undeclared is not good. */
  lemma NotGoodAfter(s: Sys, e: Event, s': Sys, pending: Pending, good: iset<nat>, p: Point, i: nat, j: nat)
    requires Inv(s, pending) && Next(s, e, s') && Shape(s') && Clean(s, pending, good)
    requires p in PendingAfter(s, e, s', pending) && s.g.OnScreen(p)
    requires IsTopmost(s'.stack, p, Some(i)) && IsTopmost(s.stack, p, Some(j))
    requires s'.stack[i] == s.stack[j].(pixels := s'.stack[i].pixels)
    requires (!e.Commit? ==> s'.stack[i] == s.stack[j]) && (e.Commit? ==> i == j)
    ensures s.stack[j].id !in GoodAfter(s, e, good)
  {
    if k :| 0 <= k < |s.stack| && s.stack[k].id == s.stack[j].id
            && ((s.stack[j].id in good && !Breaks(s, e, k)) || Completes(s, e, k)) {
      assert k == j;
      if Completes(s, e, j) {
        CompletesDeclares(s, e, j, p);
      } else if p !in pending {
        GoodPixelKept(s, e, s', p, i, j);
      }
    }
  }

  /** On every step, whoever takes it: a good surface that is not broken stays clean. */
  lemma CleanKept(s: Sys, e: Event, s': Sys, pending: Pending, good: iset<nat>)
    requires Inv(s, pending) && Next(s, e, s') && Clean(s, pending, good)
    ensures Shape(s') && Clean(s', PendingAfter(s, e, s', pending), GoodAfter(s, e, good))
  {
    ShapeKept(s, e, s');
    var (pending', good') := (PendingAfter(s, e, s', pending), GoodAfter(s, e, good));
    forall p: Point, i: nat | p in pending' && s'.g.OnScreen(p) && IsTopmost(s'.stack, p, Some(i))
      ensures s'.stack[i].id !in good'
    {
      if s'.stack[i].id < s.nextId {
        var j := TopKept(s, e, p, i);
        NotGoodAfter(s, e, s', pending, good, p, i, j);
      }
    }
  }

  /** Wherever a good surface is uppermost, the display shows its pixel. */
  ghost predicate ShowsGood(s: Sys, good: iset<nat>)
    requires Shape(s)
  {
    forall p: Point, i: nat :: s.g.OnScreen(p) && IsTopmost(s.stack, p, Some(i)) && s.stack[i].id in good ==>
      At(s.stack[i], s.mem, p) == Some(Pixel(s.g, s.fb, s.shown, p))
  }

  lemma PresentedShowsGood(s: Sys, e: Event, s': Sys, pending: Pending, good: iset<nat>)
    requires Inv(s, pending) && Next(s, e, s') && Clean(s, pending, good) && Presented(s, e)
    ensures Shape(s') && ShowsGood(s', GoodAfter(s, e, good))
  {
    CleanKept(s, e, s', pending, good);
    forall p: Point, i: nat | s'.g.OnScreen(p) && IsTopmost(s'.stack, p, Some(i)) && s'.stack[i].id in GoodAfter(s, e, good)
      ensures At(s'.stack[i], s'.mem, p) == Some(Pixel(s'.g, s'.fb, s'.shown, p))
    {
      PresentedStepShowsRender(s, e, s', pending, p);
      RenderShowsTopmost(s'.stack, s'.mem, p, Some(i));
    }
  }

  // ---- Every run ----

  ghost function GoodAt(states: seq<Sys>, events: seq<Event>, k: nat): iset<nat>
    requires |states| == |events| + 1 && k < |states|
  {
    if k == 0 then iset{} else GoodAfter(states[k - 1], events[k - 1], GoodAt(states, events, k - 1))
  }

  lemma {:induction false} EveryRunStaysClean(states: seq<Sys>, events: seq<Event>, k: nat)
    requires IsRun(states, events) && k < |states|
    ensures Clean(states[k], PendingAt(states, events, k), GoodAt(states, events, k))
  {
    if k > 0 {
      EveryRunStaysClean(states, events, k - 1);
      EveryRunKeepsInv(states, events, k - 1);
      assert StepAt(states, events, k - 1);
      CleanKept(states[k - 1], events[k - 1], states[k], PendingAt(states, events, k - 1), GoodAt(states, events, k - 1));
    }
  }

  /**
   * Over every run of every client: whenever a frame reaches the display, each surface that has once been
   * committed whole, and whose own client has kept to honest commits since, is shown right wherever it is
   * uppermost. No assumption is made of anyone else.
   */
  lemma GoodSurfacesShownRight(states: seq<Sys>, events: seq<Event>, k: nat)
    requires IsRun(states, events) && k < |events| && Presented(states[k], events[k])
    ensures Shape(states[k + 1]) && ShowsGood(states[k + 1], GoodAt(states, events, k + 1))
  {
    EveryRunStaysClean(states, events, k);
    EveryRunKeepsInv(states, events, k);
    assert StepAt(states, events, k);
    PresentedShowsGood(states[k], events[k], states[k + 1], PendingAt(states, events, k), GoodAt(states, events, k));
  }
}
