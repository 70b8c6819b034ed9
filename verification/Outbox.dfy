/**
 * services/displaysrv/main.rs: input events waiting for room at their client. One short ring per
 * client, and the claim that it is a queue: what a client has received, followed by what is held for
 * it, is exactly what was accepted for it, in order.
 */
module Outboxes {
  import opened Common
  import opened Surfaces
  import opened Display
  import opened Pointing
  import DisplayRuns

  const MAX_CLIENTS: nat := 6
  const OUTBOX_DEPTH: nat := 8

  datatype Message = Message(tag: nat, w0: nat, w1: nat, w2: nat, w3: nat)

  datatype Delivery = Sent | Held | Dropped

  // ---- One client's ring ----

  /** A fixed buffer read as a queue of `len` events from position `head`, around the end. */
  datatype Ring = Ring(slots: seq<Message>, head: nat, len: nat)
  {
    predicate Valid()
    {
      |slots| == OUTBOX_DEPTH && head < OUTBOX_DEPTH && len <= OUTBOX_DEPTH
    }

    /** The events held, oldest first. */
    function Contents(): (q: seq<Message>)
      requires Valid()
      ensures |q| == len
    {
      seq(len, i requires 0 <= i < len => slots[(head + i) % OUTBOX_DEPTH])
    }

    function Enqueue(event: Message): Ring
      requires Valid() && len < OUTBOX_DEPTH
    {
      Ring(slots[(head + len) % OUTBOX_DEPTH := event], head, len + 1)
    }

    function Dequeue(): Ring
      requires Valid() && len > 0
    {
      Ring(slots, (head + 1) % OUTBOX_DEPTH, len - 1)
    }
  }

  /** The ring is a queue, wherever its head has got to. */
  lemma EnqueueAppends(r: Ring, event: Message)
    requires r.Valid() && r.len < OUTBOX_DEPTH
    ensures r.Enqueue(event).Valid()
    ensures r.Enqueue(event).Contents() == r.Contents() + [event]
  {
    var q := r.Enqueue(event);
    forall i | 0 <= i < r.len ensures q.Contents()[i] == r.Contents()[i] {
      ModOnce(r.head + i, OUTBOX_DEPTH);
      ModOnce(r.head + r.len, OUTBOX_DEPTH);
    }
  }

  lemma DequeueDropsOldest(r: Ring)
    requires r.Valid() && r.len > 0
    ensures r.Dequeue().Valid()
    ensures r.Contents() == [r.slots[r.head]] + r.Dequeue().Contents()
  {
    var q := r.Dequeue();
    ModOnce(r.head + 1, OUTBOX_DEPTH);
    ModOnce(r.head, OUTBOX_DEPTH);
    forall i | 0 <= i < q.len ensures q.Contents()[i] == r.Contents()[i + 1] {
      ModOnce(q.head + i, OUTBOX_DEPTH);
      ModOnce(r.head + i + 1, OUTBOX_DEPTH);
    }
  }

  /** The oldest event held may as well be the last one sent. */
  lemma PassedOn(sent: seq<Message>, event: Message, rest: seq<Message>)
    ensures sent + ([event] + rest) == (sent + [event]) + rest
  {
  }

  /** How many events are held, over all clients. */
  function HeldTotal(rings: seq<Ring>): nat
  {
    if rings == [] then 0 else HeldTotal(rings[..|rings| - 1]) + rings[|rings| - 1].len
  }

  lemma {:induction false} TotalAfterUpdate(rings: seq<Ring>, c: nat, r: Ring)
    requires c < |rings|
    ensures HeldTotal(rings[c := r]) == HeldTotal(rings) - rings[c].len + r.len
    decreases |rings|
  {
    var last := |rings| - 1;
    if c < last {
      TotalAfterUpdate(rings[..last], c, r);
      assert rings[c := r][..last] == rings[..last][c := r];
    } else {
      assert rings[c := r][..last] == rings[..last];
    }
  }

  lemma {:induction false} NothingHeld(rings: seq<Ring>)
    requires forall i :: 0 <= i < |rings| ==> rings[i].len == 0
    ensures HeldTotal(rings) == 0
    decreases |rings|
  {
    if rings != [] {
      NothingHeld(rings[..|rings| - 1]);
    }
  }

  // ---- All of them ----

  /** One client: what is held for it, what it has been sent, and how often it had no room. */
  datatype ClientState = ClientState(ring: Ring, sent: seq<Message>, refusals: nat)

  function ClientStates(rings: seq<Ring>, sent: seq<seq<Message>>, refusals: seq<nat>): (all: seq<ClientState>)
    requires |rings| == |sent| == |refusals|
    ensures |all| == |rings|
    ensures forall c :: 0 <= c < |all| ==> all[c] == ClientState(rings[c], sent[c], refusals[c])
  {
    seq(|rings|, c requires 0 <= c < |rings| => ClientState(rings[c], sent[c], refusals[c]))
  }

  /** A queue that went out: nothing is left, or the endpoint has just had no room for the next. */
  ghost predicate Emptied(was: ClientState, now: ClientState)
  {
    now.refusals == was.refusals + if now.ring.len == 0 then 0 else 1
  }

  /** The first so many clients' queues went out, and the others were not touched. */
  ghost predicate FlushedTo(clients: nat, was: seq<ClientState>, now: seq<ClientState>)
  {
    && |was| == |now| == MAX_CLIENTS
    && forall c: nat :: c < MAX_CLIENTS ==> if c < clients then Emptied(was[c], now[c]) else now[c] == was[c]
  }

  lemma FlushedOneMore(client: nat, was: seq<ClientState>, mid: seq<ClientState>, now: seq<ClientState>)
    requires client < MAX_CLIENTS == |now| && FlushedTo(client, was, mid) && Emptied(mid[client], now[client])
    requires forall c: nat :: c < MAX_CLIENTS && c != client ==> now[c] == mid[c]
    ensures FlushedTo(client + 1, was, now)
  {
  }

  class Outbox {
    const rings: array<Ring>
    /** Per client: what its endpoint has taken, and what was accepted for it. */
    ghost var sent: seq<seq<Message>>
    ghost var accepted: seq<seq<Message>>
    /** Per client: how often its endpoint has had no room. */
    ghost var refusals: seq<nat>

    ghost predicate Valid()
      reads this, rings
    {
      && rings.Length == MAX_CLIENTS && |sent| == |accepted| == |refusals| == MAX_CLIENTS
      && forall c: nat :: c < MAX_CLIENTS ==>
           rings[c].Valid() && sent[c] + rings[c].Contents() == accepted[c]
    }

    constructor ()
      ensures Valid() && fresh(rings) && HeldTotal(rings[..]) == 0
    {
      var slots := seq(OUTBOX_DEPTH, _ => Message(0, 0, 0, 0, 0));
      rings := new Ring[MAX_CLIENTS](_ => Ring(slots, 0, 0));
      sent := seq(MAX_CLIENTS, _ => []);
      accepted := seq(MAX_CLIENTS, _ => []);
      refusals := seq(MAX_CLIENTS, _ => 0);
      new;
      NothingHeld(rings[..]);
    }

    /** The endpoint takes the event or refuses it; which, this model does not decide. */
    method Push(client: nat, event: Message) returns (ok: bool)
      requires client < |sent| == |refusals|
      modifies this`sent, this`refusals
      ensures sent == if ok then old(sent)[client := old(sent)[client] + [event]] else old(sent)
      ensures refusals == if ok then old(refusals) else old(refusals)[client := old(refusals)[client] + 1]
    {
      ok := *;
      if ok {
        sent := sent[client := sent[client] + [event]];
      } else {
        refusals := refusals[client := refusals[client] + 1];
      }
    }

    /**
     * Accepted behind everything accepted before it, or refused, exactly on arrival at a full queue. It waits
     * only behind others, or because the endpoint has just had no room for it.
     */
    method Send(client: nat, event: Message) returns (d: Delivery)
      requires Valid() && client < MAX_CLIENTS
      modifies this, rings
      ensures Valid()
      ensures d == Dropped <==> old(rings[client].len) == OUTBOX_DEPTH
      ensures d == Sent ==> old(rings[client].len) == 0 && rings[..] == old(rings[..])
      ensures sent == if d == Sent then old(sent)[client := old(sent)[client] + [event]] else old(sent)
      ensures refusals == if d == Held && old(rings[client].len) == 0
        then old(refusals)[client := old(refusals)[client] + 1] else old(refusals)
      ensures d == Dropped ==> rings[..] == old(rings[..]) && accepted == old(accepted)
      ensures d != Dropped ==> accepted == old(accepted)[client := old(accepted)[client] + [event]]
      ensures HeldTotal(rings[..]) == old(HeldTotal(rings[..])) + if d == Held then 1 else 0
    {
      if rings[client].len == 0 {
        var ok := Push(client, event);
        if ok {
          accepted := accepted[client := accepted[client] + [event]];
          return Sent;
        }
      }
      if rings[client].len == OUTBOX_DEPTH {
        return Dropped;
      }
      ghost var before := rings[..];
      EnqueueAppends(rings[client], event);
      rings[client] := rings[client].Enqueue(event);
      accepted := accepted[client := accepted[client] + [event]];
      assert rings[..] == before[client := rings[client]];
      TotalAfterUpdate(before, client, rings[client]);
      return Held;
    }

    /** Offer one client its oldest held event, which leaves the queue only if it was taken. */
    method OfferOldest(client: nat) returns (ok: bool)
      requires Valid() && client < MAX_CLIENTS && rings[client].len > 0
      modifies this, rings
      ensures Valid() && accepted == old(accepted)
      ensures rings[..] == if ok then old(rings[..])[client := old(rings[client]).Dequeue()] else old(rings[..])
      ensures refusals == if ok then old(refusals) else old(refusals)[client := old(refusals)[client] + 1]
      ensures forall c: nat :: c < MAX_CLIENTS && c != client ==> Clients()[c] == old(Clients()[c])
    {
      var ring := rings[client];
      DequeueDropsOldest(ring);
      ok := Push(client, ring.slots[ring.head]);
      if ok {
        PassedOn(old(sent[client]), ring.slots[ring.head], ring.Dequeue().Contents());
        assert sent[client] + ring.Dequeue().Contents() == accepted[client];
        rings[client] := ring.Dequeue();
      }
    }

    /** Everything there is to say of each client. */
    ghost function Clients(): (all: seq<ClientState>)
      requires Valid()
      reads this, rings
      ensures |all| == MAX_CLIENTS
      ensures forall c: nat :: c < MAX_CLIENTS ==> all[c] == ClientState(rings[c], sent[c], refusals[c])
    {
      ClientStates(rings[..], sent, refusals)
    }

    /** One client's queue goes out, all of it unless the endpoint refuses; the count says how much did. */
    method FlushClient(client: nat) returns (routed: nat)
      requires Valid() && client < MAX_CLIENTS
      modifies this, rings
      ensures Valid() && accepted == old(accepted)
      ensures HeldTotal(rings[..]) + routed == old(HeldTotal(rings[..]))
      ensures Emptied(old(Clients()[client]), Clients()[client])
      ensures forall c: nat :: c < MAX_CLIENTS && c != client ==> Clients()[c] == old(Clients()[c])
    {
      routed := 0;
      while rings[client].len > 0
        invariant Valid() && accepted == old(accepted) && refusals[client] == old(refusals[client])
        invariant HeldTotal(rings[..]) + routed == old(HeldTotal(rings[..]))
        invariant forall c: nat :: c < MAX_CLIENTS && c != client ==> Clients()[c] == old(Clients()[c])
        decreases rings[client].len
      {
        TotalAfterUpdate(rings[..], client, rings[client].Dequeue());
        var ok := OfferOldest(client);
        if !ok {
          break;
        }
        routed := routed + 1;
      }
    }

    /** Everything held goes out ahead of what comes behind it, client by client, as far as each has room. */
    method Flush(clients: nat) returns (routed: nat)
      requires Valid() && clients <= MAX_CLIENTS
      modifies this, rings
      ensures Valid() && accepted == old(accepted)
      ensures HeldTotal(rings[..]) + routed == old(HeldTotal(rings[..]))
      ensures FlushedTo(clients, old(Clients()), Clients())
    {
      routed := 0;
      for client := 0 to clients
        invariant Valid() && accepted == old(accepted)
        invariant HeldTotal(rings[..]) + routed == old(HeldTotal(rings[..]))
        invariant FlushedTo(client, old(Clients()), Clients())
      {
        ghost var before := Clients();
        var n := FlushClient(client);
        FlushedOneMore(client, old(Clients()), before, Clients());
        routed := routed + n;
      }
    }
  }

  // ---- Routing ----

  const TAG_INPUT_KEY: nat := 1
  const TAG_INPUT_POINTER: nat := 4
  const TAG_INPUT_BUTTON: nat := 5

  /** Buttons as the set of mask bits that are down. */
  datatype Pointer = Pointer(x: nat, y: nat, buttons: set<nat>, seen: bool)

  function ButtonBit(code: nat): nat
  {
    var c := code % 0x1_0000;
    if c == 0x110 then 1 else if c == 0x111 then 2 else if c == 0x112 then 4 else 0
  }

  function Mask(buttons: set<nat>): nat
  {
    (if 1 in buttons then 1 else 0) + (if 2 in buttons then 2 else 0) + (if 4 in buttons then 4 else 0)
  }

  const TWO_32: nat := 0x1_0000_0000

  /** Two values in one word: the low one masked to 32 bits, the high one shifted up by 32. */
  function Pack(low: nat, high: nat): nat
  {
    (high * TWO_32) % TWO_64 + low % TWO_32
  }

  function Low(word: nat): nat { word % TWO_32 }

  function High(word: nat): nat { word / TWO_32 }

  /** Each half comes back as its low 32 bits, so both come back whole exactly when both fit in them. */
  lemma PackRoundTrip(low: nat, high: nat)
    ensures Low(Pack(low, high)) == low % TWO_32 && High(Pack(low, high)) == high % TWO_32
    ensures Low(Pack(low, high)) == low && High(Pack(low, high)) == high <==> low < TWO_32 && high < TWO_32
  {
    var (q, r) := (high / TWO_32, high % TWO_32);
    assert high * TWO_32 == q * TWO_64 + r * TWO_32;
    ModUnique(high * TWO_32, TWO_64, q, r * TWO_32);
    ModUnique(Pack(low, high), TWO_32, r, low % TWO_32);
  }

  function PointerMessage(pointer: Pointer, s: Surface): Message
    requires Covers(s, Point(pointer.x, pointer.y)) && pointer.x < TWO_32 && pointer.y < TWO_32
  {
    Message(TAG_INPUT_POINTER, Pack(pointer.x - s.x, pointer.y - s.y), Pack(pointer.x, pointer.y),
            Mask(pointer.buttons), s.id)
  }

  /** The position a client is told is inside its surface, and names the spot the pointer is at. */
  lemma DeliveredPositionIsInside(pointer: Pointer, s: Surface)
    requires pointer.x < TWO_32 && pointer.y < TWO_32
    requires Covers(s, Point(pointer.x, pointer.y))
    ensures var m := PointerMessage(pointer, s);
      && Low(m.w0) < s.width && High(m.w0) < s.height
      && s.x + Low(m.w0) == pointer.x && s.y + High(m.w0) == pointer.y
  {
    PackRoundTrip(pointer.x - s.x, pointer.y - s.y);
  }

  /** The rest of it: the same spot on the screen, which surface it is, and one bit for each button. */
  lemma DeliveredStateIsThePointers(pointer: Pointer, s: Surface)
    requires pointer.x < TWO_32 && pointer.y < TWO_32
    requires Covers(s, Point(pointer.x, pointer.y))
    ensures var m := PointerMessage(pointer, s);
      && m.tag == TAG_INPUT_POINTER && m.w3 == s.id && Low(m.w1) == pointer.x && High(m.w1) == pointer.y
      && m.w2 < 8 && (m.w2 % 2 == 1 <==> 1 in pointer.buttons)
      && (m.w2 / 2 % 2 == 1 <==> 2 in pointer.buttons) && (m.w2 / 4 == 1 <==> 4 in pointer.buttons)
  {
    PackRoundTrip(pointer.x, pointer.y);
  }

  /** Where an event is bound, and what is sent there. */
  datatype Destination = Nowhere | To(client: nat, message: Message)

  /** The pointer after an event: moves are scaled to the screen, buttons go down and up. */
  function Moved(p: Pointer, event: Message, g: DisplayRuns.Geometry): Pointer
  {
    if event.tag == TAG_INPUT_POINTER then
      p.(x := ToPixels(event.w0, g.width), y := ToPixels(event.w1, g.height), seen := true)
    else if event.tag == TAG_INPUT_BUTTON then
      var bit := ButtonBit(event.w0);
      p.(buttons := if event.w1 != 0 then p.buttons + {bit} else p.buttons - {bit})
    else p
  }

  /** The left, right and middle buttons of the device: codes from 0x110 on, and bits from 1 on. */
  predicate IsButton(code: nat, bit: nat)
  {
    (code == 0x110 && bit == 1) || (code == 0x111 && bit == 2) || (code == 0x112 && bit == 4)
  }

  /**
   * A move puts the pointer at the position of the screen it names, of whatever size the screen is, and
   * leaves the buttons; a button event changes whether that button is down, no other, and no position.
   */
  lemma PointerFollows(p: Pointer, event: Message, g: DisplayRuns.Geometry)
    requires g.Valid()
    ensures var q := Moved(p, event, g);
      && (event.tag == TAG_INPUT_POINTER ==>
            && q.seen && q.buttons == p.buttons && g.OnScreen(Point(q.x, q.y))
            && AtFraction(q.x, event.w0, g.width) && AtFraction(q.y, event.w1, g.height))
      && (event.tag != TAG_INPUT_POINTER ==> q.x == p.x && q.y == p.y && q.seen == p.seen)
      && (event.tag != TAG_INPUT_POINTER && event.tag != TAG_INPUT_BUTTON ==> q == p)
      && forall bit :: bit in {1, 2, 4} && event.tag == TAG_INPUT_BUTTON ==>
           (bit in q.buttons <==> if IsButton(event.w0 % 0x1_0000, bit) then event.w1 != 0 else bit in p.buttons)
  {
    if event.tag == TAG_INPUT_POINTER {
      ToPixelsOnScreen(event.w0, g.width);
      ToPixelsOnScreen(event.w1, g.height);
      ToPixelsInProportion(Min(event.w0, AXIS_SCALE), g.width);
      ToPixelsInProportion(Min(event.w1, AXIS_SCALE), g.height);
    }
  }

  /** Pixel `x` is where that fraction of full scale falls on the axis, or its end for anything beyond. */
  predicate AtFraction(x: nat, fraction: nat, extent: nat)
  {
    var f := Min(fraction, AXIS_SCALE);
    x * AXIS_SCALE <= f * (extent - 1) < x * AXIS_SCALE + AXIS_SCALE
  }

  function MovedBy(p: Pointer, events: seq<Message>, g: DisplayRuns.Geometry): Pointer
  {
    if events == [] then p else Moved(MovedBy(p, events[..|events| - 1], g), events[|events| - 1], g)
  }

  /** A pointer event goes to the owner of the surface the display shows there, in that surface's coordinates. */
  ghost predicate PointerBound(stack: seq<Surface>, p: Pointer, dest: Destination)
  {
    match dest
    case Nowhere => !p.seen || IsTopmost(stack, Point(p.x, p.y), None)
    case To(client, message) =>
      && p.seen && p.x < TWO_32 && p.y < TWO_32
      && exists i: nat :: IsTopmost(stack, Point(p.x, p.y), Some(i))
           && client == stack[i].owner && message == PointerMessage(p, stack[i])
  }

  /** Keys go to the focus; pointer events to what is under the pointer; anything else nowhere. */
  ghost predicate Bound(stack: seq<Surface>, focus: Option<nat>, p: Pointer, event: Message, dest: Destination)
  {
    if event.tag == TAG_INPUT_KEY then
      dest == (match focus case None => Nowhere case Some(client) => To(client, event))
    else if event.tag == TAG_INPUT_POINTER || event.tag == TAG_INPUT_BUTTON then PointerBound(stack, p, dest)
    else dest == Nowhere
  }

  /** What became of an event: refused exactly when it had nowhere to go or its queue was full. */
  ghost predicate Handled(was: seq<Ring>, had: seq<seq<Message>>, dest: Destination, d: Delivery, now: seq<seq<Message>>)
  {
    match dest
    case Nowhere => d == Dropped && now == had
    case To(client, message) =>
      && client < |was| && client < |had|
      && (d == Dropped <==> was[client].len == OUTBOX_DEPTH)
      && now == if d == Dropped then had else had[client := had[client] + [message]]
  }

  /** The pointer's state goes where `PointerBound` says, and is refused only as `Handled` says. */
  method DeliverPointer(c: Compositor, pointer: Pointer, outbox: Outbox) returns (d: Delivery, ghost dest: Destination)
    requires c.Valid() && outbox.Valid() && c.surfaces as object != outbox.rings
    requires pointer.seen ==> pointer.x < TWO_32 && pointer.y < TWO_32
    requires forall i :: 0 <= i < c.count ==> c.surfaces[i].owner < MAX_CLIENTS
    modifies outbox, outbox.rings
    ensures outbox.Valid() && c.Stack() == old(c.Stack())
    ensures PointerBound(c.Stack(), pointer, dest)
    ensures Handled(old(outbox.rings[..]), old(outbox.accepted), dest, d, outbox.accepted)
    ensures HeldTotal(outbox.rings[..]) == old(HeldTotal(outbox.rings[..])) + if d == Held then 1 else 0
  {
    if !pointer.seen {
      return Dropped, Nowhere;
    }
    var index := c.TopmostAt(Point(pointer.x, pointer.y));
    if index.None? {
      return Dropped, Nowhere;
    }
    var surface := c.surfaces[index.value];
    dest := To(surface.owner, PointerMessage(pointer, surface));
    d := outbox.Send(surface.owner, PointerMessage(pointer, surface));
    assert IsTopmost(c.Stack(), Point(pointer.x, pointer.y), Some(index.value));
  }

  /** One turn of the loop of `pump_input`. */
  method Route(c: Compositor, g: DisplayRuns.Geometry, focus: Option<nat>, p0: Pointer, outbox: Outbox, event: Message)
    returns (pointer: Pointer, d: Delivery, ghost dest: Destination)
    requires c.Valid() && outbox.Valid() && g.Valid() && c.surfaces as object != outbox.rings
    requires focus.Some? ==> focus.value < MAX_CLIENTS
    requires forall i :: 0 <= i < c.count ==> c.surfaces[i].owner < MAX_CLIENTS
    requires p0.seen ==> g.OnScreen(Point(p0.x, p0.y))
    modifies outbox, outbox.rings
    ensures outbox.Valid() && c.Stack() == old(c.Stack())
    ensures pointer == Moved(p0, event, g) && (pointer.seen ==> g.OnScreen(Point(pointer.x, pointer.y)))
    ensures Bound(c.Stack(), focus, pointer, event, dest)
    ensures Handled(old(outbox.rings[..]), old(outbox.accepted), dest, d, outbox.accepted)
    ensures HeldTotal(outbox.rings[..]) == old(HeldTotal(outbox.rings[..])) + if d == Held then 1 else 0
  {
    pointer, d, dest := p0, Dropped, Nowhere;
    if event.tag == TAG_INPUT_KEY {
      if focus.Some? {
        dest := To(focus.value, event);
        d := outbox.Send(focus.value, event);
      }
    } else if event.tag == TAG_INPUT_POINTER {
      ToPixelsOnScreen(event.w0, g.width);
      ToPixelsOnScreen(event.w1, g.height);
      pointer := pointer.(x := ToPixels(event.w0, g.width), y := ToPixels(event.w1, g.height), seen := true);
      d, dest := DeliverPointer(c, pointer, outbox);
    } else if event.tag == TAG_INPUT_BUTTON {
      var bit := ButtonBit(event.w0);
      pointer := pointer.(buttons := if event.w1 != 0 then pointer.buttons + {bit} else pointer.buttons - {bit});
      d, dest := DeliverPointer(c, pointer, outbox);
    }
  }

  /** Of the events routed so far, those a client was sent or is owed, in order. */
  ghost function Kept(dests: seq<Destination>, ds: seq<Delivery>, client: nat): seq<Message>
    requires |dests| == |ds|
    decreases |dests|
  {
    if dests == [] then []
    else
      var n := |dests| - 1;
      Kept(dests[..n], ds[..n], client)
      + (if dests[n].To? && dests[n].client == client && ds[n] != Dropped then [dests[n].message] else [])
  }

  /** Every client has been given exactly what was bound for it and not refused, in the order it arrived. */
  ghost predicate InOrder(had: seq<seq<Message>>, now: seq<seq<Message>>, dests: seq<Destination>, ds: seq<Delivery>)
  {
    && |dests| == |ds| && |had| == |now| == MAX_CLIENTS
    && forall client: nat :: client < MAX_CLIENTS ==> now[client] == had[client] + Kept(dests, ds, client)
  }

  /** Each event is bound where it should be, with the pointer where the events up to it have moved it. */
  ghost predicate AllBound(stack: seq<Surface>, focus: Option<nat>, p0: Pointer, events: seq<Message>,
                           g: DisplayRuns.Geometry, dests: seq<Destination>)
    decreases |events|
  {
    && |dests| == |events|
    && (events == [] ||
        var n := |events| - 1;
        AllBound(stack, focus, p0, events[..n], g, dests[..n])
        && Bound(stack, focus, MovedBy(p0, events, g), events[n], dests[n]))
  }

  /** The whole record of a pump: every event bound where it should be, and delivered in order or refused. */
  ghost predicate Routed(stack: seq<Surface>, focus: Option<nat>, p0: Pointer, events: seq<Message>, g: DisplayRuns.Geometry,
                         had: seq<seq<Message>>, now: seq<seq<Message>>, dests: seq<Destination>, ds: seq<Delivery>)
  {
    AllBound(stack, focus, p0, events, g, dests) && InOrder(had, now, dests, ds)
  }

  lemma InOrderOneMore(had: seq<seq<Message>>, mid: seq<seq<Message>>, now: seq<seq<Message>>, was: seq<Ring>,
                       dests: seq<Destination>, ds: seq<Delivery>, dest: Destination, d: Delivery)
    requires InOrder(had, mid, dests, ds) && Handled(was, mid, dest, d, now)
    ensures InOrder(had, now, dests + [dest], ds + [d])
  {
    assert (dests + [dest])[..|dests|] == dests && (ds + [d])[..|ds|] == ds;
    forall client: nat | client < MAX_CLIENTS
      ensures now[client] == had[client] + Kept(dests + [dest], ds + [d], client)
    {
      assert mid[client] == had[client] + Kept(dests, ds, client);
    }
  }

  lemma RoutedOneMore(stack: seq<Surface>, focus: Option<nat>, p0: Pointer, events: seq<Message>, g: DisplayRuns.Geometry,
                      had: seq<seq<Message>>, mid: seq<seq<Message>>, now: seq<seq<Message>>, was: seq<Ring>,
                      dests: seq<Destination>, ds: seq<Delivery>, event: Message, dest: Destination, d: Delivery)
    requires Routed(stack, focus, p0, events, g, had, mid, dests, ds) && Handled(was, mid, dest, d, now)
    requires Bound(stack, focus, Moved(MovedBy(p0, events, g), event, g), event, dest)
    ensures Routed(stack, focus, p0, events + [event], g, had, now, dests + [dest], ds + [d])
    ensures MovedBy(p0, events + [event], g) == Moved(MovedBy(p0, events, g), event, g)
  {
    InOrderOneMore(had, mid, now, was, dests, ds, dest, d);
    var (all, dests') := (events + [event], dests + [dest]);
    assert all[..|all| - 1] == events && dests'[..|all| - 1] == dests;
  }

  /** How many of the events so far were sent on at once, and how many refused. */
  ghost predicate Counted(ds: seq<Delivery>, routed: nat, dropped: nat)
  {
    routed == multiset(ds)[Sent] && dropped == multiset(ds)[Dropped]
  }

  lemma CountedOneMore(ds: seq<Delivery>, routed: nat, dropped: nat, d: Delivery)
    requires Counted(ds, routed, dropped)
    ensures Counted(ds + [d], routed + if d == Sent then 1 else 0, dropped + if d == Dropped then 1 else 0)
  {
  }

  /** Everything known once these events have been routed. */
  ghost predicate Pumped(stack: seq<Surface>, focus: Option<nat>, p0: Pointer, g: DisplayRuns.Geometry,
                         had: seq<seq<Message>>, held0: nat, events: seq<Message>, pointer: Pointer, routed: nat, dropped: nat,
                         held: nat, now: seq<seq<Message>>, dests: seq<Destination>, ds: seq<Delivery>)
  {
    && pointer == MovedBy(p0, events, g) && (pointer.seen ==> g.OnScreen(Point(pointer.x, pointer.y)))
    && |ds| == |events| && Counted(ds, routed, dropped) && routed + dropped + held == held0 + |events|
    && Routed(stack, focus, p0, events, g, had, now, dests, ds)
  }

  /** One turn of the loop, counted. */
  method PumpOne(c: Compositor, g: DisplayRuns.Geometry, focus: Option<nat>, p: Pointer, outbox: Outbox, event: Message,
                 r: nat, n: nat, ghost p0: Pointer, ghost events: seq<Message>, ghost had: seq<seq<Message>>,
                 ghost held0: nat, ghost dests: seq<Destination>, ghost ds: seq<Delivery>)
    returns (pointer: Pointer, routed: nat, dropped: nat, ghost dests': seq<Destination>, ghost ds': seq<Delivery>)
    requires c.Valid() && outbox.Valid() && g.Valid() && c.surfaces as object != outbox.rings
    requires focus.Some? ==> focus.value < MAX_CLIENTS
    requires forall i :: 0 <= i < c.count ==> c.surfaces[i].owner < MAX_CLIENTS
    requires Pumped(c.Stack(), focus, p0, g, had, held0, events, p, r, n, HeldTotal(outbox.rings[..]), outbox.accepted, dests, ds)
    modifies outbox, outbox.rings
    ensures outbox.Valid() && c.Stack() == old(c.Stack())
    ensures Pumped(c.Stack(), focus, p0, g, had, held0, events + [event], pointer, routed, dropped,
                   HeldTotal(outbox.rings[..]), outbox.accepted, dests', ds')
  {
    ghost var (was, mid) := (outbox.rings[..], outbox.accepted);
    var d;
    ghost var dest;
    pointer, d, dest := Route(c, g, focus, p, outbox, event);
    RoutedOneMore(c.Stack(), focus, p0, events, g, had, mid, outbox.accepted, was, dests, ds, event, dest, d);
    CountedOneMore(ds, r, n, d);
    dests', ds' := dests + [dest], ds + [d];
    routed, dropped := r, n;
    match d {
      case Sent => routed := routed + 1;
      case Held =>
      case Dropped => dropped := dropped + 1;
    }
  }

  /**
   * All the driver's events, one by one. Nothing is lost unaccounted for: every event
   * taken is routed, dropped and counted, or still held; and each client gets its own in order.
   */
  method PumpInput(c: Compositor, g: DisplayRuns.Geometry, focus: Option<nat>, p0: Pointer, outbox: Outbox,
                   events: seq<Message>)
    returns (pointer: Pointer, routed: nat, dropped: nat, ghost dests: seq<Destination>, ghost ds: seq<Delivery>)
    requires c.Valid() && outbox.Valid() && g.Valid() && c.surfaces as object != outbox.rings
    requires focus.Some? ==> focus.value < MAX_CLIENTS
    requires forall i :: 0 <= i < c.count ==> c.surfaces[i].owner < MAX_CLIENTS
    requires p0.seen ==> g.OnScreen(Point(p0.x, p0.y))
    modifies outbox, outbox.rings
    ensures outbox.Valid()
    ensures pointer == MovedBy(p0, events, g) && (pointer.seen ==> g.OnScreen(Point(pointer.x, pointer.y)))
    ensures routed + dropped + HeldTotal(outbox.rings[..]) == old(HeldTotal(outbox.rings[..])) + |events|
    ensures |ds| == |events| && Counted(ds, routed, dropped)
    ensures Routed(old(c.Stack()), focus, p0, events, g, old(outbox.accepted), outbox.accepted, dests, ds)
  {
    pointer, routed, dropped, dests, ds := p0, 0, 0, [], [];
    ghost var (stack, had, held0) := (c.Stack(), outbox.accepted, HeldTotal(outbox.rings[..]));
    for k := 0 to |events|
      invariant outbox.Valid() && c.Stack() == stack
      invariant Pumped(stack, focus, p0, g, had, held0, events[..k], pointer, routed, dropped,
                       HeldTotal(outbox.rings[..]), outbox.accepted, dests, ds)
    {
      assert events[..k + 1] == events[..k] + [events[k]];
      pointer, routed, dropped, dests, ds := PumpOne(c, g, focus, pointer, outbox, events[k], routed, dropped,
                                                     p0, events[..k], had, held0, dests, ds);
    }
    assert events[..|events|] == events;
  }

  // ---- The loop ----

  /** What the server's loop keeps between turns: the queues, the pointer and the two counters. */
  class InputLoop {
    const g: DisplayRuns.Geometry
    const outbox: Outbox
    var pointer: Pointer
    var routed: nat
    var dropped: nat
    /** How many events have been taken from the driver since the start. */
    ghost var taken: nat

    /** Every event ever taken has been routed, has been dropped and counted, or is still held. */
    ghost predicate Valid()
      reads this, outbox, outbox.rings
    {
      && outbox.Valid() && g.Valid() && (pointer.seen ==> g.OnScreen(Point(pointer.x, pointer.y)))
      && routed + dropped + HeldTotal(outbox.rings[..]) == taken
    }

    constructor (geometry: DisplayRuns.Geometry)
      requires geometry.Valid()
      ensures Valid() && fresh(outbox) && fresh(outbox.rings) && taken == 0 && !pointer.seen && g == geometry
    {
      g := geometry;
      outbox := new Outbox();
      pointer, routed, dropped, taken := Pointer(0, 0, {}, false), 0, 0, 0;
    }

    /** What is held goes out first, as far as each client has room: nothing is taken, and only `routed` grows. */
    method Flush(clients: nat)
      requires Valid() && clients <= MAX_CLIENTS
      modifies this`routed, outbox, outbox.rings
      ensures Valid() && old(routed) <= routed && outbox.accepted == old(outbox.accepted)
      ensures FlushedTo(clients, old(outbox.Clients()), outbox.Clients())
    {
      var flushed := outbox.Flush(clients);
      routed := routed + flushed;
    }

    /** Then everything the driver has sent is taken and routed. */
    method Pump(c: Compositor, focus: Option<nat>, events: seq<Message>)
      returns (ghost dests: seq<Destination>, ghost ds: seq<Delivery>)
      requires Valid() && c.Valid() && c.surfaces as object != outbox.rings
      requires focus.Some? ==> focus.value < MAX_CLIENTS
      requires forall i :: 0 <= i < c.count ==> c.surfaces[i].owner < MAX_CLIENTS
      modifies this, outbox, outbox.rings
      ensures Valid() && taken == old(taken) + |events|
      ensures |ds| == |events| && old(routed) <= routed && old(dropped) <= dropped
      ensures Counted(ds, routed - old(routed), dropped - old(dropped))
      ensures pointer == MovedBy(old(pointer), events, g)
      ensures Routed(old(c.Stack()), focus, old(pointer), events, g, old(outbox.accepted), outbox.accepted, dests, ds)
    {
      var r, d;
      pointer, r, d, dests, ds := PumpInput(c, g, focus, pointer, outbox, events);
      routed, dropped, taken := routed + r, dropped + d, taken + |events|;
    }
  }
}
