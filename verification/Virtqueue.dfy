/**
 * services/inputsrv/main.rs: the event queue, shared with a device. A split virtqueue as sections 2.7.6
 * and 2.7.8 of VIRTIO 1.2 lay it out: the driver publishes buffers in the available ring, the device
 * returns them through the used ring, and both index fields are sixteen bits and wrap.
 *
 * The device is any that conforms: it takes available entries in order, returns each buffer it holds
 * once, in whatever order it likes, and may act between any two of the driver's steps.
 */
module Virtqueue {
  import opened Common

  const QUEUE_SIZE: nat := 8
  const TWO_16: nat := 0x1_0000

  /** The size written to `QUEUE_NUM`, from the maximum the device reports truncated to sixteen bits. */
  function NegotiatedSize(max: nat): nat
  {
    Min(QUEUE_SIZE, max % TWO_16)
  }

  /**
   * The size is the largest both sides allow, and so the eight entries the driver uses exactly when the
   * device offers at least eight in those sixteen bits.
   */
  lemma NegotiatesEight(max: nat)
    ensures NegotiatedSize(max) <= QUEUE_SIZE && NegotiatedSize(max) <= max % TWO_16
    ensures NegotiatedSize(max) == QUEUE_SIZE || NegotiatedSize(max) == max % TWO_16
    ensures NegotiatedSize(max) == QUEUE_SIZE <==> max % TWO_16 >= QUEUE_SIZE
  {
  }

  // ---- State ----

  /** Where the driver is inside `drain`. `until` is how far the used ring had got when it looked. */
  datatype Phase =
    | Idle
    | Draining(until: nat)
    | Holding(until: nat, id: nat)
    | Written(until: nat, id: nat)
    | Published(until: nat)

  /** Who has a buffer: an entry of the available ring, the device, an unread used entry, or the driver. */
  datatype Place = Available(j: nat) | Device | Used(j: nat) | Driver

  /**
   * The rings, with every index counted without wrapping: buffers published, taken by the device,
   * returned by it, and read back. `device` is what the device holds, `place` where each descriptor is.
   * `EventQueue` below runs the same steps on the sixteen-bit fields.
   */
  datatype Queue = Queue(
    avail: seq<nat>, used: seq<nat>, phase: Phase, device: set<nat>,
    published: nat, taken: nat, returned: nat, read: nat, place: seq<Place>)

  function Slot(j: nat): (i: nat)
    ensures i < QUEUE_SIZE
  {
    j % QUEUE_SIZE
  }

  lemma SlotsDistinct(j: nat, k: nat)
    requires j < k < j + QUEUE_SIZE
    ensures Slot(j) != Slot(k)
  {
  }

  lemma SlotRecurs(j: nat)
    ensures Slot(j + QUEUE_SIZE) == Slot(j)
  {
  }

  // ---- Steps ----

  datatype Step =
    | Enter
    | ReadUsed
    | WriteAvail
    | Publish
    | Advance
    | Leave
    | DeviceTake
    | DeviceReturn(id: nat)

  predicate Enabled(q: Queue, s: Step)
  {
    match s
    case Enter => q.phase.Idle?
    case ReadUsed => q.phase.Draining? && q.read != q.phase.until
    case WriteAvail => q.phase.Holding?
    case Publish => q.phase.Written?
    case Advance => q.phase.Published?
    case Leave => q.phase.Draining? && q.read == q.phase.until
    case DeviceTake => q.taken != q.published
    case DeviceReturn(id) => id in q.device
  }

  ghost predicate Shape(q: Queue)
  {
    && |q.avail| == QUEUE_SIZE && |q.used| == QUEUE_SIZE && |q.place| == QUEUE_SIZE
    && (forall id :: id in q.device ==> id < QUEUE_SIZE)
    && (forall i :: 0 <= i < QUEUE_SIZE ==> q.avail[i] < QUEUE_SIZE)
    && (InHand(q) ==> q.phase.id < QUEUE_SIZE)
  }

  predicate InHand(q: Queue)
  {
    q.phase.Holding? || q.phase.Written?
  }

  /** The step has a meaning: rings of the right size, and a used entry that names a descriptor. */
  ghost predicate Meaningful(q: Queue, s: Step)
  {
    Shape(q) && Enabled(q, s) && (s.ReadUsed? ==> q.used[Slot(q.read)] < QUEUE_SIZE)
  }

  ghost function Apply(q: Queue, s: Step): Queue
    requires Meaningful(q, s)
  {
    match s
    case Enter => q.(phase := Draining(q.returned))
    case ReadUsed =>
      var id := q.used[Slot(q.read)];
      q.(phase := Holding(q.phase.until, id), place := q.place[id := Driver])
    case WriteAvail =>
      q.(avail := q.avail[Slot(q.read) := q.phase.id], phase := Written(q.phase.until, q.phase.id))
    case Publish =>
      q.(phase := Published(q.phase.until), published := q.published + 1,
         place := q.place[q.phase.id := Available(q.published)])
    case Advance => q.(phase := Draining(q.phase.until), read := q.read + 1)
    case Leave => q.(phase := Idle)
    case DeviceTake =>
      var id := q.avail[Slot(q.taken)];
      q.(device := q.device + {id}, taken := q.taken + 1, place := q.place[id := Device])
    case DeviceReturn(id) =>
      q.(used := q.used[Slot(q.returned) := id], device := q.device - {id}, returned := q.returned + 1,
         place := q.place[id := Used(q.returned)])
  }

  // ---- The invariant ----

  /** The first used entry the driver has not looked at. */
  function Unread(q: Queue): nat
  {
    if q.phase.Idle? || q.phase.Draining? then q.read else q.read + 1
  }

  /** Outside the publish step the driver has eight buffers more out than it has read back. */
  ghost predicate Counters(q: Queue)
  {
    && Unread(q) <= q.returned <= q.taken <= q.published
    && q.published == q.read + QUEUE_SIZE + (if q.phase.Published? then 1 else 0)
    && |q.device| == q.taken - q.returned
    && (!q.phase.Idle? ==> Unread(q) <= q.phase.until <= q.returned)
  }

  ghost predicate AvailAt(q: Queue, j: nat)
    requires Shape(q)
  {
    q.place[q.avail[Slot(j)]] == Available(j)
  }

  ghost predicate UsedAt(q: Queue, j: nat)
    requires Shape(q)
  {
    q.used[Slot(j)] < QUEUE_SIZE && q.place[q.used[Slot(j)]] == Used(j)
  }

  /** Everything a holder has is placed with it. */
  ghost predicate Held(q: Queue)
    requires Shape(q)
  {
    && (forall j: nat :: q.taken <= j < q.published ==> AvailAt(q, j))
    && (forall j: nat :: Unread(q) <= j < q.returned ==> UsedAt(q, j))
    && (forall id :: id in q.device ==> q.place[id] == Device)
    && (InHand(q) ==> q.place[q.phase.id] == Driver)
    && (q.phase.Written? ==> q.avail[Slot(q.read)] == q.phase.id)
  }

  /** Everything placed with a holder it has: with `Held`, every descriptor has exactly one holder. */
  ghost predicate Placed(q: Queue)
    requires Shape(q)
  {
    forall id: nat :: id < QUEUE_SIZE ==> PlacedOk(q, id)
  }

  ghost predicate PlacedOk(q: Queue, id: nat)
    requires Shape(q) && id < QUEUE_SIZE
  {
    match q.place[id]
    case Available(j) => q.taken <= j < q.published && q.avail[Slot(j)] == id
    case Used(j) => Unread(q) <= j < q.returned && q.used[Slot(j)] == id
    case Device => id in q.device
    case Driver => InHand(q) && q.phase.id == id
  }

  ghost predicate Inv(q: Queue)
  {
    Shape(q) && Counters(q) && Held(q) && Placed(q)
  }

  // ---- Every step keeps it ----

  /** The entry about to be read is a real one, so the bound check in `handle_buffer` never fires. */
  lemma ReadIsValid(q: Queue)
    requires Inv(q) && Enabled(q, ReadUsed)
    ensures UsedAt(q, q.read)
  {
  }

  lemma ReadUsedKeeps(q: Queue)
    requires Inv(q) && Enabled(q, ReadUsed)
    ensures q.used[Slot(q.read)] < QUEUE_SIZE && Inv(Apply(q, ReadUsed))
  {
    ReadIsValid(q);
    var q' := Apply(q, ReadUsed);
    forall j: nat | q'.taken <= j < q'.published ensures AvailAt(q', j) {
      assert AvailAt(q, j);
    }
    forall j: nat | Unread(q') <= j < q'.returned ensures UsedAt(q', j) {
      assert UsedAt(q, j);
    }
    forall x: nat | x < QUEUE_SIZE ensures PlacedOk(q', x) {
      assert PlacedOk(q, x);
    }
  }

  /** The slot a republish writes is the next one to publish, and not one the device still has to take. */
  lemma RepublishIsSafe(q: Queue, j: nat)
    requires Inv(q) && q.phase.Holding? && q.taken <= j < q.published
    ensures Slot(q.read) == Slot(q.published) && Slot(q.read) != Slot(j)
  {
    SlotRecurs(q.read);
    SlotsDistinct(j, q.published);
  }

  lemma WriteAvailKeeps(q: Queue)
    requires Inv(q) && Enabled(q, WriteAvail)
    ensures Inv(Apply(q, WriteAvail))
  {
    var q' := Apply(q, WriteAvail);
    forall j: nat | q'.taken <= j < q'.published ensures AvailAt(q', j) {
      RepublishIsSafe(q, j);
      assert AvailAt(q, j);
    }
    forall j: nat | Unread(q') <= j < q'.returned ensures UsedAt(q', j) {
      assert UsedAt(q, j);
    }
    forall x: nat | x < QUEUE_SIZE ensures PlacedOk(q', x) {
      assert PlacedOk(q, x);
      if q.place[x].Available? {
        RepublishIsSafe(q, q.place[x].j);
      }
    }
  }

  lemma PublishKeeps(q: Queue)
    requires Inv(q) && Enabled(q, Publish)
    ensures Inv(Apply(q, Publish))
  {
    SlotRecurs(q.read);
    var q' := Apply(q, Publish);
    forall j: nat | q'.taken <= j < q'.published ensures AvailAt(q', j) {
      assert j < q.published ==> AvailAt(q, j);
    }
    forall j: nat | Unread(q') <= j < q'.returned ensures UsedAt(q', j) {
      assert UsedAt(q, j);
    }
    forall x: nat | x < QUEUE_SIZE ensures PlacedOk(q', x) {
      assert PlacedOk(q, x);
    }
  }

  lemma QuietKeeps(q: Queue, s: Step)
    requires Inv(q) && Enabled(q, s) && (s.Enter? || s.Advance? || s.Leave?)
    ensures Inv(Apply(q, s))
  {
    var q' := Apply(q, s);
    forall j: nat | q'.taken <= j < q'.published ensures AvailAt(q', j) {
      assert AvailAt(q, j);
    }
    forall j: nat | Unread(q') <= j < q'.returned ensures UsedAt(q', j) {
      assert UsedAt(q, j);
    }
    forall x: nat | x < QUEUE_SIZE ensures PlacedOk(q', x) {
      assert PlacedOk(q, x);
    }
  }

  lemma DeviceTakeKeeps(q: Queue)
    requires Inv(q) && Enabled(q, DeviceTake)
    ensures Inv(Apply(q, DeviceTake))
  {
    var q' := Apply(q, DeviceTake);
    assert AvailAt(q, q.taken);
    var id := q.avail[Slot(q.taken)];
    assert id !in q.device;
    forall j: nat | q'.taken <= j < q'.published ensures AvailAt(q', j) {
      assert AvailAt(q, j);
    }
    forall j: nat | Unread(q') <= j < q'.returned ensures UsedAt(q', j) {
      assert UsedAt(q, j);
    }
    forall x: nat | x < QUEUE_SIZE ensures PlacedOk(q', x) {
      assert PlacedOk(q, x);
    }
  }

  lemma DeviceReturnKeeps(q: Queue, id: nat)
    requires Inv(q) && Enabled(q, DeviceReturn(id))
    ensures Inv(Apply(q, DeviceReturn(id)))
  {
    var q' := Apply(q, DeviceReturn(id));
    assert q.place[id] == Device;
    assert q.device == q'.device + {id};
    forall j: nat | q'.taken <= j < q'.published ensures AvailAt(q', j) {
      assert AvailAt(q, j);
    }
    forall j: nat | Unread(q') <= j < q'.returned ensures UsedAt(q', j) {
      if j < q.returned {
        assert UsedAt(q, j);
        SlotsDistinct(j, q.returned);
      }
    }
    forall x: nat | x < QUEUE_SIZE ensures PlacedOk(q', x) {
      assert PlacedOk(q, x);
      if q.place[x].Used? {
        SlotsDistinct(q.place[x].j, q.returned);
      }
    }
  }

  lemma StepKeepsInv(q: Queue, s: Step)
    requires Inv(q) && Enabled(q, s)
    ensures Meaningful(q, s) && Inv(Apply(q, s))
  {
    match s
    case ReadUsed => ReadUsedKeeps(q);
    case WriteAvail => WriteAvailKeeps(q);
    case Publish => PublishKeeps(q);
    case DeviceTake => DeviceTakeKeeps(q);
    case DeviceReturn(id) => DeviceReturnKeeps(q, id);
    case _ => QuietKeeps(q, s);
  }

  // ---- Every run ----

  /** What `setup` leaves: every descriptor published, nothing taken, the used ring whatever it was. */
  function SetUp(used: seq<nat>): Queue
  {
    Queue([0, 1, 2, 3, 4, 5, 6, 7], used, Idle, {}, QUEUE_SIZE, 0, 0, 0,
          [Available(0), Available(1), Available(2), Available(3),
           Available(4), Available(5), Available(6), Available(7)])
  }

  lemma SetUpInv(used: seq<nat>)
    requires |used| == QUEUE_SIZE
    ensures Inv(SetUp(used))
  {
    var q := SetUp(used);
    assert Shape(q);
    forall j: nat | q.taken <= j < q.published ensures AvailAt(q, j) {
      assert Slot(j) == j;
    }
    forall x: nat | x < QUEUE_SIZE ensures PlacedOk(q, x) {
      assert Slot(x) == x;
    }
  }

  /** Nothing is assumed of the state a step starts from but that the step is enabled. */
  ghost predicate StepAt(states: seq<Queue>, steps: seq<Step>, k: nat)
    requires k < |steps| && |states| == |steps| + 1
  {
    Enabled(states[k], steps[k]) && (Meaningful(states[k], steps[k]) ==> states[k + 1] == Apply(states[k], steps[k]))
  }

  /** Driver and device interleaved in any order, from set-up on. */
  ghost predicate IsRun(states: seq<Queue>, steps: seq<Step>)
  {
    && |states| == |steps| + 1
    && |states[0].used| == QUEUE_SIZE && states[0] == SetUp(states[0].used)
    && forall k: nat :: k < |steps| ==> StepAt(states, steps, k)
  }

  lemma {:induction false} EveryRunKeepsInv(states: seq<Queue>, steps: seq<Step>, k: nat)
    requires IsRun(states, steps) && k < |states|
    ensures Inv(states[k])
  {
    if k == 0 {
      SetUpInv(states[0].used);
    } else {
      EveryRunKeepsInv(states, steps, k - 1);
      assert StepAt(states, steps, k - 1);
      StepKeepsInv(states[k - 1], steps[k - 1]);
    }
  }

  ghost predicate InAvail(q: Queue, id: nat)
    requires Shape(q)
  {
    exists j: nat :: q.taken <= j < q.published && AvailEntry(q, j, id)
  }

  ghost predicate AvailEntry(q: Queue, j: nat, id: nat)
    requires Shape(q)
  {
    q.avail[Slot(j)] == id
  }

  ghost predicate InUsed(q: Queue, id: nat)
    requires Shape(q)
  {
    exists j: nat :: Unread(q) <= j < q.returned && UsedEntry(q, j, id)
  }

  ghost predicate UsedEntry(q: Queue, j: nat, id: nat)
    requires Shape(q)
  {
    q.used[Slot(j)] == id
  }

  /** At every moment each descriptor is with exactly one of: available ring, device, unread used entry, driver. */
  lemma ExactlyOneHolder(q: Queue, id: nat)
    requires Inv(q) && id < QUEUE_SIZE
    ensures InAvail(q, id) <==> q.place[id].Available?
    ensures InUsed(q, id) <==> q.place[id].Used?
    ensures id in q.device <==> q.place[id].Device?
    ensures InHand(q) && q.phase.id == id <==> q.place[id].Driver?
  {
    assert PlacedOk(q, id);
    if j: nat :| q.taken <= j < q.published && AvailEntry(q, j, id) {
      assert AvailAt(q, j);
    }
    if j: nat :| Unread(q) <= j < q.returned && UsedEntry(q, j, id) {
      assert UsedAt(q, j);
    }
    if q.place[id].Available? {
      assert AvailEntry(q, q.place[id].j, id);
    }
    if q.place[id].Used? {
      assert UsedEntry(q, q.place[id].j, id);
    }
  }
}

/**
 * services/inputsrv/main.rs: the driver's side on the memory it really has, with sixteen-bit indices
 * that wrap, and the device acting between any two of its steps.
 */
module InputDriver {
  import opened Common
  import opened Virtqueue

  function Wrap16(n: nat): nat { n % TWO_16 }

  /** Wrapping changes neither the slot an index selects nor where counting up from it leads. */
  lemma WrapKeepsSlot(n: nat)
    ensures Slot(Wrap16(n)) == Slot(n)
    ensures Wrap16(Wrap16(n) + 1) == Wrap16(n + 1)
  {
    var (a, b) := (n / TWO_16, n % TWO_16);
    assert n == (a * 8192 + b / QUEUE_SIZE) * QUEUE_SIZE + b % QUEUE_SIZE;
    ModUnique(n, QUEUE_SIZE, a * 8192 + b / QUEUE_SIZE, b % QUEUE_SIZE);
    ModAddLeft(n, 1, TWO_16);
  }

  /** Two counters less than 2^16 apart are equal exactly when their wrapped forms are. */
  lemma WrapKeepsEquality(j: nat, k: nat)
    requires j <= k < j + TWO_16
    ensures Wrap16(j) == Wrap16(k) <==> j == k
  {
  }

  /** What is in the used ring and not yet read is what the device logged there. */
  ghost predicate Logged(q: Queue, log: seq<nat>)
    requires Shape(q)
  {
    |log| == q.returned && forall j: nat :: Unread(q) <= j < q.returned ==> UsedEntry(q, j, log[j])
  }

  lemma LogAfterReturn(q: Queue, id: nat, log: seq<nat>)
    requires Inv(q) && Logged(q, log) && id in q.device
    ensures Logged(Apply(q, DeviceReturn(id)), log + [id])
  {
    var q' := Apply(q, DeviceReturn(id));
    assert q.device == q'.device + {id};
    forall j: nat | Unread(q') <= j < q'.returned ensures UsedEntry(q', j, (log + [id])[j]) {
      if j < q.returned {
        assert UsedEntry(q, j, log[j]);
        SlotsDistinct(j, q.returned);
      }
    }
  }

  /** Every other step leaves the log right: it reads entries or touches the other ring. */
  lemma LogKept(q: Queue, s: Step, log: seq<nat>)
    requires Inv(q) && Logged(q, log) && Enabled(q, s) && !s.DeviceReturn?
    requires s.ReadUsed? ==> q.used[Slot(q.read)] < QUEUE_SIZE
    ensures Inv(Apply(q, s)) && Logged(Apply(q, s), log)
  {
    StepKeepsInv(q, s);
    var q' := Apply(q, s);
    forall j: nat | Unread(q') <= j < q'.returned ensures UsedEntry(q', j, log[j]) {
      assert UsedEntry(q, j, log[j]);
    }
  }

  class EventQueue {
    const availRing: array<nat>
    const usedRing: array<nat>
    var availIdx: nat
    var usedIdx: nat
    var lastUsed: nat
    /** The device's own state: how far it has taken, and what it holds. */
    var devIdx: nat
    var device: set<nat>
    ghost var q: Queue
    /** Every buffer the device has ever returned, in order. */
    ghost var log: seq<nat>

    ghost predicate Valid()
      reads this, availRing, usedRing
    {
      && Inv(q) && Logged(q, log) && availRing != usedRing
      && availRing[..] == q.avail && usedRing[..] == q.used && device == q.device
      && availIdx == Wrap16(q.published) && usedIdx == Wrap16(q.returned)
      && lastUsed == Wrap16(q.read) && devIdx == Wrap16(q.taken)
    }

    /** `setup`: fill the available ring and publish all of it. */
    constructor (avail: array<nat>, used: array<nat>)
      requires avail != used && avail.Length == QUEUE_SIZE && used.Length == QUEUE_SIZE
      modifies avail
      ensures Valid() && q.phase.Idle? && log == [] && availRing == avail && usedRing == used
    {
      availRing, usedRing := avail, used;
      availIdx, usedIdx, lastUsed, devIdx, device := QUEUE_SIZE, 0, 0, 0, {};
      q, log := SetUp(used[..]), [];
      new;
      for i := 0 to QUEUE_SIZE
        modifies availRing
        invariant forall k :: 0 <= k < i ==> availRing[k] == k
      {
        availRing[i] := i;
      }
      SetUpInv(usedRing[..]);
      assert availRing[..] == q.avail;
    }

    method DeviceTakes()
      requires Valid() && devIdx != availIdx
      modifies this`devIdx, this`device, this`q
      ensures Valid() && q.phase == old(q.phase) && q.read == old(q.read) && q.returned == old(q.returned)
    {
      WrapKeepsSlot(q.taken);
      LogKept(q, DeviceTake, log);
      device := device + {availRing[devIdx % QUEUE_SIZE]};
      devIdx := Wrap16(devIdx + 1);
      q := Apply(q, DeviceTake);
    }

    method DeviceReturns(id: nat)
      requires Valid() && id in device
      modifies this`usedIdx, this`device, this`q, this`log, usedRing
      ensures Valid() && q.phase == old(q.phase) && q.read == old(q.read) && old(q.returned) <= q.returned
      ensures old(log) <= log
    {
      WrapKeepsSlot(q.returned);
      StepKeepsInv(q, DeviceReturn(id));
      LogAfterReturn(q, id, log);
      usedRing[usedIdx % QUEUE_SIZE] := id;
      usedIdx := Wrap16(usedIdx + 1);
      device := device - {id};
      q, log := Apply(q, DeviceReturn(id)), log + [id];
    }

    /** The device takes and returns any number of buffers, in any order, and keeps what it likes. */
    method DeviceActs()
      requires Valid()
      modifies this`usedIdx, this`devIdx, this`device, this`q, this`log, usedRing
      ensures Valid() && q.phase == old(q.phase) && q.read == old(q.read) && old(q.returned) <= q.returned
      ensures old(log) <= log
    {
      var n: nat := *;
      while n > 0
        invariant Valid() && q.phase == old(q.phase) && q.read == old(q.read) && old(q.returned) <= q.returned
        invariant old(log) <= log
      {
        var takes := *;
        if takes && devIdx != availIdx {
          DeviceTakes();
        } else if device != {} {
          var id :| id in device;
          DeviceReturns(id);
        }
        n := n - 1;
      }
    }

    /** The device may act before each of the following steps. */
    method ReadEntry() returns (id: nat)
      requires Valid() && q.phase.Draining? && q.read != q.phase.until
      modifies this`usedIdx, this`devIdx, this`device, this`q, this`log, usedRing
      ensures Valid() && q.phase == Holding(old(q.phase.until), id) && q.read == old(q.read)
      ensures old(log) <= log && q.read < |log| && id == log[q.read] && id < QUEUE_SIZE
    {
      DeviceActs();
      WrapKeepsSlot(q.read);
      ReadIsValid(q);
      assert UsedEntry(q, q.read, log[q.read]);
      LogKept(q, ReadUsed, log);
      id := usedRing[lastUsed % QUEUE_SIZE];
      q := Apply(q, ReadUsed);
    }

    method WriteBack(id: nat)
      requires Valid() && q.phase.Holding? && q.phase.id == id
      modifies this`usedIdx, this`devIdx, this`device, this`q, this`log, usedRing, availRing
      ensures Valid() && q.phase == Written(old(q.phase.until), id) && q.read == old(q.read) && old(log) <= log
    {
      DeviceActs();
      WrapKeepsSlot(q.read);
      LogKept(q, WriteAvail, log);
      availRing[lastUsed % QUEUE_SIZE] := id;
      q := Apply(q, WriteAvail);
    }

    method PublishEntry()
      requires Valid() && q.phase.Written?
      modifies this, usedRing
      ensures Valid() && q.phase == Published(old(q.phase.until)) && q.read == old(q.read) && old(log) <= log
    {
      DeviceActs();
      WrapKeepsSlot(q.published);
      LogKept(q, Publish, log);
      availIdx := Wrap16(availIdx + 1);
      q := Apply(q, Publish);
    }

    method MoveOn()
      requires Valid() && q.phase.Published?
      modifies this, usedRing
      ensures Valid() && q.phase == Draining(old(q.phase.until)) && q.read == old(q.read) + 1 && old(log) <= log
    {
      DeviceActs();
      WrapKeepsSlot(q.read);
      LogKept(q, Advance, log);
      lastUsed := Wrap16(lastUsed + 1);
      q := Apply(q, Advance);
    }

    /** One turn of the loop: read an entry, write it back to the available ring, publish it, move on. */
    method RecycleOne() returns (id: nat)
      requires Valid() && q.phase.Draining? && q.read != q.phase.until
      modifies this, availRing, usedRing
      ensures Valid() && q.phase == old(q.phase) && q.read == old(q.read) + 1
      ensures old(log) <= log && old(q.read) < |log| && id == log[old(q.read)] && id < QUEUE_SIZE
    {
      id := ReadEntry();
      WriteBack(id);
      PublishEntry();
      MoveOn();
    }

    /**
     * Read everything the device had returned when the index was read, and give each buffer straight
     * back. Every returned buffer is handled once, in the order returned, and the loop ends although
     * the index it compares for equality wraps and the device keeps going.
     */
    method Drain() returns (seen: seq<nat>)
      requires Valid() && q.phase.Idle?
      modifies this, availRing, usedRing
      ensures Valid() && q.phase.Idle?
      ensures old(q.returned) <= q.read && old(log) <= log
      ensures old(q.read) <= q.read <= |log| && seen == log[old(q.read)..q.read]
      ensures availIdx == Wrap16(q.read + QUEUE_SIZE)
    {
      var usedNow := usedIdx;
      LogKept(q, Enter, log);
      q := Apply(q, Enter);
      ghost var until := q.phase.until;
      seen := [];
      WrapKeepsEquality(q.read, until);
      while lastUsed != usedNow
        invariant Valid() && q.phase == Draining(until) && usedNow == Wrap16(until)
        invariant old(q.read) <= q.read <= until <= q.returned && old(log) <= log
        invariant lastUsed == usedNow <==> q.read == until
        invariant seen == log[old(q.read)..q.read]
        decreases until - q.read
      {
        var id := RecycleOne();
        seen := seen + [id];
        WrapKeepsEquality(q.read, until);
      }
      LogKept(q, Leave, log);
      q := Apply(q, Leave);
    }
  }
}
