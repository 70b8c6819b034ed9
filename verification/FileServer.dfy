/**
 * services/fssrv/main.rs: open files. The claim is that a handle resolves exactly while it is open:
 * granted, not closed since, and never revived by reuse of its slot.
 */
module FileTable {
  import opened Common

  const MAX_OPEN: nat := 8
  const MAX_REQUESTS: nat := 2048
  const TWO_32: nat := 0x1_0000_0000

  /** An archive member. */
  datatype Entry = Entry(data: seq<nat>)

  datatype Open = Open(entry: Entry, generation: nat)

  datatype Slots = Slots(slots: seq<Option<Open>>, nextGeneration: nat)

  ghost predicate ValidSlots(t: Slots)
  {
    |t.slots| == MAX_OPEN && 1 <= t.nextGeneration < TWO_32
  }

  /** `(generation << 8) | (slot + 1)` */
  function Handle(generation: nat, slot: nat): nat
  {
    generation * 256 + slot + 1
  }

  /** `wrapping_add(1).max(1)` on a `u32` */
  function NextGeneration(g: nat): nat
  {
    if g + 1 >= TWO_32 then 1 else g + 1
  }

  function FreeFrom(slots: seq<Option<Open>>, lo: nat): (r: Option<nat>)
    requires lo <= |slots|
    ensures r.Some? ==> lo <= r.value < |slots| && slots[r.value].None?
    ensures r.None? ==> forall i :: lo <= i < |slots| ==> slots[i].Some?
    decreases |slots| - lo
  {
    if lo == |slots| then None else if slots[lo].None? then Some(lo) else FreeFrom(slots, lo + 1)
  }

  function Inserted(t: Slots, e: Entry): (Slots, Option<nat>)
  {
    match FreeFrom(t.slots, 0)
    case None => (t, None)
    case Some(slot) =>
      (Slots(t.slots[slot := Some(Open(e, t.nextGeneration))], NextGeneration(t.nextGeneration)),
       Some(Handle(t.nextGeneration, slot)))
  }

  function Lookup(t: Slots, h: nat): Option<Entry>
  {
    var low := h % 256;
    if low == 0 || low - 1 >= |t.slots| || t.slots[low - 1].None? then None
    else
      var open := t.slots[low - 1].value;
      if open.generation == h / 256 then Some(open.entry) else None
  }

  function Removed(t: Slots, h: nat): Slots
    requires Lookup(t, h).Some?
  {
    t.(slots := t.slots[h % 256 - 1 := None])
  }

  // ---- The table in place ----

  class Table {
    const slots: array<Option<Open>>
    var nextGeneration: nat

    ghost function State(): Slots
      reads this, slots
    {
      Slots(slots[..], nextGeneration)
    }

    constructor ()
      ensures ValidSlots(State()) && fresh(slots) && State() == Empty()
    {
      slots := new Option<Open>[MAX_OPEN](_ => None);
      nextGeneration := 1;
      new;
      assert slots[..] == seq(MAX_OPEN, _ => None);
    }

    method Insert(e: Entry) returns (r: Option<nat>)
      requires ValidSlots(State())
      modifies this, slots
      ensures ValidSlots(State()) && (State(), r) == Inserted(old(State()), e)
    {
      ghost var was := slots[..];
      var slot := 0;
      while slot < slots.Length && slots[slot].Some?
        invariant slot <= slots.Length && slots[..] == was && FreeFrom(was, slot) == FreeFrom(was, 0)
      {
        slot := slot + 1;
      }
      if slot == slots.Length {
        return None;
      }
      var generation := nextGeneration;
      nextGeneration := NextGeneration(nextGeneration);
      slots[slot] := Some(Open(e, generation));
      return Some(Handle(generation, slot));
    }

    method Get(h: nat) returns (r: Option<Entry>)
      requires ValidSlots(State())
      ensures r == Lookup(State(), h)
    {
      if h % 256 == 0 {
        return None;
      }
      var slot := h % 256 - 1;
      if slot >= slots.Length || slots[slot].None? {
        return None;
      }
      var open := slots[slot].value;
      return if open.generation == h / 256 then Some(open.entry) else None;
    }

    method Remove(h: nat) returns (ok: bool)
      requires ValidSlots(State())
      modifies slots
      ensures ValidSlots(State()) && ok == old(Lookup(State(), h)).Some?
      ensures State() == if ok then Removed(old(State()), h) else old(State())
    {
      var e := Get(h);
      if e.None? {
        return false;
      }
      slots[h % 256 - 1] := None;
      return true;
    }
  }

  function Empty(): Slots
  {
    Slots(seq(MAX_OPEN, _ => None), 1)
  }

  // ---- Every run of the server ----

  /** The requests that touch the table; the others only read it. */
  datatype Request = OpenFile(entry: Entry) | Close(handle: nat)

  /** What a client was told: this handle is yours for this file; this handle is closed. */
  datatype Answer = Granted(handle: nat, entry: Entry) | Closed(handle: nat)

  datatype Server = Server(table: Slots, answers: seq<Answer>)

  function Serve(s: Server, r: Request): Server
  {
    match r
    case OpenFile(e) =>
      var (t, h) := Inserted(s.table, e);
      if h.None? then s else Server(t, s.answers + [Granted(h.value, e)])
    case Close(h) =>
      if Lookup(s.table, h).None? then s else Server(Removed(s.table, h), s.answers + [Closed(h)])
  }

  function Run(rs: seq<Request>): Server
  {
    if rs == [] then Server(Empty(), []) else Serve(Run(rs[..|rs| - 1]), rs[|rs| - 1])
  }

  /** By what clients were told, `h` names `e`: it was granted for it, and has not been closed since. */
  ghost predicate StillOpen(answers: seq<Answer>, h: nat, e: Entry)
  {
    exists k :: 0 <= k < |answers| && answers[k] == Granted(h, e) && NotClosedAfter(answers, h, k)
  }

  ghost predicate NotClosedAfter(answers: seq<Answer>, h: nat, k: nat)
  {
    forall j :: k < j < |answers| ==> answers[j] != Closed(h)
  }

  /** A handle takes apart into its generation and its slot. */
  lemma HandleParts(generation: nat, slot: nat)
    requires slot < MAX_OPEN
    ensures Handle(generation, slot) % 256 == slot + 1 && Handle(generation, slot) / 256 == generation
  {
  }

  ghost predicate Inv(s: Server, served: nat)
  {
    && ValidSlots(s.table) && s.table.nextGeneration <= 1 + served
    && (forall i :: 0 <= i < MAX_OPEN && s.table.slots[i].Some? ==> s.table.slots[i].value.generation < s.table.nextGeneration)
    && (forall k :: 0 <= k < |s.answers| ==> s.answers[k].handle / 256 < s.table.nextGeneration)
    && (forall j, k :: 0 <= j < k < |s.answers| && s.answers[j].Granted? && s.answers[k].Granted?
          ==> s.answers[j].handle != s.answers[k].handle)
    && (forall h, e :: Lookup(s.table, h) == Some(e) <==> StillOpen(s.answers, h, e))
  }

  /** An open is refused exactly if every slot is in use, and then nothing changes. */
  lemma RefusedExactlyWhenFull(t: Slots, e: Entry)
    ensures Inserted(t, e).1.None? <==> forall i :: 0 <= i < |t.slots| ==> t.slots[i].Some?
    ensures Inserted(t, e).1.None? ==> Inserted(t, e).0 == t
    ensures Inserted(t, e).1.Some? ==> NextInUse(t, Inserted(t, e).0)
  {
    if Inserted(t, e).1.Some? {
      var slot := FreeFrom(t.slots, 0).value;
      assert t.slots[slot].None?;
    }
  }

  /** One slot more is in use, the others are as they were. */
  ghost predicate NextInUse(t: Slots, t': Slots)
  {
    && |t'.slots| == |t.slots|
    && exists i :: 0 <= i < |t.slots| && t.slots[i].None? && t'.slots[i].Some?
         && forall j :: 0 <= j < |t.slots| && j != i ==> t'.slots[j] == t.slots[j]
  }

  /** Taking a free slot for a new generation: the new handle resolves, and no other changes. */
  lemma InsertResolves(t: Slots, e: Entry, g: nat)
    requires ValidSlots(t) && Inserted(t, e).1.Some?
    requires forall i :: 0 <= i < MAX_OPEN && t.slots[i].Some? ==> t.slots[i].value.generation < t.nextGeneration
    ensures var (t', h) := Inserted(t, e);
      Lookup(t', g) == if g == h.value then Some(e) else Lookup(t, g)
  {
  }

  lemma RemoveResolves(t: Slots, h: nat, g: nat)
    requires ValidSlots(t) && Lookup(t, h).Some?
    ensures Lookup(Removed(t, h), g) == if g == h then None else Lookup(t, g)
  {
  }

  /** A grant adds its own handle to what is open, and nothing else. */
  lemma GrantOpens(answers: seq<Answer>, h: nat, e: Entry, g: nat, f: Entry)
    requires forall k :: 0 <= k < |answers| ==> answers[k].handle != h
    ensures StillOpen(answers + [Granted(h, e)], g, f) <==> StillOpen(answers, g, f) || (g == h && f == e)
  {
    var more := answers + [Granted(h, e)];
    var n := |answers|;
    if g == h && f == e {
      assert more[n] == Granted(g, f) && NotClosedAfter(more, g, n);
    }
    if StillOpen(answers, g, f) {
      var k :| 0 <= k < n && answers[k] == Granted(g, f) && NotClosedAfter(answers, g, k);
      assert more[k] == Granted(g, f) && NotClosedAfter(more, g, k);
    }
    if StillOpen(more, g, f) {
      var k :| 0 <= k < |more| && more[k] == Granted(g, f) && NotClosedAfter(more, g, k);
      if k < n {
        assert forall j :: k < j < n ==> answers[j] == more[j];
        assert answers[k] == Granted(g, f) && NotClosedAfter(answers, g, k);
      }
    }
  }

  /** A close takes its own handle away, and nothing else. */
  lemma CloseCloses(answers: seq<Answer>, h: nat, g: nat, f: Entry)
    ensures StillOpen(answers + [Closed(h)], g, f) <==> StillOpen(answers, g, f) && g != h
  {
    var more := answers + [Closed(h)];
    var n := |answers|;
    if StillOpen(answers, g, f) && g != h {
      var k :| 0 <= k < n && answers[k] == Granted(g, f) && NotClosedAfter(answers, g, k);
      assert more[k] == Granted(g, f) && NotClosedAfter(more, g, k);
    }
    if StillOpen(more, g, f) {
      var k :| 0 <= k < |more| && more[k] == Granted(g, f) && NotClosedAfter(more, g, k);
      assert more[n] == Closed(h);
      assert forall j :: k < j < n ==> answers[j] == more[j];
      assert answers[k] == Granted(g, f) && NotClosedAfter(answers, g, k);
    }
  }

  lemma OpenKeepsInv(s: Server, e: Entry, served: nat)
    requires Inv(s, served) && served < MAX_REQUESTS
    ensures Inv(Serve(s, OpenFile(e)), served + 1)
  {
    var (t, h) := Inserted(s.table, e);
    if h.Some? {
      HandleParts(s.table.nextGeneration, FreeFrom(s.table.slots, 0).value);
      forall g, f ensures Lookup(t, g) == Some(f) <==> StillOpen(s.answers + [Granted(h.value, e)], g, f) {
        InsertResolves(s.table, e, g);
        GrantOpens(s.answers, h.value, e, g, f);
        assert Lookup(s.table, g) == Some(f) <==> StillOpen(s.answers, g, f);
      }
    }
  }

  lemma CloseKeepsInv(s: Server, h: nat, served: nat)
    requires Inv(s, served) && served < MAX_REQUESTS
    ensures Inv(Serve(s, Close(h)), served + 1)
  {
    if Lookup(s.table, h).Some? {
      var e := Lookup(s.table, h).value;
      assert StillOpen(s.answers, h, e);
      forall g, f ensures Lookup(Removed(s.table, h), g) == Some(f) <==> StillOpen(s.answers + [Closed(h)], g, f) {
        RemoveResolves(s.table, h, g);
        CloseCloses(s.answers, h, g, f);
        assert Lookup(s.table, g) == Some(f) <==> StillOpen(s.answers, g, f);
      }
    }
  }

  lemma {:induction false} RunKeepsInv(rs: seq<Request>)
    requires |rs| <= MAX_REQUESTS
    ensures Inv(Run(rs), |rs|)
  {
    if rs == [] {
      assert forall h, e :: !StillOpen([], h, e);
    } else {
      var before := rs[..|rs| - 1];
      RunKeepsInv(before);
      match rs[|rs| - 1]
      case OpenFile(e) => OpenKeepsInv(Run(before), e, |before|);
      case Close(h) => CloseKeepsInv(Run(before), h, |before|);
    }
  }

  /**
   * In every run of the server loop, which serves at most 2048 requests, a number resolves to a file
   * exactly when it was granted for that file and has not been closed since.
   */
  lemma HandlesResolveExactly(rs: seq<Request>, h: nat, e: Entry)
    requires |rs| <= MAX_REQUESTS
    ensures Lookup(Run(rs).table, h) == Some(e) <==> StillOpen(Run(rs).answers, h, e)
  {
    RunKeepsInv(rs);
  }

  lemma {:induction false} AnswersOnlyGrow(rs: seq<Request>, n: nat)
    requires n <= |rs|
    ensures Run(rs[..n]).answers <= Run(rs).answers
    decreases |rs|
  {
    if n == |rs| {
      assert rs[..n] == rs;
    } else {
      var before := rs[..|rs| - 1];
      AnswersOnlyGrow(before, n);
      assert before[..n] == rs[..n];
    }
  }

  ghost predicate GrantedBefore(answers: seq<Answer>, c: nat, h: nat)
    requires c <= |answers|
  {
    exists g :: 0 <= g < c && answers[g].Granted? && answers[g].handle == h
  }

  ghost predicate ClosesWereGranted(answers: seq<Answer>, h: nat)
  {
    forall c :: 0 <= c < |answers| && answers[c] == Closed(h) ==> GrantedBefore(answers, c, h)
  }

  lemma ServeClosesOnlyGranted(s: Server, r: Request, served: nat, h: nat)
    requires Inv(s, served) && ClosesWereGranted(s.answers, h)
    ensures ClosesWereGranted(Serve(s, r).answers, h)
  {
    var (a, b) := (s.answers, Serve(s, r).answers);
    forall c | 0 <= c < |b| && b[c] == Closed(h) ensures GrantedBefore(b, c, h) {
      if c < |a| {
        assert GrantedBefore(a, c, h);
        var g :| 0 <= g < c && a[g].Granted? && a[g].handle == h;
        assert b[g] == a[g];
      } else {
        assert StillOpen(a, h, Lookup(s.table, h).value);
        var g :| 0 <= g < |a| && a[g] == Granted(h, Lookup(s.table, h).value);
        assert b[g] == a[g];
      }
    }
  }

  /** Only what was granted is ever closed. */
  lemma {:induction false} ClosedWasGranted(rs: seq<Request>, h: nat)
    requires |rs| <= MAX_REQUESTS
    ensures ClosesWereGranted(Run(rs).answers, h)
    decreases |rs|
  {
    if rs != [] {
      var before := rs[..|rs| - 1];
      ClosedWasGranted(before, h);
      RunKeepsInv(before);
      ServeClosesOnlyGranted(Run(before), rs[|rs| - 1], |before|, h);
    }
  }

  ghost predicate GrantsUnique(answers: seq<Answer>)
  {
    forall j, k :: 0 <= j < k < |answers| && answers[j].Granted? && answers[k].Granted?
      ==> answers[j].handle != answers[k].handle
  }

  lemma ClosedMeansNotOpen(answers: seq<Answer>, c: nat, h: nat, e: Entry)
    requires GrantsUnique(answers) && c < |answers| && answers[c] == Closed(h) && GrantedBefore(answers, c, h)
    ensures !StillOpen(answers, h, e)
  {
  }

  /** A closed handle never resolves again, whatever is opened later. */
  lemma ClosedStaysClosed(rs: seq<Request>, n: nat, h: nat)
    requires |rs| <= MAX_REQUESTS && n <= |rs|
    requires Closed(h) in Run(rs[..n]).answers
    ensures Lookup(Run(rs).table, h) == None
  {
    AnswersOnlyGrow(rs, n);
    var answers := Run(rs).answers;
    var c :| 0 <= c < |answers| && answers[c] == Closed(h);
    RunKeepsInv(rs);
    assert GrantsUnique(answers);
    ClosedWasGranted(rs, h);
    if Lookup(Run(rs).table, h).Some? {
      var e := Lookup(Run(rs).table, h).value;
      HandlesResolveExactly(rs, h, e);
      ClosedMeansNotOpen(answers, c, h, e);
    }
  }
}

/**
 * services/fssrv/main.rs: reading a file through a buffer smaller than it, one bounded reply at a time.
 */
module ChunkedRead {
  import opened Common

  /** The two words of a read reply: bytes written, and bytes left after them. */
  datatype ReadReply = ReadReply(written: nat, left: nat)

  /** An offset past the end is the end of the file, not a wrapped length. */
  function ReadAt(size: nat, offset: nat, max: nat, buffer: nat): ReadReply
  {
    var at := Min(offset, size);
    var available := size - at;
    var len := Min(Min(max, available), buffer);
    ReadReply(len, available - len)
  }

  /**
   * In range, what came before, what was written and what is left make up the file; out of range, nothing.
   * The reply is as long as it can be: it stops at the request, at the buffer or at the end of the file.
   */
  lemma ReplyAccountsForFile(size: nat, offset: nat, max: nat, buffer: nat)
    ensures var r := ReadAt(size, offset, max, buffer);
      && r.written <= max && r.written <= buffer
      && (offset <= size ==> offset + r.written + r.left == size)
      && (offset > size ==> r == ReadReply(0, 0))
      && (r.written == max || r.written == buffer || r.left == 0)
  {
  }

  /** The copy loop of the read request: exactly the bytes named, into the front of the buffer. */
  method ServeRead(data: seq<nat>, offset: nat, max: nat, buffer: array<nat>, bytesOut: nat)
    returns (r: ReadReply, bytesOut': nat)
    modifies buffer
    ensures r == ReadAt(|data|, offset, max, buffer.Length) && bytesOut' == bytesOut + r.written
    ensures r.written <= buffer.Length && Min(offset, |data|) + r.written <= |data|
    ensures buffer[..r.written] == data[Min(offset, |data|)..Min(offset, |data|) + r.written]
    ensures buffer[r.written..] == old(buffer[r.written..])
  {
    var at := Min(offset, |data|);
    var available := |data| - at;
    var len := Min(Min(max, available), buffer.Length);
    for i := 0 to len
      invariant forall k :: 0 <= k < i ==> buffer[k] == data[at + k]
      invariant forall k :: i <= k < buffer.Length ==> buffer[k] == old(buffer[k])
    {
      buffer[i] := data[at + i];
    }
    r := ReadReply(len, available - len);
    bytesOut' := bytesOut + len;
  }

  /**
   * A reader that advances by what it was given until nothing is left ends with exactly the file,
   * whatever it asks for in each round and however many pages it lends, as long as neither is zero;
   * and the server's byte count grows by exactly the file.
   */
  method ReadWhole(data: seq<nat>, maxima: nat -> nat, pages: nat -> nat, bytesOut: nat)
    returns (got: seq<nat>, bytesOut': nat)
    requires forall i :: maxima(i) > 0 && pages(i) > 0
    ensures got == data && bytesOut' == bytesOut + |data|
  {
    got, bytesOut' := [], bytesOut;
    var left, round := 1, 0;
    while left != 0
      invariant |got| <= |data| && got == data[..|got|] && bytesOut' == bytesOut + |got|
      invariant left == 0 ==> got == data
      decreases left != 0, |data| - |got|
    {
      var buffer := new nat[pages(round) * 4096];
      var r;
      r, bytesOut' := ServeRead(data, |got|, maxima(round), buffer, bytesOut');
      ReplyAccountsForFile(|data|, |got|, maxima(round), buffer.Length);
      got, left, round := got + buffer[..r.written], r.left, round + 1;
    }
  }
}
