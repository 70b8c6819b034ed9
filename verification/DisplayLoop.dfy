/**
 * services/displaysrv/main.rs: the server from its start. It takes the screen over, paints all of it once,
 * and then handles one request, one death or one client write after another. What it has done is proved
 * to be a run of `DisplayRuns`, so everything said of every run is said of this object.
 */
module DisplayLoop {
  import opened Common
  import opened Surfaces
  import opened DisplayRuns
  import opened Display
  import DisplayServer
  import ShownRight

  lemma RunOneMore(states: seq<Sys>, events: seq<Event>, e: Event, s: Sys)
    requires IsRun(states, events) && Shape(states[|events|]) && Next(states[|events|], e, s)
    ensures IsRun(states + [s], events + [e])
  {
    var (states', events') := (states + [s], events + [e]);
    forall k: nat | k < |events'| ensures StepAt(states', events', k) {
      assert k < |events| ==> StepAt(states, events, k);
    }
  }

  /** The full paint the server starts with. */
  method OpeningPaint(c: Compositor, s: Screen, mem: Shared, flip: bool)
    requires DisplayServer.Valid(c, s) && Shape(DisplayServer.State(c, s, mem))
    modifies s, s.base, s.stale
    ensures DisplayServer.Valid(c, s)
    ensures Next(old(DisplayServer.State(c, s, mem)), Repaint(DisplayServer.Flips(s, flip)), DisplayServer.State(c, s, mem))
  {
    ghost var before := DisplayServer.State(c, s, mem);
    var whole := Rect(0, 0, s.g.width, s.g.height);
    var painted := DisplayServer.Composite(c, s, mem, whole, flip);
    DisplayServer.EditThenComposite(before, Repaint(DisplayServer.Flips(s, flip)), before, whole,
                                    DisplayServer.State(c, s, mem), painted);
  }

  class Server {
    const c: Compositor
    const s: Screen
    /** The clients' pages, as this process sees them. */
    var mem: Shared
    /** Everything that has happened. */
    ghost var states: seq<Sys>
    ghost var events: seq<Event>

    ghost predicate Valid()
      reads this, c, c.surfaces, s, s.base, s.stale
    {
      && DisplayServer.Valid(c, s) && IsRun(states, events)
      && states[|events|] == DisplayServer.State(c, s, mem) && Shape(states[|events|])
    }

    /** Take the screen over and paint all of it. */
    constructor (geometry: Geometry, pixels: array<Colour>, handle: nat, pages: Shared, flip: bool)
      requires geometry.Valid() && pixels.Length == geometry.Bytes() && ValidShared(pages)
      modifies pixels
      ensures Valid() && events == [Repaint(handle != 0 && flip)] && mem == pages
      ensures fresh(c) && fresh(c.surfaces) && fresh(s) && fresh(s.stale) && s.base == pixels && s.scanout == handle
    {
      var compositor := new Compositor();
      var screen := new Screen(geometry, pixels, handle);
      ghost var first := DisplayServer.State(compositor, screen, pages);
      InitialInv(first);
      OpeningPaint(compositor, screen, pages, flip);
      ghost var e := Repaint(DisplayServer.Flips(screen, flip));
      RunOneMore([first], [], e, DisplayServer.State(compositor, screen, pages));
      ShapeKept(first, e, DisplayServer.State(compositor, screen, pages));
      c, s, mem := compositor, screen, pages;
      states, events := [first, DisplayServer.State(compositor, screen, pages)], [e];
      assert [first] + [DisplayServer.State(compositor, screen, pages)]
          == [first, DisplayServer.State(compositor, screen, pages)];
    }

    ghost method Record(e: Event)
      requires DisplayServer.Valid(c, s) && IsRun(states, events) && Shape(states[|events|])
      requires Next(states[|events|], e, DisplayServer.State(c, s, mem))
      modifies this`states, this`events
      ensures Valid() && events == old(events) + [e]
      ensures states == old(states) + [DisplayServer.State(c, s, mem)]
    {
      ghost var now := DisplayServer.State(c, s, mem);
      RunOneMore(states, events, e, now);
      ShapeKept(states[|events|], e, now);
      states, events := states + [now], events + [e];
    }

    /** The handler for each kind of event. */
    method Dispatch(e: Event, flip: bool) returns (reply: Reply)
      requires DisplayServer.Valid(c, s) && Shape(DisplayServer.State(c, s, mem)) && !e.Repaint?
      requires ValidEvent(DisplayServer.State(c, s, mem), e)
      requires (e.Commit? || e.Raise? || e.Destroy? || e.Reap?) ==> e.flip == DisplayServer.Flips(s, flip)
      modifies this`mem, c, c.surfaces, s, s.base, s.stale
      ensures DisplayServer.Valid(c, s)
      ensures Next(old(DisplayServer.State(c, s, mem)), e, DisplayServer.State(c, s, mem))
      ensures !e.ClientWrite? ==> reply == ReplyTo(old(DisplayServer.State(c, s, mem)), e)
    {
      match e {
        case Create(_, _, _, _, _, _) => reply := DisplayServer.CreateSurface(c, s, mem, e);
        case Commit(_, _, _, _, _, _, _, _) => reply := DisplayServer.CommitSurface(c, s, mem, e, flip);
        case Raise(_, _, _) => reply := DisplayServer.RaiseSurface(c, s, mem, e, flip);
        case Destroy(_, _, _) => reply := DisplayServer.DestroySurface(c, s, mem, e, flip);
        case Reap(_, _) =>
          var painted := DisplayServer.ReapClient(c, s, mem, e, flip);
          reply := Ok(painted);
        case ClientWrite(pages) =>
          mem := pages;
          reply := Ok(0);
      }
    }

    /** A request, a death, or a client writing its own pages; `flip` is the kernel's answer if it is asked. */
    method Handle(e: Event, flip: bool) returns (reply: Reply)
      requires Valid() && ValidEvent(states[|events|], e) && !e.Repaint?
      requires (e.Commit? || e.Raise? || e.Destroy? || e.Reap?) ==> e.flip == DisplayServer.Flips(s, flip)
      modifies this, c, c.surfaces, s, s.base, s.stale
      ensures Valid() && events == old(events) + [e] && |states| == |old(states)| + 1 && states[..|old(states)|] == old(states)
      ensures !e.ClientWrite? ==> reply == ReplyTo(old(states[|events|]), e)
    {
      reply := Dispatch(e, flip);
      Record(e);
    }

    /** At any moment: if the last event reached the display, every good surface is shown right. */
    lemma ShownNow()
      requires Valid() && |events| > 0 && Presented(states[|events| - 1], events[|events| - 1])
      ensures ShownRight.ShowsGood(DisplayServer.State(c, s, mem), ShownRight.GoodAt(states, events, |events|))
    {
      ShownRight.GoodSurfacesShownRight(states, events, |events| - 1);
    }
  }
}
