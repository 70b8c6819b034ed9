/**
 * One joint run in full, from a client's first request to its first frame on the display: one window of
 * one pixel, on a screen of one pixel. It shows that the runs `FrameDelivery` is about exist.
 */
module FirstFrame {
  import opened Common
  import opened Surfaces
  import opened FrameDelivery
  import opened ShownRight
  import DisplayRuns
  import Handover
  import RestoreCopy

  const SCREEN := DisplayRuns.Geometry(1, 1, 4, 1)
  const PLACED := Placement(1, 1, 1, 0, 0, [1, 2])

  /** The display: its one pixel, its stack, and what the two shared buffers hold. */
  function Shown(pixel: Colour, stack: seq<Surface>, nextId: nat, first: Colour): DisplayRuns.Sys
  {
    DisplayRuns.Sys(SCREEN, [pixel, 0, 0, 0], [None, None], 0, 0, stack, nextId, map[1 := [first], 2 := [0]])
  }

  const NO_WINDOW := Handover.Window(false, [[], []], 0, {}, [], {}, false)

  /** The client with its one window, what it is waiting for, and what is on its way. */
  function Asking(win: Handover.Window, call: Option<Handover.Request>, commit: Option<Handover.Request>,
                  out: seq<Handover.Request>, back: seq<Handover.Reply>, x: Handover.Surface): Handover.State
  {
    Handover.State([win], commit, call, out, back, [x])
  }

  const OPEN := Handover.Create(0, 1)
  const COMMIT := Handover.Commit(0, {0}, 0)

  function Painted(): Handover.Window
  {
    Handover.Window(true, [[7], [0]], 0, {}, [7], {0}, false)
  }

  function Posted(): Handover.Window
  {
    Handover.Window(true, [[7], [0]], 1, {0}, [7], {}, true)
  }

  function SurfaceOne(): Surface
  {
    Surface(1, 0, 1, 1, 1, 0, 0)
  }

  /** Client and server after each step, with whatever follows of what is undeclared and good. */
  ghost function After(b: Both, h: Handover.State, d: DisplayRuns.Sys, e: DisplayRuns.Event, v: seq<Placement>): Both
    requires DisplayRuns.Shape(b.d) && DisplayRuns.Shape(d)
  {
    Both(h, d, DisplayRuns.PendingAfter(b.d, e, d, b.pending), GoodAfter(b.d, e, b.good), v)
  }

  function Blank(): Placement { Placement(0, 0, 0, 0, 0, []) }

  lemma Start() returns (b: Both)
    ensures Joins(b) && b.h == Asking(NO_WINDOW, None, None, [], [], Handover.NoSurface) && b.v == [Blank()]
    ensures b.d == Shown(BACKGROUND, [], 1, 0)
  {
    b := Both(Asking(NO_WINDOW, None, None, [], [], Handover.NoSurface), Shown(BACKGROUND, [], 1, 0), iset{}, iset{}, [Blank()]);
    forall n: nat, p: Point | n < b.d.g.buffers && b.d.g.OnScreen(p)
      ensures DisplayRuns.Pixel(b.d.g, b.d.fb, n, p) == BACKGROUND
    {
      assert n == 0 && p == Point(0, 0);
    }
  }

  lemma Asks(b: Both) returns (b': Both)
    requires JointInv(b, 0) && b.h == Asking(NO_WINDOW, None, None, [], [], Handover.NoSurface) && b.v == [Blank()]
    ensures JointStep(b, Ours(Handover.Call(OPEN), None, Blank()), b', 0) && b'.d == b.d && b'.v == b.v
    ensures b'.h == Asking(NO_WINDOW, Some(OPEN), None, [OPEN], [], Handover.NoSurface)
  {
    b' := b.(h := Asking(NO_WINDOW, Some(OPEN), None, [OPEN], [], Handover.NoSurface));
  }

  lemma Opens(b: Both) returns (b': Both)
    requires JointInv(b, 0) && b.h == Asking(NO_WINDOW, Some(OPEN), None, [OPEN], [], Handover.NoSurface)
    requires b.v == [Blank()] && b.d == Shown(BACKGROUND, [], 1, 0)
    ensures JointStep(b, Ours(Handover.Serve, Some(DisplayRuns.Create(0, 1, 1, 0, 0, 1)), PLACED), b', 0)
    ensures b'.h == Asking(NO_WINDOW, Some(OPEN), None, [], [Handover.Reply(OPEN)], Handover.Surface(0, None))
    ensures b'.v == [PLACED] && b'.d == Shown(BACKGROUND, [SurfaceOne()], 2, 0)
  {
    var d := Shown(BACKGROUND, [SurfaceOne()], 2, 0);
    var e := DisplayRuns.Create(0, 1, 1, 0, 0, 1);
    assert DisplayRuns.StackAfter(b.d, e) == d.stack;
    b' := After(b, Asking(NO_WINDOW, Some(OPEN), None, [], [Handover.Reply(OPEN)], Handover.Surface(0, None)), d, e, [PLACED]);
  }

  lemma Hears(b: Both) returns (b': Both)
    requires JointInv(b, 0) && b.v == [PLACED]
    requires b.h == Asking(NO_WINDOW, Some(OPEN), None, [], [Handover.Reply(OPEN)], Handover.Surface(0, None))
    ensures JointStep(b, Ours(Handover.Return, None, Blank()), b', 0) && b'.d == b.d && b'.v == b.v
    ensures b'.h == Asking(Handover.OpenWindow(1), None, None, [], [], Handover.Surface(0, None))
  {
    b' := b.(h := Asking(Handover.OpenWindow(1), None, None, [], [], Handover.Surface(0, None)));
  }

  lemma PaintMakes(h: Handover.State)
    requires h == Asking(Handover.OpenWindow(1), None, None, [], [], Handover.Surface(0, None))
    ensures Handover.Shape(h) && Handover.Enabled(h, Handover.Paint(0, {0}, [7]))
    ensures Handover.Apply(h, Handover.Paint(0, {0}, [7]))
         == Asking(Painted(), None, None, [], [], Handover.Surface(0, None))
  {
    var win := h.windows[0];
    assert win.canvas == [0] && win.bufs == [[0], [0]];
    assert Handover.Overlay(win.canvas, {0}, [7]) == [7];
    assert Handover.Painted(win, {0}, [7]) == Painted();
  }

  lemma Paints(b: Both) returns (b': Both)
    requires JointInv(b, 0) && b.v == [PLACED] && b.d == Shown(BACKGROUND, [SurfaceOne()], 2, 0)
    requires b.h == Asking(Handover.OpenWindow(1), None, None, [], [], Handover.Surface(0, None))
    ensures JointStep(b, Ours(Handover.Paint(0, {0}, [7]), None, Blank()), b', 0)
    ensures b'.h == Asking(Painted(), None, None, [], [], Handover.Surface(0, None))
    ensures b'.v == [PLACED] && b'.d == Shown(BACKGROUND, [SurfaceOne()], 2, 7)
  {
    var d := Shown(BACKGROUND, [SurfaceOne()], 2, 7);
    assert [7] + b.d.mem[1][1..] == [7];
    PaintMakes(b.h);
    b' := After(b, Asking(Painted(), None, None, [], [], Handover.Surface(0, None)), d, DisplayRuns.ClientWrite(d.mem), [PLACED]);
  }

  lemma Posts(b: Both) returns (b': Both)
    requires JointInv(b, 0) && b.v == [PLACED]
    requires b.h == Asking(Painted(), None, None, [], [], Handover.Surface(0, None))
    ensures JointStep(b, Ours(Handover.Post(0, {0}), None, Blank()), b', 0) && b'.d == b.d && b'.v == b.v
    ensures b'.h == Asking(Posted(), None, Some(COMMIT), [COMMIT], [], Handover.Surface(0, None))
  {
    b' := b.(h := Asking(Posted(), None, Some(COMMIT), [COMMIT], [], Handover.Surface(0, None)));
  }

  lemma Delivers(b: Both) returns (b': Both, e: DisplayRuns.Event)
    requires JointInv(b, 0) && b.v == [PLACED] && b.d == Shown(BACKGROUND, [SurfaceOne()], 2, 7)
    requires b.h == Asking(Posted(), None, Some(COMMIT), [COMMIT], [], Handover.Surface(0, None))
    ensures JointStep(b, Ours(Handover.Serve, Some(e), Blank()), b', 0)
    ensures DisplayRuns.Presented(b.d, e) && WholeWindow(e, PLACED)
    ensures b'.d == Shown(7, [SurfaceOne()], 2, 7)
  {
    e := DisplayRuns.Commit(0, 1, 0, 0, 1, 1, 1, true);
    var d := Shown(7, [SurfaceOne()], 2, 7);
    assert DisplayRuns.IndexOf(b.d.stack, 0, 1) == Some(0);
    assert RestoreCopy.Positions(1, 1, 0, 0, 1, 1) == {0};
    b' := After(b, Handover.Apply(b.h, Handover.Serve), d, e, [PLACED]);
  }

  /** A run of `n` steps that has come to this. */
  ghost predicate Comes(bs: seq<Both>, js: seq<Joint>, n: nat, h: Handover.State, d: DisplayRuns.Sys, v: seq<Placement>)
  {
    |js| == n && JointRun(bs, js, 0) && bs[n].h == h && bs[n].d == d && bs[n].v == v
  }

  lemma RunAsks() returns (bs: seq<Both>, js: seq<Joint>)
    ensures Comes(bs, js, 1, Asking(NO_WINDOW, Some(OPEN), None, [OPEN], [], Handover.NoSurface),
                  Shown(BACKGROUND, [], 1, 0), [Blank()])
  {
    var b := Start();
    JoiningInv(b, 0);
    var b' := Asks(b);
    bs, js := JointRunOneMore([b], [], 0, Ours(Handover.Call(OPEN), None, Blank()), b');
  }

  lemma RunOpens() returns (bs: seq<Both>, js: seq<Joint>)
    ensures Comes(bs, js, 2, Asking(NO_WINDOW, Some(OPEN), None, [], [Handover.Reply(OPEN)], Handover.Surface(0, None)),
                  Shown(BACKGROUND, [SurfaceOne()], 2, 0), [PLACED])
  {
    bs, js := RunAsks();
    EveryJointRunKeepsInv(bs, js, 0, 1);
    var b' := Opens(bs[1]);
    bs, js := JointRunOneMore(bs, js, 0, Ours(Handover.Serve, Some(DisplayRuns.Create(0, 1, 1, 0, 0, 1)), PLACED), b');
  }

  lemma RunHears() returns (bs: seq<Both>, js: seq<Joint>)
    ensures Comes(bs, js, 3, Asking(Handover.OpenWindow(1), None, None, [], [], Handover.Surface(0, None)),
                  Shown(BACKGROUND, [SurfaceOne()], 2, 0), [PLACED])
  {
    bs, js := RunOpens();
    EveryJointRunKeepsInv(bs, js, 0, 2);
    var b' := Hears(bs[2]);
    bs, js := JointRunOneMore(bs, js, 0, Ours(Handover.Return, None, Blank()), b');
  }

  lemma RunPaints() returns (bs: seq<Both>, js: seq<Joint>)
    ensures Comes(bs, js, 4, Asking(Painted(), None, None, [], [], Handover.Surface(0, None)),
                  Shown(BACKGROUND, [SurfaceOne()], 2, 7), [PLACED])
  {
    bs, js := RunHears();
    EveryJointRunKeepsInv(bs, js, 0, 3);
    var b' := Paints(bs[3]);
    bs, js := JointRunOneMore(bs, js, 0, Ours(Handover.Paint(0, {0}, [7]), None, Blank()), b');
  }

  lemma RunPosts() returns (bs: seq<Both>, js: seq<Joint>)
    ensures Comes(bs, js, 5, Asking(Posted(), None, Some(COMMIT), [COMMIT], [], Handover.Surface(0, None)),
                  Shown(BACKGROUND, [SurfaceOne()], 2, 7), [PLACED])
  {
    bs, js := RunPaints();
    EveryJointRunKeepsInv(bs, js, 0, 4);
    var b' := Posts(bs[4]);
    bs, js := JointRunOneMore(bs, js, 0, Ours(Handover.Post(0, {0}), None, Blank()), b');
  }

  /** The whole run. At its end the display shows what was painted. */
  lemma FirstFrameIsShown() returns (bs: seq<Both>, js: seq<Joint>)
    ensures |js| == 6 && JointRun(bs, js, 0) && PresentsCommit(bs[5], js[5])
    ensures DisplayRuns.Shape(bs[6].d) && ShowsFrame(bs[6].d, PLACED, [7])
  {
    bs, js := RunPosts();
    EveryJointRunKeepsInv(bs, js, 0, 5);
    var b', e := Delivers(bs[5]);
    bs, js := JointRunOneMore(bs, js, 0, Ours(Handover.Serve, Some(e), Blank()), b');
    CommittedFrameReachesDisplay(bs, js, 0, 5);
  }
}
