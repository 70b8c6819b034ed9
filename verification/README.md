# Verified model of the staros display server, address spaces, scheduler policy and drivers

staros is a small operating system for 64-bit Arm: a kernel with address spaces and a class-based
scheduler, and services in user space, among them a display server, a Qt platform plugin that is its
client, an input driver over virtio and a file server. This project models the parts whose correctness
rests on an incremental record agreeing with something simple, and proves that it does.

- **The compositor** (`Surfaces`, `DisplayRuns`, `Requests`, `ShownRight`, `Display`, `DisplayServer`, `DisplayLoop`). It repaints only damaged
  rectangles into one of two buffers, with one stale rectangle per buffer. The simple thing it must agree
  with is repainting the whole screen in painter's order. The run specification carries the set of pixels
  that changed without being declared as damage; clients write shared pixels at any time, and a create
  composites nothing, so that set is not always empty. `ShownRight` shows that it never touches the surfaces of
  a client that commits honestly, whatever the others do. The classes `Screen` and `Compositor` and the
  request handlers are proved to take exactly the steps of that specification.
- **Input routing** (`Pointing`, `Outboxes`, `RoundRobin`): hit test against painting, per-client rings
  against queues, the scan for the next client against bounded waiting.
- **The client half of double buffering** (`Handover`, `RestoreCopy`, `QtClient`, `FrameDelivery`). The
  protocol is a transition system of two processes sharing pages without a fence. The class `Client` is the
  plugin as written; each of its methods is proved to take only enabled steps, so the order settle, paint,
  post is a consequence of the code. `FrameDelivery` runs client and compositor together over the same pages,
  from the opening of a window to its closing and among other clients that do as they please, down to the
  pixels on the display; `FirstFrame` is one such run in full.
- **Page tables** (`PageTables`, `Ownership`, `AddressSpaces`, `Teardown`, `Unmapping`, `Aliasing`,
  `Growth`, `Loading`, `Processes`). The lazily built tree refines a finite map, and is the only record of which frames
  a space owns. The allocator may fail at any call and other cores may refill their translation caches from
  the live tables at any step. The walk is that of the 4 KB granule of VMSAv8-64 in the Arm Architecture
  Reference Manual.
- **Scheduler policy** (`Affinity`, `Policy`, `SchedulerRuns`): the picker as a lexicographic minimum, and
  decisions over every run, on any number of cores.
- **The event queue** (`Virtqueue`, `InputDriver`): a split virtqueue (sections 2.7.6 and 2.7.8 of VIRTIO 1.2)
  with a device that interleaves freely.
- **The file server** (`FileTable`, `ChunkedRead`): generation-tagged handles and reads through small buffers.

Where the code and its documentation disagree the model follows the code:

- `crates/abi/src/class.rs:113-118` promises the bottom band a turn in every eight picks. The escape
  alternates between the lower two bands, so the bound is sixteen; `SchedulerRuns.BottomBandInEight` says
  exactly when a window of eight does reach it.
- `crates/arch-aarch64/src/addrspace.rs:158-160` ignores address bits above 47. `Unmapping.UserRangeOk` is
  stated with that reduction, and `Aliasing.RightInEveryTree` says exactly when the answer is
  right whatever is mapped, `Processes.NewSpaceMisanswers` gives a wrong one.

Two properties one might expect are false, and are stated with the exact condition under which they hold:

- A refused request can change the state: `services/displaysrv/main.rs:1169-1181` swaps a committed buffer
  before it judges the damage. `DisplayRuns.RefusedChangesNothing` gives the condition,
  `DisplayRuns.RefusedSwapShows` an input.
- Mapping a page can lose a frame: `crates/arch-aarch64/src/addrspace.rs:608-616` overwrites without a look.
  `Growth.MappingLosesExactly` and `Loading.LoadingLosesExactly` give the condition for what has been mapped,
  `Processes.Launch` for a program, `Processes.MapTwice` and `Processes.OverlappingProgram` inputs. Heap and
  stack always meet it.

The services are compiled without overflow checks (`crates/kernel/build.rs:532-533`), so their `usize` arithmetic
wraps; the model wraps it wherever a client controls the operands.

`dafny verify dfyconfig.toml` checks the whole project.

## Model

| member | source | states |
|---|---|---|
| `DisplayRuns.OffsetInBounds` | services/displaysrv/main.rs:507-517 | Every on-screen pixel of every buffer lies wholly inside the mapped framebuffer, given only `stride >= width * 4`. |
| `DisplayRuns.OffsetsDisjoint` | services/displaysrv/main.rs:511 | Two different pixels, of the same buffer or of different ones, never share a byte. |
| `DisplayRuns.StepKeepsInv` | services/displaysrv/main.rs:525-553 | One request, client write, reap or repaint keeps the compositor invariant, with the undeclared set grown by what changed and shrunk by what was composited. |
| `DisplayRuns.EveryRunKeepsInv` | services/displaysrv/main.rs:434-447 | Over every run, with flips taken or refused, each pixel of each buffer is in that buffer's stale rectangle, or in the undeclared set, or equals the full painter's-order render; with two buffers the one drawn is never the one shown. |
| `DisplayRuns.PresentedStepShowsRender` | services/displaysrv/main.rs:541-553 | After a step that puts a frame on the display, every pixel not in the undeclared set shows the full render. |
| `DisplayRuns.PresentedFrameIsComplete` | services/displaysrv/main.rs:793-829 | Over every run, a frame put on the display with nothing undeclared equals repainting the whole screen, everywhere. |
| `DisplayRuns.NeverDrawsOnDisplay` | services/displaysrv/main.rs:485-495 | With two buffers, no step of any run changes a pixel of the buffer being scanned out. |
| `DisplayRuns.EditChangesOnlyDeclared` | services/displaysrv/main.rs:1202-1228 | Every pixel whose render changes under raise, destroy or reap lies in the rectangle then composited. |
| `DisplayRuns.EditAddsNothingPending` | services/displaysrv/main.rs:724-758 | So these edits never add to the undeclared set. |
| `DisplayRuns.HonestSwapAddsNothingPending` | services/displaysrv/main.rs:1157-1198 | A commit that swaps in a buffer agreeing with the old one outside its damage adds nothing to the undeclared set. |
| `DisplayRuns.OtherClientsUntouched` | services/displaysrv/main.rs:724-745 | Whatever one client asks for, and its death, leaves the other clients' surfaces the same in content and order. |
| `DisplayRuns.IdsNeverReused` | services/displaysrv/main.rs:698-715 | In every run an id that was handed out and is gone never names a surface again. |
| `DisplayRuns.OwnerBoundsCover` | services/displaysrv/main.rs:724-745 | The bounding rectangle accumulated while removing an owner covers every on-screen pixel of each of its surfaces, although the right and bottom edges are computed with wrapping machine arithmetic. |
| `DisplayRuns.StackStaysBacked` | services/displaysrv/main.rs:1127-1147 | No request can leave a surface over a buffer smaller than its pixels. |
| `DisplayRuns.StackStaysUnique` | services/displaysrv/main.rs:698-715 | The stack never exceeds eight surfaces and its ids stay distinct and below the next id. |
| `DisplayRuns.RefusedChangesNothing` | services/displaysrv/main.rs:1157-1198 | A request that is refused leaves the whole state as it was if and only if it is not a commit of a new, acceptable buffer with refused damage. |
| `DisplayRuns.RefusedSwapIsPending` | services/displaysrv/main.rs:1164-1181 | What that one refusal changes on screen joins the undeclared set, all of it. |
| `DisplayRuns.RefusedSwapShows` | services/displaysrv/main.rs:1164-1181 | A concrete commit that is refused and after which the render is a different colour. |
| `DisplayRuns.GrantedSurfaceIsNew` | services/displaysrv/main.rs:1106-1114 | A create is granted if and only if the stack grows, and the id answered is new and finds the surface for its client. |
| `Requests.RaiseRaises` | services/displaysrv/main.rs:1202-1213 | After a granted raise there are as many surfaces, the one raised is the last of them, the others keep their order, and wherever it is, its own pixel is what the screen should show. |
| `Requests.DestroyDestroys` | services/displaysrv/main.rs:1217-1228 | After a granted destroy no surface of that client has that id, and the others are all there in the same order. |
| `Requests.CommitCommits` | services/displaysrv/main.rs:1157-1198 | A commit changes nothing of the stack but the buffer of the surface named, and that to the buffer sent if and only if one was sent that is large enough. |
| `Requests.CreateCreates` | services/displaysrv/main.rs:1106-1114 | A granted create adds one surface above all the others, of the size and place asked for, and it shows wherever it is. |
| `Requests.ReapReaps` | services/displaysrv/main.rs:724-745 | Of a dead client no surface is left; of everyone else every one is, in the same order. |
| `Requests.CreateRefusals` | services/displaysrv/main.rs:1106-1147 | A create is refused as malformed, for its buffer, or for want of room, each if and only if that is the first of the three to apply. |
| `Requests.OtherRefusals` | services/displaysrv/main.rs:1157-1228 | Anything else is refused for naming no surface of the client's, for its buffer or for its damage, each if and only if that is the first to apply. |
| `Requests.CommitDeclares` | services/displaysrv/main.rs:1179-1198 | A granted commit declares every on-screen pixel of its surface in the damage; and nothing else, unless the surface lies so far out that the damage begins past 2^64. |
| `Requests.EditDeclares` | services/displaysrv/main.rs:1202-1228 | A raise or destroy declares exactly the on-screen pixels of its surface. |
| `Requests.OwnerBoundsLeast` | services/displaysrv/main.rs:724-745 | Without wrap-around the bounds accumulated are the least rectangle enclosing all surfaces of the owner, and there are none exactly if it has no surface. |
| `Requests.ReapDeclares` | services/displaysrv/main.rs:941-944 | Reaping declares all that is gone from the screen, and nothing outside any rectangle that encloses it. |
| `Requests.ReplyCountsPixels` | services/displaysrv/main.rs:793-829 | The number a client is answered is the number of screen pixels composited for it. |
| `DisplayRuns.FallsBehindLeast` | services/displaysrv/main.rs:525-535 | What a buffer is behind by is inside every rectangle that covers what it was behind by and the new damage. |
| `ShownRight.TopKept` | services/displaysrv/main.rs:724-758 | Where a step declares nothing, the surface uppermost afterwards is new or was uppermost before. |
| `ShownRight.CleanKept` | services/displaysrv/main.rs:1106-1228 | No step by anyone leaves an undeclared pixel under a good surface, one committed whole and kept honestly by its own client since. |
| `ShownRight.EveryRunStaysClean` | services/displaysrv/main.rs:434-447 | Nor does any run. |
| `ShownRight.GoodSurfacesShownRight` | services/displaysrv/main.rs:793-829 | Over every run of every client, whenever a frame reaches the display each good surface is shown right wherever it is uppermost; nothing is assumed of anyone else. |
| `Surfaces.ClipExact` | services/displaysrv/main.rs:582-592 | Clipping keeps exactly the on-screen pixels, answers nothing only when there are none, and is the identity inside the screen. |
| `Surfaces.UnionLeast` | services/displaysrv/main.rs:557-569 | The union covers both rectangles, stays on screen, and is contained in every rectangle covering both. |
| `Surfaces.RenderShowsTopmost` | services/displaysrv/main.rs:772-776 | The surface the top-down hit test names is the one whose pixel bottom-up painting shows, and it names none exactly on background. |
| `Surfaces.RenderWithout` | services/displaysrv/main.rs:755-758 | Removing a surface changes the render only where that surface is. |
| `Surfaces.RenderRaised` | services/displaysrv/main.rs:748-752 | Raising a surface changes the render only where that surface is. |
| `Surfaces.RenderOthers` | services/displaysrv/main.rs:724-745 | Removing an owner changes the render only where its surfaces are. |
| `Surfaces.OthersUntouched` | services/displaysrv/main.rs:748-758 | Removing, raising or replacing one of an owner's surfaces leaves everyone else's in content and order. |
| `Display.SeedGeometry` | services/displaysrv/main.rs:460-502 | Accepted if and only if there is a base and a screen of that shape is valid with one buffer; then width, height and stride are the seed's, and there are two buffers exactly if it offers two or more. |
| `Display.PutChangesOnePixel` | services/displaysrv/main.rs:507-517 | Writing a pixel changes that pixel of that buffer and no other pixel of any buffer. |
| `Display.Screen.constructor` | services/displaysrv/main.rs:485-502 | Both buffers start wholly stale, buffer 0 shown, drawing into the other one if there are two. |
| `Display.Screen.Put` | services/displaysrv/main.rs:507-517 | On screen: exactly one word of the back buffer changes. Off screen: nothing does. |
| `Display.Screen.Damage` | services/displaysrv/main.rs:525-535 | Every other buffer falls behind by the rectangle; the back one is cleared, and the answer is all it was missing. |
| `Display.Screen.Present` | services/displaysrv/main.rs:541-553 | The buffers swap exactly when there are two, there is a scanout handle and the kernel takes the flip. |
| `Display.Compositor.constructor` | services/displaysrv/main.rs:672-683 | An empty stack, first id 1. |
| `Display.Compositor.IndexOf` | services/displaysrv/main.rs:691-695 | The search over the stack array answers as the specification on the stack does: owner and id must both match. |
| `Display.Compositor.Add` | services/displaysrv/main.rs:698-715 | Refused exactly at eight surfaces, with nothing changed; otherwise a new top with a fresh id. |
| `Display.Compositor.Raise` | services/displaysrv/main.rs:748-752 | In place: the surface moves to the top, the rest keep their order. |
| `Display.Compositor.Remove` | services/displaysrv/main.rs:755-758 | In place: the surface is gone and the gap closed. |
| `Display.Compositor.RemoveOwner` | services/displaysrv/main.rs:724-745 | The loop that edits the array while scanning it leaves exactly the stack filtered by owner, and answers the bounds of what went. |
| `Display.Compositor.TopmostAt` | services/displaysrv/main.rs:772-776 | The highest surface covering the position, or nothing exactly when none covers it. |
| `Display.Compositor.ColourAt` | services/displaysrv/main.rs:816-822 | The bottom-up loop computes the painter's-order render of a pixel. |
| `DisplayServer.Paint` | services/displaysrv/main.rs:810-825 | The nested paint loops set exactly the rectangle of the back buffer to the render and leave every other pixel of every buffer. |
| `DisplayServer.Composite` | services/displaysrv/main.rs:793-829 | Clip, widen to what is stale, paint, present: the new state is one composite of the specification, and the answer the clipped area. |
| `DisplayServer.CreateSurface` | services/displaysrv/main.rs:1106-1114 | Handling a create is one step of the run specification, with its reply; nothing is composited. |
| `DisplayServer.CommitSurface` | services/displaysrv/main.rs:1157-1198 | Handling a commit is one step, with its reply; the buffer is swapped before the damage is judged, so a refused rectangle still swaps. |
| `DisplayServer.RaiseSurface` | services/displaysrv/main.rs:1202-1213 | Handling a raise is one step, with its reply; what that step brings about is `Requests.RaiseRaises`. |
| `DisplayServer.DestroySurface` | services/displaysrv/main.rs:1217-1228 | Handling a destroy is one step, with its reply; what that step brings about is `Requests.DestroyDestroys`. |
| `DisplayServer.ReapClient` | services/displaysrv/main.rs:941-944 | Reaping a dead client is one step; the repainted area is the clipped bounds of its surfaces. |
| `DisplayLoop.OpeningPaint` | services/displaysrv/main.rs:851-855 | The full paint at the start is one repaint step. |
| `DisplayLoop.Server.constructor` | services/displaysrv/main.rs:847-855 | The server starts in an initial state of the run specification and takes that step. |
| `DisplayLoop.Server.Handle` | services/displaysrv/main.rs:1106-1228 | Every request, death and client write extends the run the server's history is, with the specified reply. |
| `DisplayLoop.Server.ShownNow` | services/displaysrv/main.rs:793-829 | At any moment, if the last event reached the display, every good surface is shown right. |
| `Pointing.ToPixelsMonotone` | services/displaysrv/main.rs:1275-1281 | A larger fraction never maps to a smaller pixel. |
| `Pointing.ToPixelsOnScreen` | services/displaysrv/main.rs:1275-1281 | Every fraction maps on screen, zero to the first pixel, full scale and beyond to the last. |
| `Pointing.OntoExactly` | services/displaysrv/main.rs:1268-1281 | Every pixel can be pointed at if and only if `extent - 1 <= 65535`. |
| `Pointing.PixelMissed` | services/displaysrv/main.rs:1275-1281 | On a longer axis the last pixel but one can never be pointed at. |
| `Pointing.ToPixelsInProportion` | services/displaysrv/main.rs:1275-1281 | The pixel is the position on the axis the fraction stands for, rounded down. |
| `Outboxes.EnqueueAppends` | services/displaysrv/main.rs:1501-1512 | Writing at `(head + len) % 8` appends to the queue the ring stands for. |
| `Outboxes.DequeueDropsOldest` | services/displaysrv/main.rs:1472-1484 | Advancing the head removes the oldest event and nothing else. |
| `Outboxes.Outbox.Send` | services/displaysrv/main.rs:1501-1512 | An event is refused exactly when it arrives at a full queue; otherwise it is accepted after everything accepted before it. It waits only behind others or because the endpoint has just had no room for it. |
| `Outboxes.Outbox.OfferOldest` | services/displaysrv/main.rs:1474-1482 | The oldest event leaves the queue exactly when the endpoint took it; otherwise that endpoint refused once more. |
| `Outboxes.Outbox.FlushClient` | services/displaysrv/main.rs:1474-1482 | The queue goes out until it is empty or the endpoint has refused, once; delivered followed by held stays equal to accepted; the count is exactly what left the queue; no other client is touched. |
| `Outboxes.Outbox.Flush` | services/displaysrv/main.rs:1472-1484 | The same for each client served, and the others are untouched. |
| `Outboxes.PackRoundTrip` | services/displaysrv/main.rs:1398-1400 | Each half comes back as its low 32 bits, so both come back whole if and only if both fit in 32 bits. |
| `Outboxes.DeliveredPositionIsInside` | services/displaysrv/main.rs:1352-1363 | The local position a client is told is inside its surface and names the spot the pointer is at. |
| `Outboxes.DeliveredStateIsThePointers` | services/displaysrv/main.rs:1352-1363 | The message also names the spot on the screen and the surface, and has one bit set for each button that is down. |
| `Outboxes.PointerFollows` | services/displaysrv/main.rs:1300-1320 | A move puts the pointer at the position its fractions stand for and leaves the buttons; a button event changes whether that one button is down, and nothing else; any other event changes nothing. |
| `Outboxes.DeliverPointer` | services/displaysrv/main.rs:1337-1364 | The event goes to the owner of the surface shown under the pointer; it is refused exactly when there is none or that owner's queue is full. |
| `Outboxes.Route` | services/displaysrv/main.rs:1294-1327 | One event: where it is bound, how the pointer moves, and that it is refused exactly when bound nowhere or for a full queue. |
| `Outboxes.PumpInput` | services/displaysrv/main.rs:1285-1328 | Routed + dropped + held equals held before + events taken, and the two counts are of the events sent at once and refused; the pointer ends where the moves put it; every client is given exactly the events bound for it and not refused, in order. |
| `Outboxes.InputLoop.Flush` | services/displaysrv/main.rs:1079 | What is held goes out first, for each client until its queue is empty or its endpoint refuses; the running account of events stays balanced. |
| `Outboxes.InputLoop.Pump` | services/displaysrv/main.rs:1080-1088 | Over the whole life of the loop, routed + dropped + held equals events taken from the driver; each turn routes its events as `PumpInput` says and adds its counts. |
| `RoundRobin.Scan` | services/displaysrv/main.rs:1646-1667 | The client served is the nearest pending one from the cursor, none exactly when nobody is pending, and the cursor moves just past it. |
| `RoundRobin.DistanceShrinks` | services/displaysrv/main.rs:1646-1667 | Serving anyone else brings the scan strictly nearer to a waiting client. |
| `RoundRobin.BoundedWaiting` | services/displaysrv/main.rs:1646-1667 | While a client keeps a request queued, at most clients - 1 others are served before it. |
| `Handover.StepKeepsInv` | services/qstaros/qstarosconnection.cpp:155-194 | Any client or server step keeps the two-process invariant of pairing and pointing, whatever is flushed. |
| `Handover.EveryRunKeepsInv` | services/qstaros/qstaroswindow.cpp:114-196 | It holds throughout every interleaving of client and server, with any number of windows on one connection and whatever regions are flushed. |
| `Handover.EveryAnswerIsItsOwn` | services/qstaros/qstarosconnection.cpp:86-110 | At most one question is ever open, so every call and every collected commit reads its own answer. |
| `Handover.NeverWritesWhatServerShows` | services/qstaros/qstaroswindow.cpp:162-189 | From a window's first commit on, no paint and no restore copy writes the buffer the server's surface points at. |
| `Handover.ServerSeesWholeFrames` | services/displaysrv/main.rs:1164-1173 | At any moment, what the server would read of a committed window is the whole last committed frame. |
| `Handover.CommitTakesPostedBuffer` | services/displaysrv/main.rs:1164-1173 | A served commit leaves the surface over the posted buffer, with all of it as posted. |
| `Handover.WrongOnlyWhereMissed` | services/qstaros/qstaroswindow.cpp:114-196 | On every run, whatever is flushed, a buffer differs from the frame intended only at positions painted since the flush, still owed, or missed by a flush and not made up for since. |
| `Handover.MissedExactly` | services/qstaros/qstarosbackingstore.cpp:50-65 | A position counts as missed if and only if some flush left it out after it was painted and since then neither it has been painted nor the window opened anew. |
| `Handover.CommittedFrameIsComplete` | services/qstaros/qstaroswindow.cpp:114-160 | If nothing a flush of that window missed is still not made up for, a commit is acted on with the whole intended frame in its buffer, the two buffers differing only inside its damage. |
| `Handover.SettledBuffersAgree` | services/qstaros/qstaroswindow.cpp:162-196 | Under the same condition, after settling both buffers hold the intended frame everywhere. |
| `Handover.FlushMustCoverPaint` | services/qstaros/qstarosbackingstore.cpp:50-65 | Buffers that agreed agree again after paint, flush and settle if and only if every position really changed lies in the flushed damage. |
| `Handover.UncoveredPaintIsStale` | services/qstaros/qstarosbackingstore.cpp:50-65 | A concrete paint outside the flush that leaves a stale pixel in the buffer painted next. |
| `RestoreCopy.Restore` | services/qstaros/qstaroswindow.cpp:183-189 | The row loop copies exactly the damage rectangle between the buffers and leaves every other pixel. |
| `QtClient.ClippedExactly` | services/qstaros/qstaroswindow.cpp:123 | A pixel is in the rectangle posted if and only if it is in the rectangle flushed and in the buffer. |
| `QtClient.CoveredExactly` | services/qstaros/qstaroswindow.cpp:123 | So a position of the buffer is damaged and owed if and only if it was flushed. |
| `QtClient.Client.Await` | services/qstaros/qstarosconnection.cpp:93-107 | The wait ends after at most one turn of the server, with the answer to the one open question. |
| `QtClient.Client.CollectCommit` | services/qstaros/qstarosconnection.cpp:171-194 | Exactly the answer to the posted commit is taken if there is one, and none is outstanding afterwards. |
| `QtClient.Client.Call` | services/qstaros/qstarosconnection.cpp:86-110 | Whatever is outstanding is collected first, the question is put, and the answer returned is to this very question; the record of steps stays a run of the protocol. |
| `QtClient.Client.PostCommit` | services/qstaros/qstarosconnection.cpp:155-169 | The previous commit is collected before this one is sent, and the send is not waited for. |
| `QtClient.Client.Settle` | services/qstaros/qstaroswindow.cpp:162-196 | Nothing is owed afterwards, and what was owed has been copied between the buffers as the restore step says; if no flush missed anything both then hold the intended frame; no other window is touched. |
| `QtClient.Client.CopyOwed` | services/qstaros/qstaroswindow.cpp:183-189 | The copy of the owed rectangle is an enabled restore step. |
| `QtClient.Client.Present` | services/qstaros/qstaroswindow.cpp:114-160 | For any region flushed: nothing happens without a surface or if none of it lies in the buffer; otherwise, whatever was owed being restored first, the painted buffer is posted with the flushed part of it as damage, the other becomes current and is owed that part. What is missed from then on is what was missed before and the painted positions outside the flush: nothing more, if it covers them all. |
| `QtClient.Client.Release` | services/qstaros/qstaroswindow.cpp:46-68 | The restore is finished, then the server asked to destroy the surface; the stale image no longer lies over any window buffer in use. |
| `QtClient.Client.Raise` | services/qstaros/qstaroswindow.cpp:100-104 | With a surface the raise is asked of the server and answered; no buffer is touched and nothing more is missed. |
| `QtClient.Client.Allocate` | services/qstaros/qstaroswindow.cpp:25-44 | Two zeroed buffers and a surface over the first; or no surface, exactly if the size is empty or the kernel refused the buffers. |
| `QtClient.Client.Resize` | services/qstaros/qstarosbackingstore.cpp:17-33 | The image lies over the buffer that may be written exactly when there is a surface and the sizes agree. |
| `QtClient.Client.Stroke` | services/qstaros/qstarosbackingstore.cpp:24-33 | A stroke through the image lands in the back buffer, and never, once the window has committed, in the one the server points at. |
| `QtClient.Client.PaintFrame` | services/qstaros/qstarosbackingstore.cpp:35-48 | After settling and any number of strokes, with the server acting in between, the strokes have gone into the back buffer and the intended frame alike. |
| `QtClient.Client.Flush` | services/qstaros/qstarosbackingstore.cpp:50-65 | For any region flushed, it is presented exactly unless the image is null, with the same account of what is missed; afterwards the image lies over the buffer that is now the back one. |
| `FrameDelivery.AgreeingBuffersAgreeOnSurface` | services/qstaros/qstaroswindow.cpp:175-189 | Buffers equal outside the damaged positions are equal on every surface pixel outside the damaged rectangle. |
| `FrameDelivery.CommitIsHonest` | services/qstaros/qstaroswindow.cpp:114-160 | A posted commit is accepted by the server and differs from what its surface was over only inside its damage. |
| `FrameDelivery.WriteKeeps` | services/qstaros/qstaroswindow.cpp:162-189 | Painting and restoring keep client and server joined over the same pages, and disturb no window that is good. |
| `FrameDelivery.CommitKeeps` | services/displaysrv/main.rs:1157-1198 | Serving a commit keeps them joined, and makes the window good if its damage is all of it or it was good before. |
| `FrameDelivery.OpeningKeeps` | services/qstaros/qstaroswindow.cpp:25-44 | Opening a window over two blank buffers of its own keeps them joined. |
| `FrameDelivery.ClosingKeeps` | services/qstaros/qstaroswindow.cpp:46-68 | Closing one does. |
| `FrameDelivery.AskingKeeps` | services/displaysrv/main.rs:1202-1213 | Raising one of its windows does. |
| `FrameDelivery.TheirsKeep` | services/displaysrv/main.rs:1106-1228 | Anything any other client creates, commits, raises, destroys, writes or dies of does, as long as it does not use this client's buffers. |
| `FrameDelivery.EveryJointRunKeepsInv` | services/qstaros/qstaroswindow.cpp:114-196 | They stay joined over every run from the client's first request on. |
| `FrameDelivery.OnceGoodStaysGood` | services/qstaros/qstaroswindow.cpp:114-196 | In every such run a window that has become good is good until it is closed. |
| `FrameDelivery.WindowsAreShown` | services/displaysrv/main.rs:793-829 | Whenever any step of anyone's reaches the display, each good window shows, wherever it is uppermost, exactly the frame it committed last. |
| `FrameDelivery.CommittedFrameReachesDisplay` | services/displaysrv/main.rs:793-829 | When a commit of a whole window, or of part of a good one, reaches the display, the window shows exactly the frame the toolkit meant wherever it is uppermost; and with nothing undeclared by anyone the display is right everywhere. |
| `FirstFrame.FirstFrameIsShown` | services/qstaros/qstaroswindow.cpp:114-160 | A concrete run of six steps, from asking for a window to its first painted frame on the display. |
| `PageTables.PathStep` | crates/arch-aarch64/src/addrspace.rs:158-160 | The bits extracted level by level are the digits of the page number, so a path through the tree names one page. |
| `PageTables.WalkIsLeaf` | crates/arch-aarch64/src/addrspace.rs:626-640 | The four-level walk finds exactly what the finite map from page to descriptor records. |
| `PageTables.LinkKeepsTree` | crates/arch-aarch64/src/addrspace.rs:577-599 | Linking a zeroed table into an empty slot keeps the tree shape. |
| `PageTables.LinkKeepsLeaves` | crates/arch-aarch64/src/addrspace.rs:577-599 | Linking a table changes no translation. |
| `PageTables.WriteChangesOneLeaf` | crates/arch-aarch64/src/addrspace.rs:608-616 | Writing a leaf changes that page's translation and no other. |
| `Ownership.LinkConserves` | crates/arch-aarch64/src/addrspace.rs:577-599 | A linked table keeps taken frames equal to reachable tables plus owned leaves, each reached once. |
| `Ownership.WriteConserves` | crates/arch-aarch64/src/addrspace.rs:608-616 | Writing a leaf gives up exactly the frame it owned and takes exactly the one it now owns. |
| `Ownership.OverwriteLeaksExactly` | crates/arch-aarch64/src/addrspace.rs:608-616 | Overwriting a leaf keeps every taken frame reachable if and only if the old leaf owned nothing. |
| `Ownership.NothingLostExactly` | crates/arch-aarch64/src/addrspace.rs:608-616 | The frames a run of pages owns are none of the estate's if and only if none of those pages owns one. |
| `Growth.MappingLosesExactly` | crates/arch-aarch64/src/addrspace.rs:405-428 | What was mapped of a run accounts for every frame if and only if none of those pages owned one. |
| `Loading.LoadingLosesExactly` | crates/arch-aarch64/src/addrspace.rs:481-551 | What was loaded of a segment accounts for every frame if and only if none of those pages owned one. |
| `Ownership.OtherSpaceUntouched` | crates/arch-aarch64/src/addrspace.rs:3-6 | Whatever is written and freed within one space's frames and the pool, another space that uses none of them stays in order with every translation as it was. |
| `Ownership.SpacesStayApart` | crates/arch-aarch64/src/addrspace.rs:3-6 | Two spaces that keep off each other still do after any operation of one, and the other's translations are as they were. |
| `Ownership.EraseKeepsSpace` | crates/arch-aarch64/src/addrspace.rs:745-760 | Clearing a leaf, with or without its frame already back in the pool, keeps the space invariant. |
| `Ownership.BelowIsChildren` | crates/arch-aarch64/src/addrspace.rs:1244-1266 | What is owned below a table is the table and what is owned below its 512 children. |
| `Ownership.SubtreesDisjoint` | crates/arch-aarch64/src/addrspace.rs:1244-1266 | Different subtrees share no frame, and none contains its own table's frame. |
| `Ownership.TakenIsBelowRoot` | crates/arch-aarch64/src/addrspace.rs:23-31 | The frames taken are exactly those owned below the root: nothing beside the tree records them. |
| `AddressSpaces.AddressSpace.Lookup` | crates/arch-aarch64/src/addrspace.rs:626-640 | The walking loop answers the leaf of the page, invalid at the first hole. |
| `AddressSpaces.AddressSpace.LeafTable` | crates/arch-aarch64/src/addrspace.rs:577-599 | On success the level-3 table of the page exists; it fails exactly if the pool refused a frame; on every path no translation changes and no frame is lost. |
| `AddressSpaces.AddressSpace.MapPage` | crates/arch-aarch64/src/addrspace.rs:608-616 | Success changes the lookup of that page alone, whatever was mapped there; failure, exactly if the pool refused a frame, changes none; the estate gains the new frame if owned and loses exactly the one overwritten; only the estate's frames are written. |
| `AddressSpaces.AddressSpace.MapFresh` | crates/arch-aarch64/src/addrspace.rs:254-267 | A zeroed owned frame at that page alone, at the cost of exactly the frame overwritten; or nothing changed, exactly if the pool refused a frame. |
| `Teardown.FreeTable` | crates/arch-aarch64/src/addrspace.rs:1244-1266 | Exactly the frames owned below a table go to the pool, each out of it until freed, and no borrowed leaf. |
| `Teardown.Destroy` | crates/arch-aarch64/src/addrspace.rs:784-787 | The pool ends as what it was plus everything the space took: the original estate. |
| `Teardown.Populate` | crates/arch-aarch64/src/addrspace.rs:236-247 | On success exactly the data page and one stack page are mapped; it fails exactly if the pool refused a frame, and no frame is lost. |
| `Teardown.New` | crates/arch-aarch64/src/addrspace.rs:202-229 | A space that shares the original pool between itself and the allocator; or no space and the pool exactly as it was, exactly if the pool refused a frame. |
| `Unmapping.UserRangeOk` | crates/arch-aarch64/src/addrspace.rs:653-672 | True if and only if the range does not overflow, does not end in the last page below 2^64, and every page it touches, taken modulo 2^36, is mapped with the EL0 rights asked for. |
| `Unmapping.AliasAbove48Bits` | crates/arch-aarch64/src/addrspace.rs:158-160 | A range and its copy any multiple of 2^48 away get the same answer. |
| `Unmapping.RightExactly` | crates/arch-aarch64/src/addrspace.rs:653-672 | In any one tree a range ending beyond 2^48 is answered rightly only by being refused. |
| `Aliasing.RightInEveryTree` | crates/arch-aarch64/src/addrspace.rs:158-160 | The answer is right whatever is mapped, in every tree of tables, if and only if the range ends by 2^48. |
| `Processes.NewSpaceMisanswers` | crates/arch-aarch64/src/addrspace.rs:653-672 | A concrete wrong answer every new space gives, about an address 2^48 above its data page. |
| `Unmapping.CoherentIsSafe` | crates/arch-aarch64/src/addrspace.rs:729-764 | If every cached translation is live, no free frame is named by a descriptor or a cached translation. |
| `Unmapping.ClearedIsSafe` | crates/arch-aarch64/src/addrspace.rs:745-757 | Nor between the clear and the invalidation, though caches may still hold the old entry. |
| `Unmapping.InvalidatedIsCoherent` | crates/arch-aarch64/src/addrspace.rs:748-757 | Whatever other cores refilled meanwhile, after the invalidation every cached translation is live. |
| `Unmapping.UnmapPage` | crates/arch-aarch64/src/addrspace.rs:732-761 | One page: counted if and only if it was mapped, no frame in the pool while anything names it. |
| `Unmapping.Unmap` | crates/arch-aarch64/src/addrspace.rs:729-764 | For any range, counted around the 2^36 pages there are: the count is the size of the set of pages touched that were mapped; those are gone and no other changed; no table is created; no frame is lost. |
| `Unmapping.UnmapAgainIsNothing` | crates/arch-aarch64/src/addrspace.rs:715-721 | Repeating the call counts nothing. |
| `Unmapping.ExistingLeafTable` | crates/arch-aarch64/src/addrspace.rs:685-696 | The level-3 table of the page if the path exists, and nothing otherwise; no table is made. |
| `Growth.MapAnonAt` | crates/arch-aarch64/src/addrspace.rs:405-428 | A prefix of the pages becomes fresh read/write pages, all of them if and only if it succeeds, and it fails exactly if the pool refused a frame; no other translation changes; the frames lost are exactly those the prefix owned. |
| `Growth.GrowStack` | crates/arch-aarch64/src/addrspace.rs:288-315 | For any address at all: the one page faulted on, if it is inside the stack region and absent and the pool does not refuse; otherwise nothing. |
| `Growth.ReserveAnon` | crates/arch-aarch64/src/addrspace.rs:382-395 | Accepted if and only if it is not empty and fits the heap region; the cursor then moves by exactly the request. |
| `Growth.RunKeepsInv` | crates/arch-aarch64/src/addrspace.rs:382-428 | Over every run of reservations, page mappings interleaved in any order, unmaps and faults, the heap invariant holds. |
| `Growth.GrowthNeverOverwrites` | crates/arch-aarch64/src/addrspace.rs:405-428 | In every run no step maps a page that is mapped. |
| `Growth.ReservationsApart` | crates/arch-aarch64/src/addrspace.rs:382-395 | In every run each range handed out is inside the heap region and no two meet. |
| `Growth.GuardNeverFilled` | crates/arch-aarch64/src/addrspace.rs:288-301 | In every run nothing between the heap and the guard limit becomes mapped. |
| `Growth.FaultsStayInStack` | crates/arch-aarch64/src/addrspace.rs:288-301 | In every run, whatever faults arrive, a page outside the heap that becomes mapped lies in the stack region. |
| `Growth.StackBounded` | crates/arch-aarch64/src/addrspace.rs:288-301 | After any run, whatever faults arrived, at most 256 pages outside the heap are mapped that were not mapped at the start. |
| `Processes.Process.Reserve` | crates/arch-aarch64/src/addrspace.rs:382-395 | Reserving on a live space is the reserve step; a refusal leaves everything alone. |
| `Processes.Process.MapNextPage` | crates/arch-aarch64/src/addrspace.rs:405-428 | Mapping the next page of a reservation finds it absent because every run says so; it fails exactly if the pool refused a frame, and is then no step at all. |
| `Processes.Process.MapReserved` | crates/arch-aarch64/src/addrspace.rs:405-428 | What has been mapped since is exactly a prefix of the reservation, none of it mapped before; all of it if and only if it succeeds, and it fails exactly if the pool refused a frame. |
| `Processes.Process.MapAnon` | crates/arch-aarch64/src/addrspace.rs:347-355 | On success every page of the run is newly mapped, inside the heap, from where the cursor was. No address is answered exactly if the request does not fit, and then nothing changes, or if the pool refused a frame before all of the run was mapped. |
| `Processes.Process.Fault` | crates/arch-aarch64/src/addrspace.rs:288-315 | A fault on a live space is a fault step of the machine, taken unless the pool refused a frame. |
| `Processes.Process.UnmapRange` | crates/arch-aarch64/src/addrspace.rs:729-764 | An unmap on a live space is an unmap step; the cursor does not move back. |
| `Processes.LoadSegments` | crates/kernel/src/main.rs:2842-2855 | Every segment is tried, in order; exactly the pages loaded are added, none in the heap region; it fails exactly if one cannot be loaded or pool or source had nothing to give; if no two segments share a page no frame is lost however far each got, and on success all are in place with their bytes; if all were loaded and two share one, a frame is lost. |
| `Processes.Process.constructor` | crates/arch-aarch64/src/addrspace.rs:202-229 | Any space with an empty heap, whatever is loaded in it, begins a run of the growth machine. |
| `Processes.Launch` | crates/kernel/src/main.rs:2520-2525 | A new space with a program loaded becomes a process with exactly the pages asked for, or is taken down again, exactly if a segment cannot be loaded or pool or source had nothing to give; a process accounts for every frame there was if and only if no two of its segments share a page, and then every segment is in place with its bytes. |
| `Processes.OverlappingProgram` | crates/kernel/src/main.rs:2520-2525 | A concrete program of two segments on one page, each good by itself, to which that applies. |
| `Processes.MapTwice` | crates/arch-aarch64/src/addrspace.rs:608-616 | Mapping the same page twice loses exactly the first frame. |
| `Processes.Isolated` | crates/arch-aarch64/src/addrspace.rs:3-6 | Whatever a process maps, faults in or unmaps, any other space on the same memory keeps every translation, and the two stay apart. |
| `Loading.LoadingStaysInside` | crates/arch-aarch64/src/addrspace.rs:3-6 | Loading writes and takes only what the space and the pool have, so it too leaves other spaces as they were. |
| `Loading.PageImageIsFlat` | crates/arch-aarch64/src/addrspace.rs:510-523 | A page zeroed and then overlaid with its part of the file is that stretch of the flat image. |
| `Loading.NeverWritableAndExecutable` | crates/arch-aarch64/src/addrspace.rs:524-530 | Every page of a loaded segment is readable, executable exactly if the flags say so, and writable exactly if they say so and it is not executable. |
| `Loading.LoadPage` | crates/arch-aarch64/src/addrspace.rs:502-546 | One page: mapped with exactly its bytes in place of what was there; or nothing mapped and the frame given back, exactly if bytes or frames ran out. |
| `Loading.MapSegment` | crates/arch-aarch64/src/addrspace.rs:481-551 | A prefix of the pages is loaded, all of them on success, inside the image region and without overflow; it fails exactly if the segment is not one that can be loaded or pool or source had nothing to give; no other translation changes; the frames lost are exactly those the prefix owned. |
| `Loading.SegmentIsFlatCopy` | crates/arch-aarch64/src/addrspace.rs:481-551 | Reading any address of a loaded segment through the tables gives the file byte below the file size and zero from there to the end of the last page. |
| `Affinity.FindCyclicIsNearest` | crates/abi/src/affinity.rs:114-137 | The cyclic scan finds the satisfying slot nearest after the one being left, and nothing exactly when there is none. |
| `Policy.ChooseIsLeast` | crates/abi/src/class.rs:182-197 | The slot chosen is the lexicographic minimum of (place of its class in the band order, cold cache, cyclic distance) over pickable slots other than the one being left; none exactly when there is none. |
| `Policy.ChooseFirstIsLeast` | crates/abi/src/class.rs:202-216 | With no slot being left it is the same minimum with the slot number in place of the distance. |
| `SchedulerRuns.PickIsFirstBand` | crates/kernel/src/sched.rs:475-534 | Both entry points serve the first band of the order that has anything eligible. |
| `SchedulerRuns.DecidesExactly` | crates/kernel/src/sched.rs:1235-1260 | A preempt is declined if and only if classes are honoured, this is no fairness decision, and there is something eligible and all of it is strictly less urgent than what is running; nothing is decided exactly if nothing is eligible. |
| `SchedulerRuns.PickedBand` | crates/abi/src/class.rs:154-162 | The band picked from at each phase of the sixteen-decision cycle, whichever of the three have anything eligible. |
| `SchedulerRuns.StepCounts` | crates/kernel/src/sched.rs:509-570 | A core's counter moves exactly if anything was eligible, fairness decisions count exactly every eighth, and inversions exactly when the core is given past something more urgent. |
| `SchedulerRuns.InversionNeedsFairness` | crates/abi/src/class.rs:269-276 | The independent scan finds something more urgent only on a fairness decision. |
| `SchedulerRuns.InversionsBounded` | crates/kernel/src/sched.rs:536-570 | Over every run on any number of cores, inversions never exceed fairness decisions. |
| `SchedulerRuns.BandsByPhase` | crates/abi/src/class.rs:154-162 | The band served first depends on the counter modulo sixteen alone. |
| `SchedulerRuns.PhaseAdvances` | crates/kernel/src/sched.rs:509-517 | While some band stays ready every trip is a decision and the phase moves by one, across wrap-around of the counter. |
| `SchedulerRuns.NoBandStarves` | crates/abi/src/class.rs:245-247 | A band that always has something eligible is actually given the core within any 16 consecutive decisions, or any 2 for the top band, although downward preempts are declined as `DecidesExactly` says. |
| `SchedulerRuns.NoBandStarvesInRun` | crates/kernel/src/sched.rs:475-534 | The same inside any run of all the cores: once a core has made as many decisions as the window, the band has been given that core. |
| `SchedulerRuns.CounterIsItsOwn` | crates/kernel/src/sched.rs:509-517 | A core's counter is moved by its own decisions and by nothing else. |
| `SchedulerRuns.BottomBandInEight` | crates/abi/src/class.rs:113-118 | Every window of eight decisions with the bottom band ready throughout serves it if and only if the window starts in the first half of a sixteen-decision cycle. |
| `SchedulerRuns.BusyWindowOfEight` | crates/abi/src/class.rs:154-162 | With all bands busy throughout, each single such window serves the bottom band if and only if it starts there. |
| `SchedulerRuns.EightPicksCanMissTheBottom` | crates/abi/src/class.rs:113-118 | A concrete window, started anywhere in the second half of a cycle, that never reaches it. |
| `Virtqueue.NegotiatesEight` | services/inputsrv/main.rs:383 | The queue size written is the largest both sides allow, and eight if and only if the device offers at least eight in the sixteen bits kept. |
| `Virtqueue.SetUpInv` | services/inputsrv/main.rs:397-420 | Filling the queue establishes the ring invariant. |
| `Virtqueue.StepKeepsInv` | services/inputsrv/main.rs:506-524 | Every driver and device step keeps it, and every used entry read names a real descriptor. |
| `Virtqueue.EveryRunKeepsInv` | services/inputsrv/main.rs:483-524 | It holds throughout every interleaving of driver and device. |
| `Virtqueue.RepublishIsSafe` | services/inputsrv/main.rs:514-522 | The slot a republish writes is the next to publish and none the device has still to take. |
| `Virtqueue.ExactlyOneHolder` | services/inputsrv/main.rs:506-524 | Each descriptor is with exactly one of the available ring, the device, an unread used entry and the driver's hand. |
| `InputDriver.WrapKeepsEquality` | services/inputsrv/main.rs:506 | Comparing sixteen-bit indices for equality compares the true counts. |
| `InputDriver.EventQueue.constructor` | services/inputsrv/main.rs:397-420 | The loop fills the ring and publishes all eight entries. |
| `InputDriver.EventQueue.RecycleOne` | services/inputsrv/main.rs:506-524 | One turn reads the oldest unread entry, hands it back and moves on, the device acting freely in between. |
| `InputDriver.EventQueue.Drain` | services/inputsrv/main.rs:483-530 | Every buffer returned before the index was read is handled once, in order, the device acting freely from that read on; the loop ends across wrap-around; the available index is then last used + 8 modulo 2^16. |
| `FileTable.HandleParts` | services/fssrv/main.rs:142-155 | The generation and slot packed into a handle are recovered from it. |
| `FileTable.RefusedExactlyWhenFull` | services/fssrv/main.rs:142-148 | An open is refused, and changes nothing, if and only if every slot is in use; otherwise one slot more is, and the others are as they were. |
| `FileTable.InsertResolves` | services/fssrv/main.rs:142-148 | A grant makes its handle resolve to the entry and changes no other handle. |
| `FileTable.RemoveResolves` | services/fssrv/main.rs:158-165 | A close makes that handle resolve to nothing and changes no other. |
| `FileTable.Table.Insert` | services/fssrv/main.rs:142-148 | The array loop is the specification's insert. |
| `FileTable.Table.Get` | services/fssrv/main.rs:151-155 | The lookup on the array answers as the specification does for every handle. |
| `FileTable.Table.Remove` | services/fssrv/main.rs:158-165 | Closes exactly a handle that resolves. |
| `FileTable.RunKeepsInv` | services/fssrv/main.rs:212-240 | The table agrees with the history of answers after every run of at most 2048 requests. |
| `FileTable.HandlesResolveExactly` | services/fssrv/main.rs:142-165 | After every such run and for every 64-bit value, it resolves to an entry if and only if it was granted for that entry and not closed since. |
| `FileTable.ClosedStaysClosed` | services/fssrv/main.rs:158-165 | A closed handle never resolves again in any continuation. |
| `ChunkedRead.ReplyAccountsForFile` | services/fssrv/main.rs:304-306 | In range, offset + written + left is the file size; past the end both are zero; and what is written is as much as the request, the buffer or the file allows. |
| `ChunkedRead.ServeRead` | services/fssrv/main.rs:304-321 | Exactly the bytes named are copied to the front of the buffer, the rest of it is untouched, and the byte count grows by what was written. |
| `ChunkedRead.ReadWhole` | services/fssrv/main.rs:293-322 | A reader that advances by what it was given until nothing is left ends with exactly the file, for any non-zero request and buffer sizes, and the byte count grows by the file size. |

## Left out

- `Unmapping.UserRangeOk`: a range ending in the last page below 2^64 of a space all of whose 2^36 pages grant the access is left out, because the loop then never ends; with overflow checks on, the kernel would stop there instead of wrapping.
- Whether an endpoint has room, the pool a frame, the kernel a buffer or a source its bytes is decided by nobody here: each may refuse at any call, and a count of its refusals ties every failure to one.
- `Handover`: sends that fail, answers that never come, refused commits and the timeouts for them; reply pairing rests on their absence. Before a window's first commit it paints the buffer the server already shows.
- `FrameDelivery.EveryJointRunKeepsInv`: flushes are taken to cover what was painted, and requests to be accepted; other clients are taken not to use this client's buffers, which they hold no capability to. A window counts as good from its first commit of the whole of it, which is what a toolkit sends when a window is first exposed.
- `QtClient`: shared buffers are values mapped for a single copy, so two mappings of one buffer in one process are not modelled; profiling is left out.
- Framebuffer words are kept at their byte offset rather than as four bytes; the offsets are proved disjoint.
- Pixels a client writes while its surface is being composited: a client write is a step of its own.
- Wrap-around of the 32-bit statistics counters and of the 64-bit surface id, and the statistics themselves, report lines and console buffers.
- Revoking a capability while a surface uses it; requests for screen size, watching and focus beyond their effect on routing.
- Destroying a space assumes, as the kernel does, that no core still runs in it; its cached translations are not tracked there.
- Mapping of shared memory, device registers, DMA runs, the device tree, the initial archive and the framebuffer: further callers of the same page mapping, with easy contracts.
- The bit encodings of descriptors, the buddy allocator, kernel messaging and capabilities: abstracted as a datatype, a free set that may refuse, and queues.
- Affinity masks and the per-task choice inside a band, where nothing is promised.
- Decoding of input events, axis ranges and device registers; path lookup, listing and status requests of the file server.
