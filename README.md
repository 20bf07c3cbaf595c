# interpreter-window, modelled in Dafny

`src/window.rs` gives an interpreter a window to draw in. There are two
parts:

- A `FrameCtx` lends the frame callback the pixels backend's RGBA buffer
  together with its width and height. It offers two drawing primitives:
  - `set_background(r, g, b)` fills every pixel with one colour;
  - `set_rect(x, y)` paints a 50 x 50 white square, clipped to the buffer.
- `Window::run` hands every platform event to one handler:
  - a close request sets the control flow to `Exit`;
  - a resize clamps the size to at least 1 x 1, resizes the backend's
    buffer and then its surface, and then calls the user's `on_resize`;
  - an idle tick requests a redraw at most once every 16 ms;
  - a redraw runs the user's `on_frame` on a `FrameCtx` and then renders.

The model follows that structure, module by module:

- `RustInts` holds the Rust integer types and the casts the primitives use:
  - `as u8` keeps the low 8 bits;
  - `as i32` is two's-complement truncation;
  - `i32` addition wraps, as in a release build.
- `Canvas` states the buffer as a value, a `seq<u8>` with four bytes per
  pixel in row-major order. It defines what each drawing call does to it,
  and proves the per-pixel properties and a few concrete scenarios.
- `FrameContext` holds the class `FrameCtx`: `const` width and height and
  an `array<u8>` that it borrows. `SetBackground` and `SetRect` are the
  source's nested loops, writing the array in place. Each is proved to
  leave exactly the buffer that its `Canvas` function describes.
- `EventLoop` holds the handler as a pure state machine:
  - `Step(state, input)` gives the next state and the calls made, in order;
  - `Run` applies `Step` over a sequence of events and stops at `Exit`.
  The properties of resize, tick, redraw, close and of whole runs are
  lemmas about `Step` and `Run`.
- `WindowLoop` holds the class `Window`, the state the handler mutates:
  - the fields `width`, `height`, `lastRedraw`, `terminated` and the
    frame buffer;
  - one method per event, each proved to move the object exactly as
    `Step` does;
  - `Dispatch`, the event loop, proved to move it as `Run` does.

The environment is an input:

- Each event carries the answers the outside world gives while the event is
  handled:
  - the clock reading of an idle tick, in milliseconds;
  - whether `resize_buffer`, `resize_surface` and `render` succeed.
- The calls to the backend, to `request_redraw` and to the two callbacks
  are recorded in a ghost `trace` of `Effect`s.
- The frame callback is the sequence of `Draw` calls (`set_background` or
  `set_rect`) that it makes on its `FrameCtx`.

Integer decisions:

- `px = x + i` in `set_rect` is `i32` arithmetic and can overflow when `x` is
  within 49 of `i32::MAX`. It is modelled as a release build computes it, a
  wrapping add. `CellGuard` proves that the wrap is harmless: a wrapped sum
  is negative, so the bounds check rejects it. The square is therefore the
  mathematical one for every `x` and `y`.
- The byte index `(y * width + x) * 4` is `u32` arithmetic. Every drawing
  operation requires `Fits(width, height)`, i.e. `width * height * 4 <=
  u32::MAX`, and a buffer of exactly `width * height * 4` bytes. The source
  relies on both and never checks them.
- A resize whose `resize_buffer` succeeds is required to produce a size
  that fits. This is an assumption about the pixels backend, which the
  source does not check; see "## Left out".

The square at (-10, -10) on a 10 x 10 buffer is not off the buffer: it
spans -10..39 in both directions, so it covers the whole buffer and every
byte turns 255 (`Canvas.CoveringScenario`). A square that ends before the
buffer, such as the one at (-50, -50), changes nothing
(`Canvas.OffTopLeftScenario`).

The handler begins every event by setting the control flow to `Poll`
(src/window.rs:131). Once a handler has set `Exit`, the model delivers no
further event to it: `Run` stops there and every event method of `Window`
requires `!terminated`. This rests on the event loop keeping `Exit`
sticky, which the model assumes. It matters because a failed resize has
already stored the new size (src/window.rs:140-147) while the buffer or
the surface keeps the old one. `EventLoop.FailedResizeLeavesStaleSize`
states this mismatch, and that a redraw handled after it would call
`on_frame` with the stored size while the buffer (after a failed
`resize_buffer`) or the surface (after a failed `resize_surface`) still
has the old one.

## Model

| member | source | states |
|---|---|---|
| RustInts.AsU8 | src/window.rs:22-24 | `v as u8` is the byte congruent to v modulo 256, and the identity on 0..255 |
| RustInts.AsU8Periodic | src/window.rs:22-24 | adding a multiple of 256 to a channel value does not change its byte |
| RustInts.AsU8WrapsAround | src/window.rs:22-24 | out-of-range channels wrap and do not saturate: 256 → 0, 300 → 44, -1 → 255 |
| RustInts.AsI32 | src/window.rs:39-40 | `v as i32` is the `i32` congruent to v modulo 2^32, and the identity on values that fit |
| RustInts.AsI32Wraps | src/window.rs:39-40 | `as i32` wraps coordinates that do not fit: 2^31 → i32::MIN, -2^31-1 → i32::MAX, 2^32+5 → 5 |
| RustInts.WrappingAddI32 | src/window.rs:45-46 | the `i32` sum equals the mathematical sum unless it overflows; above i32::MAX it is the sum minus 2^32 |
| Canvas.FillBackground | src/window.rs:21-34 | the buffer after `set_background` with the cast channels: bytes r, g, b, 255 in every pixel, of the old length; its properties are `BackgroundPixels` and `BackgroundOverwrites` |
| Canvas.PaintSquare | src/window.rs:38-61 | the buffer after `set_rect` with the cast corner: the pixels of the 50 x 50 square white, every other byte kept, of the old length; its properties are `RectPixels` and the lemmas after it |
| Canvas.Apply | src/window.rs:21-61 | one call of the frame callback, with the `as u8` / `as i32` casts its primitive applies; it keeps the buffer's length |
| Canvas.ApplyAll | src/window.rs:184 | the calls of one frame callback applied in order; it keeps the buffer's length |
| Canvas.BackgroundPixels | src/window.rs:21-34 | after `set_background(r, g, b)` the buffer has its old length and every pixel is (r as u8, g as u8, b as u8, 255) |
| Canvas.BackgroundOverwrites | src/window.rs:26-33 | `set_background` writes every byte: the result does not depend on the old contents |
| Canvas.RectPixels | src/window.rs:38-61 | after `set_rect(x, y)` pixel (px, py) of the buffer is white exactly when it lies in the 50 x 50 square at (x as i32, y as i32), and keeps its colour otherwise |
| Canvas.SquareOffBuffer | src/window.rs:48-53 | a square wholly left of, above, right of or below the buffer changes no byte |
| Canvas.RectOffBuffer | src/window.rs:38-53 | the same for `set_rect`, whose coordinates are truncated to `i32` first |
| Canvas.RectIdempotent | src/window.rs:43-58 | painting the same square twice leaves the same buffer as painting it once |
| Canvas.CoveringScenario | src/window.rs:38-61 | on a 10 x 10 buffer `set_rect(-10, -10)` turns every byte 255 |
| Canvas.OffTopLeftScenario | src/window.rs:48-53 | on a 10 x 10 buffer `set_rect(-50, -50)` changes nothing |
| Canvas.BottomRightQuarterScenario | src/window.rs:38-61 | on a 10 x 10 buffer `set_rect(5, 5)` paints exactly the pixels (5..10, 5..10) white and leaves the rest |
| Canvas.FrameStartingWithBackground | src/window.rs:184 | a frame whose first call is `set_background` does not depend on the buffer's previous contents |
| Canvas.Layout | src/window.rs:28 | the byte index `(py * width + px) * 4` of an in-buffer pixel lies in the buffer, and its pixel has column px and row py |
| FrameContext.FrameCtx.constructor | src/window.rs:177-182 | the context lends the buffer with the handler's width and height |
| FrameContext.FrameCtx.SetBackground | src/window.rs:21-35 | the loops leave exactly the buffer `Apply(old, width, Background(r, g, b))`, with every index in range |
| FrameContext.FrameCtx.SetRect | src/window.rs:38-61 | the loops leave exactly the buffer `Apply(old, width, Rect(x, y))`, with every index in range |
| FrameContext.StorePixel | src/window.rs:29-32 | the four byte writes of one pixel change those four bytes and no other |
| FrameContext.PixelInBuffer | src/window.rs:28 | for a buffer that fits, the `u32` index `(py * width + px) * 4` of an in-bounds cell and the three after it do not exceed u32::MAX, and its four bytes lie in the buffer |
| FrameContext.CellGuard | src/window.rs:45-53 | with wrapping `i32` adds, the bounds check lets a cell through exactly when the mathematical cell is in the buffer, and then no add wrapped |
| EventLoop.AtLeastOne | src/window.rs:140-141 | `v.max(1)` is at least 1 and at least v, and is v or 1 |
| EventLoop.Init | src/window.rs:97-114 | the state after `Window::new`: the inner size for the handler, the buffer and the surface, `last_redraw = now`; it is consistent and not at `Exit` |
| EventLoop.Step | src/window.rs:131-193 | the handler for one event: the next state and the calls made, in order; it never undoes `Exit` and never moves `last_redraw` back. Its properties are the lemmas from `CloseExits` to `FailedResizeLeavesStaleSize` |
| EventLoop.Run | src/window.rs:130-194 | the handler over a sequence of events, stopping at `Exit`; a run from `Exit` does nothing, and no run moves `last_redraw` back |
| EventLoop.CloseExits | src/window.rs:135-136 | a close request sets `Exit`, changes nothing else and calls nothing |
| EventLoop.ResizeClamps | src/window.rs:140-141 | after a resize both dimensions are at least 1; a zero dimension becomes 1, any other is kept; `last_redraw` is unchanged |
| EventLoop.ResizeOrder | src/window.rs:143-158 | `resize_buffer` first; `resize_surface` only if that succeeded; `on_resize` with the clamped size exactly when both succeeded; `Exit` exactly when either failed |
| EventLoop.ResizeSizes | src/window.rs:143-158 | after a resize the backend's buffer and surface have the clamped size when their calls succeed, and keep their sizes when they are not reached |
| EventLoop.ResizeTwice | src/window.rs:138-159 | a second successful resize to the same size changes no state and repeats the same calls |
| EventLoop.TickPaces | src/window.rs:163-169 | an idle tick requests a redraw and sets `last_redraw := now` exactly when now - last_redraw >= 16; otherwise it changes nothing |
| EventLoop.RedrawCalls | src/window.rs:171-190 | a redraw with a zero dimension calls nothing and changes nothing; otherwise `on_frame(width, height)` once, then `render`, and `Exit` exactly on a render error |
| EventLoop.OtherIgnored | src/window.rs:160 | every other event changes nothing and calls nothing |
| EventLoop.StepConsistent | src/window.rs:138-159 | each event keeps the buffer and the surface at the handler's size while the loop runs |
| EventLoop.FrameSeesBuffer | src/window.rs:177-184 | `on_frame` only sees a non-zero size equal to the buffer's and the surface's |
| EventLoop.ExitSticks | src/window.rs:136 | no event undoes `Exit` |
| EventLoop.FailedResizeLeavesStaleSize | src/window.rs:140-154 | after a failed resize from a different size the loop is at `Exit`, the stored size differs from the buffer's or the surface's, and a redraw handled anyway would call `on_frame` with that stored size |
| EventLoop.RunAppend | src/window.rs:130-194 | running two sequences of events one after the other is running their concatenation |
| EventLoop.TerminatedAbsorbs | src/window.rs:146-153 | once a run has reached `Exit`, further events call nothing and change nothing |
| EventLoop.RunConsistent | src/window.rs:138-159 | the buffer and the surface stay at the handler's size for a whole run |
| EventLoop.StepSpacesRedraws | src/window.rs:165-168 | one event requests at most one redraw, and 16 ms times its requests is at most how far it moves `last_redraw` forward |
| EventLoop.RunSpacesRedraws | src/window.rs:165-168 | over any run, 16 ms times the number of redraw requests is at most the forward move of `last_redraw` |
| EventLoop.RunLastRedraw | src/window.rs:167 | at the end of any run `last_redraw` is either its starting value or the clock reading of one of the run's idle ticks |
| EventLoop.RunRedrawRate | src/window.rs:113 | a run whose idle ticks all read the clock at or before `horizon` requests at most (horizon - last_redraw) / 16 redraws |
| WindowLoop.Window.constructor | src/window.rs:97-114 | the new window holds its inner size, a buffer of that size and `last_redraw = now`, and has made no call |
| WindowLoop.Window.Close | src/window.rs:135-136 | the object moves as `Step` does for a close request |
| WindowLoop.Window.Resize | src/window.rs:138-159 | the object and the trace of calls move as `Step` does for a resize; a successful `resize_buffer` gives a buffer of the clamped size, and a failed one keeps the same buffer |
| WindowLoop.Window.Tick | src/window.rs:163-169 | the object and the trace move as `Step` does for an idle tick |
| WindowLoop.Window.Redraw | src/window.rs:171-190 | the object and the trace move as `Step` does for a redraw; the buffer becomes the frame callback's calls applied to it, or is untouched at a zero size |
| WindowLoop.Window.Handle | src/window.rs:131-193 | the handler for any one event moves the object as `Step` does; a redraw leaves the buffer as the callback's calls make it, and any event other than a redraw or a successful `resize_buffer` keeps the same buffer with the same bytes |
| WindowLoop.Window.Dispatch | src/window.rs:130-194 | handing events to the handler until `Exit` moves the object and the trace as `Run` does over the whole sequence; a run with no redraw and no successful `resize_buffer` keeps the same buffer with the same bytes |
| WindowLoop.Paint | src/window.rs:184 | the frame callback's calls, made in order, leave the buffer `ApplyAll(old, width, draws)` |
| WindowLoop.NewFrame | src/window.rs:144 | a buffer of a size that fits has `width * height * 4` bytes |

## Left out

- `src/main.rs` is not part of this model. It is glue: it shares the interpreter's variables across threads and reads them inside the callbacks.
- `Window::new`: the winit window, the `f64` logical size, `SurfaceTexture` and `Pixels::new` are platform calls. The model starts from the inner size the window reports, and the failure of `Pixels::new` (a panic) is not modelled.
- winit and pixels internals are left out: `EventLoop::run`, `ControlFlow::Poll`, `request_redraw` and GPU presentation. They appear only as success/failure inputs and as entries in the trace.
- Events after `Exit`: the model assumes that once the handler has set `Exit`, the `Poll` of src/window.rs:131 cannot undo it and no further event reaches the handler. Every event method requires `!terminated`, and `Run` stops there. An event loop that still hands the rest of its current batch of events to the handler is not modelled; `EventLoop.FailedResizeLeavesStaleSize` shows what a redraw among them would do after a failed resize.
- `Instant` and `Duration` are replaced by an integer millisecond clock reading passed with each idle tick. The source reads the clock twice, once for `elapsed()` and once for `Instant::now()`. The model uses one reading for both.
- The `eprintln!` error messages and the `-> !` non-returning loop are left out.
- Concurrency with the interpreter thread is left out.
- WindowLoop.Window.Resize: the buffer's contents after `resize_buffer` are not modelled, only its length. Those contents are decided inside the pixels crate.
- WindowLoop.Window.Resize: requires that a successful `resize_buffer` give a size whose byte count fits in `u32`. The source assumes this of the backend.
- WindowLoop.Window.Redraw: the frame callback is modelled by the `set_background` and `set_rect` calls it makes. The callback can also overwrite the public `ctx.width` and `ctx.height` before drawing; that is not modelled.
- RustInts.WrappingAddI32: a debug build panics on the `i32` overflow in `set_rect`. Only the release-build wrap is modelled.
