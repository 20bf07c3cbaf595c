/** `Window`: the state that `Window::run` moves into its event handler
    (the size the handler believes the window has, the time of the last
    redraw request, the control flow) together with the pixels backend's
    frame buffer, which the handler lends to the frame callback. Each
    event method is proved against `EventLoop.Step`, and a whole run of
    events against `EventLoop.Run`. */
module WindowLoop {
  import opened RustInts
  import opened Canvas
  import opened FrameContext
  import opened EventLoop

  class Window {
    var width: u32
    var height: u32
    /** The clock reading, in milliseconds, of the last redraw request. */
    var lastRedraw: int
    /** The control flow is `Exit`. */
    var terminated: bool
    /** The pixels backend's frame buffer, four bytes per pixel. */
    var frame: array<u8>
    /** The sizes the pixels backend holds for its buffer and its surface. */
    ghost var bufferSize: Size
    ghost var surfaceSize: Size
    /** The calls made so far to the backend, the window and the user's
        callbacks, in order. */
    ghost var trace: seq<Effect>

    ghost function State(): LoopState
      reads this
    {
      LoopState(width, height, lastRedraw, terminated, bufferSize, surfaceSize)
    }

    /** The frame buffer has the backend's buffer size, whose byte indices
        fit in `u32`, and the loop's state is consistent. */
    ghost predicate Valid()
      reads this
    {
      Fits(bufferSize.width, bufferSize.height) &&
      frame.Length == bufferSize.width * bufferSize.height * 4 &&
      Consistent(State())
    }

    /** `Window::new`: the window reports its inner size, and the pixels
        backend is created with that size for both buffer and surface;
        `now` is the clock reading that becomes `last_redraw`. */
    constructor (width: u32, height: u32, now: int)
      requires Fits(width, height)
      ensures Valid() && State() == Init(width, height, now)
      ensures trace == [] && fresh(frame)
    {
      var buffer := NewFrame(width, height);
      frame := buffer;
      this.width, this.height := width, height;
      lastRedraw, terminated := now, false;
      bufferSize, surfaceSize := Size(width, height), Size(width, height);
      trace := [];
    }

    /** `WindowEvent::CloseRequested`: set the control flow to `Exit`. */
    method Close()
      requires Valid() && !terminated
      modifies this
      ensures Valid() && frame == old(frame)
      ensures State() == Step(old(State()), CloseRequested).0
      ensures trace == old(trace) + Step(old(State()), CloseRequested).1
    {
      terminated := true;
    }

    /** `WindowEvent::Resized`: clamp both dimensions to at least 1, resize
        the backend's buffer, then its surface, then tell the user; a failure
        of either resize sets `Exit` and skips the rest. */
    method Resize(newWidth: u32, newHeight: u32, bufferOk: bool, surfaceOk: bool)
      requires Valid() && !terminated
      requires bufferOk ==> Fits(AtLeastOne(newWidth), AtLeastOne(newHeight))
      modifies this
      ensures Valid() && (frame == old(frame) || fresh(frame))
      ensures !bufferOk ==> frame == old(frame)
      ensures State() == Step(old(State()), Resized(newWidth, newHeight, bufferOk, surfaceOk)).0
      ensures trace == old(trace) + Step(old(State()), Resized(newWidth, newHeight, bufferOk, surfaceOk)).1
    {
      width := if newWidth < 1 then 1 else newWidth;
      height := if newHeight < 1 then 1 else newHeight;
      trace := trace + [ResizeBuffer(width, height)];
      if !bufferOk {
        terminated := true;
        return;
      }
      frame := NewFrame(width, height);
      bufferSize := Size(width, height);
      trace := trace + [ResizeSurface(width, height)];
      if !surfaceOk {
        terminated := true;
        return;
      }
      surfaceSize := Size(width, height);
      trace := trace + [OnResize(width, height)];
    }

    /** `Event::MainEventsCleared` at clock reading `now`: request a redraw
        and record the time when at least 16 ms have passed. */
    method Tick(now: int)
      requires Valid() && !terminated
      modifies this
      ensures Valid() && frame == old(frame)
      ensures State() == Step(old(State()), MainEventsCleared(now)).0
      ensures trace == old(trace) + Step(old(State()), MainEventsCleared(now)).1
    {
      if now - lastRedraw >= FrameTime {
        trace := trace + [RequestRedraw];
        lastRedraw := now;
      }
    }

    /** `Event::RedrawRequested`: unless a dimension is 0, lend the frame
        buffer to the frame callback, which makes the calls `draws`, then
        render; a render error sets `Exit`. */
    method Redraw(draws: seq<Draw>, renderOk: bool)
      requires Valid() && !terminated
      modifies this, frame
      ensures Valid() && frame == old(frame)
      ensures State() == Step(old(State()), RedrawRequested(renderOk)).0
      ensures trace == old(trace) + Step(old(State()), RedrawRequested(renderOk)).1
      ensures frame[..] == if old(width) == 0 || old(height) == 0 then old(frame[..])
                           else ApplyAll(old(frame[..]), old(width), draws)
    {
      if width == 0 || height == 0 {
        return;
      }
      var ctx := new FrameCtx(width, height, frame);
      trace := trace + [OnFrame(width, height)];
      Paint(ctx, draws);
      trace := trace + [Render];
      if !renderOk {
        terminated := true;
      }
    }

    /** The handler of `Window::run` for one event. `draws` are the calls
        the frame callback makes if the event is a redraw. */
    method Handle(input: Input, draws: seq<Draw>)
      requires Valid() && !terminated
      requires input.Resized? && input.bufferOk ==> Fits(AtLeastOne(input.newWidth), AtLeastOne(input.newHeight))
      modifies this, frame
      ensures Valid() && (frame == old(frame) || fresh(frame))
      ensures State() == Step(old(State()), input).0
      ensures trace == old(trace) + Step(old(State()), input).1
      ensures !TouchesBuffer(input) ==> frame == old(frame) && frame[..] == old(frame[..])
      ensures input.RedrawRequested? ==>
        (frame == old(frame) &&
         frame[..] == if old(width) == 0 || old(height) == 0 then old(frame[..])
                      else ApplyAll(old(frame[..]), old(width), draws))
    {
      match input
      case CloseRequested => Close();
      case Resized(w, h, bufferOk, surfaceOk) => Resize(w, h, bufferOk, surfaceOk);
      case MainEventsCleared(now) => Tick(now);
      case RedrawRequested(renderOk) => Redraw(draws, renderOk);
      case OtherEvent =>
    }

    /** `event_loop.run`: hand the events to the handler in order until the
        control flow is `Exit`. `frames[i]` are the calls the frame callback
        makes if event i is a redraw. */
    method Dispatch(inputs: seq<Input>, frames: seq<seq<Draw>>)
      requires Valid() && !terminated && |frames| == |inputs|
      requires forall i :: 0 <= i < |inputs| && inputs[i].Resized? && inputs[i].bufferOk ==>
        Fits(AtLeastOne(inputs[i].newWidth), AtLeastOne(inputs[i].newHeight))
      modifies this, frame
      ensures Valid() && (frame == old(frame) || fresh(frame))
      ensures State() == Run(old(State()), inputs).0
      ensures trace == old(trace) + Run(old(State()), inputs).1
      ensures (forall i :: 0 <= i < |inputs| ==> !TouchesBuffer(inputs[i])) ==>
        frame == old(frame) && frame[..] == old(frame[..])
    {
      ghost var s0, t0 := State(), trace;
      var i := 0;
      while i < |inputs| && !terminated
        invariant 0 <= i <= |inputs|
        invariant Valid() && (frame == old(frame) || fresh(frame))
        invariant State() == Run(s0, inputs[..i]).0
        invariant trace == t0 + Run(s0, inputs[..i]).1
        invariant (forall k :: 0 <= k < |inputs| ==> !TouchesBuffer(inputs[k])) ==>
          frame == old(frame) && frame[..] == old(frame[..])
      {
        Handle(inputs[i], frames[i]);
        RunExtend(s0, inputs[..i], inputs[i]);
        assert inputs[..i + 1] == inputs[..i] + [inputs[i]];
        i := i + 1;
      }
      if i < |inputs| {
        TerminatedAbsorbs(s0, inputs[..i], inputs[i..]);
        assert inputs[..i] + inputs[i..] == inputs;
      } else {
        assert inputs[..i] == inputs;
      }
    }
  }

  /** A frame buffer for a `width` x `height` buffer. */
  method NewFrame(width: u32, height: u32) returns (frame: array<u8>)
    requires Fits(width, height)
    ensures fresh(frame) && frame.Length == width * height * 4
  {
    frame := new u8[width * height * 4];
  }

  /** The frame callback's calls on a `FrameCtx`, made in order. */
  method Paint(ctx: FrameCtx, draws: seq<Draw>)
    requires ctx.Valid()
    modifies ctx.frame
    ensures ctx.frame[..] == ApplyAll(old(ctx.frame[..]), ctx.width, draws)
  {
    var i := 0;
    while i < |draws|
      invariant 0 <= i <= |draws|
      invariant ctx.frame[..] == ApplyAll(old(ctx.frame[..]), ctx.width, draws[..i])
    {
      match draws[i] {
        case Background(r, g, b) => ctx.SetBackground(r, g, b);
        case Rect(x, y) => ctx.SetRect(x, y);
      }
      assert draws[..i + 1][..i] == draws[..i];
      i := i + 1;
    }
    assert draws[..i] == draws;
  }

  /** A run that has not ended, extended by one event, takes one more
      step of the handler. */
  lemma RunExtend(s: LoopState, inputs: seq<Input>, input: Input)
    requires !Run(s, inputs).0.terminated
    ensures Run(s, inputs + [input]).0 == Step(Run(s, inputs).0, input).0
    ensures Run(s, inputs + [input]).1 == Run(s, inputs).1 + Step(Run(s, inputs).0, input).1
  {
    RunAppend(s, inputs, [input]);
    var mid := Run(s, inputs).0;
    assert [input][1..] == [];
    assert Run(mid, [input]) == (Step(mid, input).0, Step(mid, input).1 + []);
    assert Step(mid, input).1 + [] == Step(mid, input).1;
  }
}
