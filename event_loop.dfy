/** The event handler of `Window::run`, as a pure state machine. Each
    platform event, together with what the environment answers while it is
    handled (the clock, the results of the pixels backend's calls), moves
    the loop's state and produces the calls the handler makes, in order.
    WindowLoop proves its class against `Step`; the properties of the
    handler are proved here about `Step` and about runs of events. */
module EventLoop {
  import opened RustInts

  /** The minimum time between two redraw requests, in milliseconds
      (about 60 frames per second). */
  const FrameTime := 16

  datatype Size = Size(width: u32, height: u32)

  /** What the handler keeps between events (the captured `width`,
      `height`, `last_redraw` and the control flow, `terminated` standing
      for `ControlFlow::Exit`), with the sizes that the pixels backend holds
      for its buffer and its surface. */
  datatype LoopState = LoopState(
    width: u32,
    height: u32,
    lastRedraw: int,
    terminated: bool,
    buffer: Size,
    surface: Size)

  /** A platform event with the environment's answers for it: whether
      `resize_buffer` and `resize_surface` succeed, the clock reading of an
      idle tick, whether `render` succeeds. */
  datatype Input =
    | CloseRequested
    | Resized(newWidth: u32, newHeight: u32, bufferOk: bool, surfaceOk: bool)
    | MainEventsCleared(now: int)
    | RedrawRequested(renderOk: bool)
    | OtherEvent

  /** The calls the handler makes: to the pixels backend, to the window,
      and to the two user callbacks. */
  datatype Effect =
    | ResizeBuffer(width: u32, height: u32)
    | ResizeSurface(width: u32, height: u32)
    | OnResize(width: u32, height: u32)
    | RequestRedraw
    | OnFrame(width: u32, height: u32)
    | Render

  /** `v.max(1)`: a zero dimension becomes 1, any other stays. */
  function AtLeastOne(v: u32): (r: u32)
    ensures r >= 1 && r >= v
    ensures r == v || r == 1
  {
    if v < 1 then 1 else v
  }

  /** The state right after `Window::new`: the pixels backend was created
      with the window's size for both buffer and surface. */
  function Init(width: u32, height: u32, now: int): (r: LoopState)
    ensures Consistent(r) && !r.terminated
  {
    LoopState(width, height, now, false, Size(width, height), Size(width, height))
  }

  /** The handler's work for one event: the new state and the calls made. */
  function Step(s: LoopState, input: Input): (r: (LoopState, seq<Effect>))
    ensures s.terminated ==> r.0.terminated
    ensures r.0.lastRedraw >= s.lastRedraw
  {
    match input
    case CloseRequested => (s.(terminated := true), [])
    case Resized(newWidth, newHeight, bufferOk, surfaceOk) =>
      var w, h := AtLeastOne(newWidth), AtLeastOne(newHeight);
      var clamped := s.(width := w, height := h);
      if !bufferOk then
        (clamped.(terminated := true), [ResizeBuffer(w, h)])
      else if !surfaceOk then
        (clamped.(buffer := Size(w, h), terminated := true), [ResizeBuffer(w, h), ResizeSurface(w, h)])
      else
        (clamped.(buffer := Size(w, h), surface := Size(w, h)),
         [ResizeBuffer(w, h), ResizeSurface(w, h), OnResize(w, h)])
    case MainEventsCleared(now) =>
      if now - s.lastRedraw >= FrameTime then (s.(lastRedraw := now), [RequestRedraw])
      else (s, [])
    case RedrawRequested(renderOk) =>
      if s.width == 0 || s.height == 0 then (s, [])
      else (s.(terminated := s.terminated || !renderOk), [OnFrame(s.width, s.height), Render])
    case OtherEvent => (s, [])
  }

  /** The handler over a sequence of events. Once the control flow is
      `Exit` the platform delivers no further event to it. */
  function Run(s: LoopState, inputs: seq<Input>): (r: (LoopState, seq<Effect>))
    ensures s.terminated ==> r == (s, [])
    ensures r.0.lastRedraw >= s.lastRedraw
    decreases |inputs|
  {
    if inputs == [] || s.terminated then (s, [])
    else
      var (next, now) := Step(s, inputs[0]);
      var (last, later) := Run(next, inputs[1..]);
      (last, now + later)
  }

  /** While the loop runs, the buffer and the surface both have the size
      the handler believes the window has. Only a fatal failure, which ends
      the loop, leaves them out of step. */
  ghost predicate Consistent(s: LoopState) {
    !s.terminated ==> s.buffer == Size(s.width, s.height) && s.surface == s.buffer
  }

  /** The events whose handling can change the frame buffer: a redraw
      lends it to the frame callback, and a successful `resize_buffer`
      replaces it. */
  predicate TouchesBuffer(input: Input) {
    input.RedrawRequested? || (input.Resized? && input.bufferOk)
  }

  /** The number of redraw requests among the calls. */
  function Redraws(effects: seq<Effect>): (n: nat)
    ensures n <= |effects|
  {
    if effects == [] then 0
    else (if effects[0] == RequestRedraw then 1 else 0) + Redraws(effects[1..])
  }

  // -----------------------------------------------------------------------
  // One event

  /** CloseRequested sets `Exit` and changes nothing else; no callback runs. */
  lemma CloseExits(s: LoopState)
    ensures Step(s, CloseRequested).0 == s.(terminated := true)
    ensures Step(s, CloseRequested).1 == []
  {
  }

  /** A resize stores `max(new, 1)` for each dimension, so both are at
      least 1 afterwards, whatever the outcome of the backend's calls. */
  lemma ResizeClamps(s: LoopState, newWidth: u32, newHeight: u32, bufferOk: bool, surfaceOk: bool)
    ensures var t := Step(s, Resized(newWidth, newHeight, bufferOk, surfaceOk)).0;
      t.width >= 1 && t.height >= 1 &&
      (newWidth >= 1 ==> t.width == newWidth) && (newHeight >= 1 ==> t.height == newHeight) &&
      (newWidth == 0 ==> t.width == 1) && (newHeight == 0 ==> t.height == 1) &&
      t.lastRedraw == s.lastRedraw
  {
  }

  /** A resize calls `resize_buffer` first, then `resize_surface` only if
      that succeeded, then `on_resize` with the clamped size only if both
      succeeded; either failure sets `Exit` and nothing follows it. */
  lemma ResizeOrder(s: LoopState, newWidth: u32, newHeight: u32, bufferOk: bool, surfaceOk: bool)
    ensures var (t, e) := Step(s, Resized(newWidth, newHeight, bufferOk, surfaceOk));
      var w, h := AtLeastOne(newWidth), AtLeastOne(newHeight);
      && |e| >= 1 && e[0] == ResizeBuffer(w, h)
      && (|e| >= 2 <==> bufferOk)
      && (|e| >= 2 ==> e[1] == ResizeSurface(w, h))
      && (forall a, b :: OnResize(a, b) in e <==> bufferOk && surfaceOk && a == w && b == h)
      && (bufferOk && surfaceOk ==> |e| == 3 && e[2] == OnResize(w, h))
      && (bufferOk && !surfaceOk ==> |e| == 2)
      && (t.terminated <==> s.terminated || !bufferOk || !surfaceOk)
  {
  }

  /** After a resize whose two calls succeed, the buffer and the surface
      both have the clamped size that `on_resize` receives. A failed
      `resize_buffer` leaves both sizes as they were; a failed
      `resize_surface` leaves the surface as it was. */
  lemma ResizeSizes(s: LoopState, newWidth: u32, newHeight: u32, bufferOk: bool, surfaceOk: bool)
    ensures var t := Step(s, Resized(newWidth, newHeight, bufferOk, surfaceOk)).0;
      var size := Size(AtLeastOne(newWidth), AtLeastOne(newHeight));
      && (bufferOk ==> t.buffer == size)
      && (!bufferOk ==> t.buffer == s.buffer)
      && (t.surface == if bufferOk && surfaceOk then size else s.surface)
  {
  }

  /** Resizing twice to the same size: the second resize leaves the
      buffer and the surface as the first left them, and makes the same
      calls, `on_resize` with the clamped values included. */
  lemma ResizeTwice(s: LoopState, newWidth: u32, newHeight: u32)
    ensures var (t1, e1) := Step(s, Resized(newWidth, newHeight, true, true));
      var (t2, e2) := Step(t1, Resized(newWidth, newHeight, true, true));
      && t2 == t1 && e2 == e1
      && OnResize(AtLeastOne(newWidth), AtLeastOne(newHeight)) in e2
  {
  }

  /** An idle tick requests a redraw and records `now` exactly when at
      least 16 ms have passed since the last request; otherwise it changes
      nothing and calls nothing. */
  lemma TickPaces(s: LoopState, now: int)
    ensures var (t, e) := Step(s, MainEventsCleared(now));
      && (RequestRedraw in e <==> now - s.lastRedraw >= FrameTime)
      && (now - s.lastRedraw >= FrameTime ==> t == s.(lastRedraw := now) && e == [RequestRedraw])
      && (now - s.lastRedraw < FrameTime ==> t == s && e == [])
  {
  }

  /** A redraw with a zero dimension calls neither `on_frame` nor `render`
      and changes nothing. Otherwise `on_frame` is called exactly once, with
      the current size, then `render`; a render error sets `Exit`. */
  lemma RedrawCalls(s: LoopState, renderOk: bool)
    ensures var (t, e) := Step(s, RedrawRequested(renderOk));
      && (s.width == 0 || s.height == 0 ==> t == s && e == [])
      && (s.width != 0 && s.height != 0 ==>
            e == [OnFrame(s.width, s.height), Render] &&
            t == s.(terminated := s.terminated || !renderOk))
  {
  }

  /** Every other event is ignored. */
  lemma OtherIgnored(s: LoopState)
    ensures Step(s, OtherEvent) == (s, [])
  {
  }

  /** Each event keeps the buffer and the surface in step with the size
      the handler holds, for as long as the loop runs. */
  lemma StepConsistent(s: LoopState, input: Input)
    requires Consistent(s)
    ensures Consistent(Step(s, input).0)
  {
  }

  /** `on_frame` only ever sees a drawing view whose size is that of the
      buffer it borrows, and a size with no zero in it. */
  lemma FrameSeesBuffer(s: LoopState, input: Input)
    requires Consistent(s) && !s.terminated
    ensures forall w, h :: OnFrame(w, h) in Step(s, input).1 ==>
      s.buffer == Size(w, h) && s.surface == Size(w, h) && w >= 1 && h >= 1
  {
  }

  /** The loop never undoes `Exit`. */
  lemma ExitSticks(s: LoopState, input: Input)
    requires s.terminated
    ensures Step(s, input).0.terminated
  {
  }

  /** The handler stores the clamped size before it calls the backend, so
      a failed resize leaves the size it holds out of step with the
      backend's buffer or surface. Only `Exit` keeps that stale size away
      from the frame callback: a redraw handled after the failure would
      lend the old buffer under the new size. */
  lemma FailedResizeLeavesStaleSize(s: LoopState, newWidth: u32, newHeight: u32, bufferOk: bool, surfaceOk: bool, renderOk: bool)
    requires Consistent(s) && !s.terminated
    requires !bufferOk || !surfaceOk
    requires Size(AtLeastOne(newWidth), AtLeastOne(newHeight)) != Size(s.width, s.height)
    ensures var t := Step(s, Resized(newWidth, newHeight, bufferOk, surfaceOk)).0;
      && t.terminated
      && (t.buffer != Size(t.width, t.height) || t.surface != t.buffer)
      && OnFrame(t.width, t.height) in Step(t, RedrawRequested(renderOk)).1
  {
  }

  // -----------------------------------------------------------------------
  // Runs of events

  /** Running two sequences of events one after the other is running their
      concatenation. */
  lemma {:induction false} RunAppend(s: LoopState, first: seq<Input>, second: seq<Input>)
    ensures var (mid, e1) := Run(s, first);
      var (last, e2) := Run(mid, second);
      Run(s, first + second) == (last, e1 + e2)
    decreases |first|
  {
    if first == [] {
      assert first + second == second;
      var (last, e2) := Run(s, second);
      assert [] + e2 == e2;
    } else if !s.terminated {
      assert (first + second)[0] == first[0];
      assert (first + second)[1..] == first[1..] + second;
      var (next, now) := Step(s, first[0]);
      RunAppend(next, first[1..], second);
      var (mid, later) := Run(next, first[1..]);
      var (last, e2) := Run(mid, second);
      assert now + (later + e2) == (now + later) + e2;
    } else {
      assert Run(s, first + second) == (s, []);
      assert Run(s, second) == (s, []);
      var none: seq<Effect> := [];
      assert none + none == none;
    }
  }

  /** Once a run has ended in `Exit` (a close request or a fatal failure),
      no later event is handled: no callback runs and the state stays. */
  lemma TerminatedAbsorbs(s: LoopState, first: seq<Input>, second: seq<Input>)
    requires Run(s, first).0.terminated
    ensures Run(s, first + second) == Run(s, first)
  {
    RunAppend(s, first, second);
    var (mid, e1) := Run(s, first);
    assert Run(mid, second) == (mid, []);
    assert e1 + [] == e1;
  }

  /** The buffer and the surface stay in step with the handler's size for
      the whole life of the loop. */
  lemma {:induction false} RunConsistent(s: LoopState, inputs: seq<Input>)
    requires Consistent(s)
    ensures Consistent(Run(s, inputs).0)
    decreases |inputs|
  {
    if inputs != [] && !s.terminated {
      StepConsistent(s, inputs[0]);
      RunConsistent(Step(s, inputs[0]).0, inputs[1..]);
    }
  }

  lemma {:induction false} RedrawsAppend(a: seq<Effect>, b: seq<Effect>)
    ensures Redraws(a + b) == Redraws(a) + Redraws(b)
    decreases |a|
  {
    if a == [] {
      assert a + b == b;
    } else {
      assert (a + b)[0] == a[0];
      assert (a + b)[1..] == a[1..] + b;
      RedrawsAppend(a[1..], b);
    }
  }

  /** Redraw requests are spaced: over any run, each request moved
      `last_redraw` forward by at least 16 ms. */
  lemma {:induction false} RunSpacesRedraws(s: LoopState, inputs: seq<Input>)
    ensures var (t, e) := Run(s, inputs);
      Redraws(e) * FrameTime <= t.lastRedraw - s.lastRedraw
    decreases |inputs|
  {
    if inputs != [] && !s.terminated {
      var (next, now) := Step(s, inputs[0]);
      var (last, later) := Run(next, inputs[1..]);
      RunSpacesRedraws(next, inputs[1..]);
      RedrawsAppend(now, later);
      StepSpacesRedraws(s, inputs[0]);
    }
  }

  /** Calls without a redraw request count none. */
  lemma {:induction false} NoRedraws(effects: seq<Effect>)
    requires RequestRedraw !in effects
    ensures Redraws(effects) == 0
  {
    if effects != [] {
      assert effects == [effects[0]] + effects[1..];
      NoRedraws(effects[1..]);
    }
  }

  /** One event requests at most one redraw, and only by moving
      `last_redraw` forward by at least 16 ms. */
  lemma StepSpacesRedraws(s: LoopState, input: Input)
    ensures Redraws(Step(s, input).1) <= 1
    ensures var (t, e) := Step(s, input);
      Redraws(e) * FrameTime <= t.lastRedraw - s.lastRedraw
  {
    match input
    case MainEventsCleared(now) =>
      assert Redraws([RequestRedraw]) == 1 + Redraws([]);
    case CloseRequested =>
    case Resized(w, h, bufferOk, surfaceOk) =>
      NoRedraws(Step(s, input).1);
    case RedrawRequested(ok) =>
    case OtherEvent =>
  }

  /** `last_redraw` only ever takes the clock reading of an idle tick of
      the run: at the end of a run it is either the value it started with
      or the reading of one of the run's idle ticks. */
  lemma {:induction false} RunLastRedraw(s: LoopState, inputs: seq<Input>)
    ensures var t := Run(s, inputs).0;
      t.lastRedraw == s.lastRedraw ||
      exists i :: 0 <= i < |inputs| && inputs[i] == MainEventsCleared(t.lastRedraw)
    decreases |inputs|
  {
    if inputs != [] && !s.terminated {
      var next := Step(s, inputs[0]).0;
      var t := Run(next, inputs[1..]).0;
      assert Run(s, inputs).0 == t;
      RunLastRedraw(next, inputs[1..]);
      if t.lastRedraw != next.lastRedraw {
        var i :| 0 <= i < |inputs[1..]| && inputs[1..][i] == MainEventsCleared(t.lastRedraw);
        assert inputs[i + 1] == MainEventsCleared(t.lastRedraw);
      } else if next.lastRedraw != s.lastRedraw {
        assert inputs[0] == MainEventsCleared(t.lastRedraw);
      }
    }
  }

  /** The pacing rule over a whole run: if no idle tick of the run reads
      the clock after `horizon`, the run requests at most
      (horizon - last_redraw) / 16 redraws. */
  lemma RunRedrawRate(s: LoopState, inputs: seq<Input>, horizon: int)
    requires forall i :: 0 <= i < |inputs| && inputs[i].MainEventsCleared? ==> inputs[i].now <= horizon
    ensures var e := Run(s, inputs).1;
      Redraws(e) == 0 || Redraws(e) * FrameTime <= horizon - s.lastRedraw
  {
    RunSpacesRedraws(s, inputs);
    RunLastRedraw(s, inputs);
  }
}
