/**
  The per-tick frame-slot state machine: `render`, `record`, `submit` and
  `present` in src/render.cpp, and the older copy in src/sigil.cpp.

  Every Vulkan call is replaced by its result, which the tick takes as input;
  what the tick does is recorded as the sequence of GPU calls it issues.
*/
module Render {

  /** `context::concurrent_frames` (src/sigil.hpp:47). */
  const Frames: nat := 2

  /**
    The results the tick tells apart. `Other` is every other VkResult: the
    error codes, and also the non-zero success codes such as
    VK_SUBOPTIMAL_KHR, which the source treats like errors.
  */
  datatype VkResult = Success | Timeout | NotReady | Other(code: int)

  /** The two semaphores of a frame slot. */
  datatype Sem = ImageAvailable(slot: nat) | RenderingDone(slot: nat)

  datatype Call =
    | WaitFence(slot: nat)
    | AcquireImage(signal: Sem)
    | ResetFence(slot: nat)
    | ResetCommandBuffer(slot: nat)
    | BeginCommandBuffer(slot: nat)
    | BeginRenderPass(framebuffer: nat, clearValues: nat)
    | BindPipeline
    | BindDescriptorSet(slot: nat)
    | BindVertexBuffer
    | SetViewport
    | SetScissor
    | Draw(vertexCount: nat)
    | EndRenderPass
    | EndCommandBuffer(slot: nat)
    | Submit(commandSlot: nat, wait: Sem, signal: Sem, fence: nat)
    | Present(wait: Sem, image: nat)

  /**
    The newer renderer (src/render.cpp) binds the slot's descriptor set and
    clears colour and depth; the older one (src/sigil.cpp) does neither.
  */
  datatype Variant = Modern | Legacy

  /** The answers the GPU gives during one tick, in the order they are asked. */
  datatype Answers = Answers(
    fence: VkResult,
    acquire: VkResult,
    image: nat,
    begin: VkResult,
    end: VkResult,
    submit: VkResult)

  datatype Outcome = Outcome(ok: bool, frame: nat, calls: seq<Call>)

  /** `vertices.size()` passed to the `uint32_t` vertex count of vkCmdDraw. */
  const U32: nat := 0x1_0000_0000

  /** The tick ran all the way: an image was acquired, recorded, submitted and presented. */
  predicate Completes(a: Answers) {
    a.fence != Timeout && a.acquire == Success && a.begin == Success
    && a.end == Success && a.submit == Success
  }

  /** The commands written between begin and end of the command buffer (render.cpp:60-83). */
  function Commands(v: Variant, frame: nat, image: nat, vertexCount: nat): seq<Call> {
    [BeginRenderPass(image, if v == Modern then 2 else 1), BindPipeline]
    + (if v == Modern then [BindDescriptorSet(frame)] else [])
    + [BindVertexBuffer, SetViewport, SetScissor, Draw(vertexCount % U32), EndRenderPass]
  }

  /** `record` (render.cpp:46-91, sigil.cpp:142-202). */
  function Record(v: Variant, frame: nat, a: Answers, vertexCount: nat): (r: (bool, seq<Call>))
    ensures r.0 <==> a.begin == Success && a.end == Success
    ensures |r.1| >= 2 && r.1[0] == ResetCommandBuffer(frame) && r.1[1] == BeginCommandBuffer(frame)
    ensures a.begin != Success ==> |r.1| == 2
    ensures forall c :: c in r.1 ==> !c.Submit? && !c.Present? && !c.ResetFence?
  {
    var head := [ResetCommandBuffer(frame), BeginCommandBuffer(frame)];
    if a.begin != Success then (false, head)
    else
      var body := head + Commands(v, frame, a.image, vertexCount) + [EndCommandBuffer(frame)];
      (a.end == Success, body)
  }

  /**
    `submit` (render.cpp:93-114): waits on the slot's image-available
    semaphore, signals its rendering-done semaphore and its fence.
  */
  function SubmitCall(frame: nat): Call {
    Submit(frame, ImageAvailable(frame), RenderingDone(frame), frame)
  }

  /** `present` (render.cpp:116-124): waits on rendering-done; its result is never looked at. */
  function PresentCall(frame: nat, image: nat): Call {
    Present(RenderingDone(frame), image)
  }

  /** `render` (render.cpp:10-43, sigil.cpp:204-237). */
  function Tick(v: Variant, frame: nat, vertexCount: nat, a: Answers): (r: Outcome)
    requires frame < Frames
    ensures r.frame < Frames
    ensures r.frame == (if Completes(a) then (frame + 1) % Frames else frame)
    ensures r.ok <==> a.fence == Timeout || a.acquire == NotReady || Completes(a)
    ensures |r.calls| >= 1 && r.calls[0] == WaitFence(frame)
  {
    var wait := [WaitFence(frame)];
    if a.fence == Timeout then Outcome(true, frame, wait)
    else
      var acquired := wait + [AcquireImage(ImageAvailable(frame))];
      if a.acquire != Success then Outcome(a.acquire == NotReady, frame, acquired)
      else
        var reset := acquired + [ResetFence(frame)];
        var (recorded, cmds) := Record(v, frame, a, vertexCount);
        if !recorded then Outcome(false, frame, reset + cmds)
        else
          var submitted := reset + cmds + [SubmitCall(frame)];
          if a.submit != Success then Outcome(false, frame, submitted)
          else Outcome(true, (frame + 1) % Frames, submitted + [PresentCall(frame, a.image)])
  }

  // ---------------------------------------------------------------------------
  // Single-tick properties

  predicate NoWork(calls: seq<Call>) {
    forall c :: c in calls ==>
      !c.AcquireImage? && !c.ResetFence? && !c.BeginCommandBuffer? && !c.Submit? && !c.Present?
  }

  /** A fence poll that times out returns success having done nothing else. */
  lemma TimeoutDoesNothing(v: Variant, frame: nat, n: nat, a: Answers)
    requires frame < Frames && a.fence == Timeout
    ensures var r := Tick(v, frame, n, a);
      r.ok && r.frame == frame && r.calls == [WaitFence(frame)] && NoWork(r.calls)
  {
  }

  /** Only a time-out stops the tick at the fence; every other answer goes on to acquire. */
  lemma OnlyTimeoutStopsAtFence(v: Variant, frame: nat, n: nat, a: Answers)
    requires frame < Frames
    ensures AcquireImage(ImageAvailable(frame)) in Tick(v, frame, n, a).calls <==> a.fence != Timeout
  {
  }

  /**
    An image that is not ready yet ends the tick with success, before the
    fence is reset: the slot stays signalled for the next tick.
  */
  lemma NotReadyKeepsFence(v: Variant, frame: nat, n: nat, a: Answers)
    requires frame < Frames && a.fence != Timeout && a.acquire == NotReady
    ensures var r := Tick(v, frame, n, a);
      r.ok && r.frame == frame && ResetFence(frame) !in r.calls
      && r.calls == [WaitFence(frame), AcquireImage(ImageAvailable(frame))]
  {
  }

  /** Any other acquire result that is not success fails the tick, with the fence untouched. */
  lemma AcquireErrorFails(v: Variant, frame: nat, n: nat, a: Answers)
    requires frame < Frames && a.fence != Timeout
    requires a.acquire != Success && a.acquire != NotReady
    ensures var r := Tick(v, frame, n, a);
      !r.ok && r.frame == frame && ResetFence(frame) !in r.calls
  {
  }

  /** The fence is reset exactly when an image was acquired. */
  lemma FenceResetIffAcquired(v: Variant, frame: nat, n: nat, a: Answers)
    requires frame < Frames
    ensures ResetFence(frame) in Tick(v, frame, n, a).calls <==> a.fence != Timeout && a.acquire == Success
  {
    var r := Tick(v, frame, n, a);
    if a.fence != Timeout && a.acquire == Success {
      assert r.calls[2] == ResetFence(frame);
    }
  }

  /** A failed record or submit fails the tick, never presents and keeps the slot. */
  lemma RecordOrSubmitFailureStops(v: Variant, frame: nat, n: nat, a: Answers)
    requires frame < Frames && a.fence != Timeout && a.acquire == Success
    requires a.begin != Success || a.end != Success || a.submit != Success
    ensures var r := Tick(v, frame, n, a);
      !r.ok && r.frame == frame && forall c :: c in r.calls ==> !c.Present?
  {
  }

  /**
    A submission waits on the slot's image-available semaphore and signals
    that slot's rendering-done semaphore and fence; the presentation that
    follows it waits on the same rendering-done semaphore and shows the
    acquired image.
  */
  lemma SubmitAndPresentShareSlot(v: Variant, frame: nat, n: nat, a: Answers)
    requires frame < Frames && Completes(a)
    ensures var r := Tick(v, frame, n, a);
      && |r.calls| >= 2
      && r.calls[|r.calls| - 2] == Submit(frame, ImageAvailable(frame), RenderingDone(frame), frame)
      && r.calls[|r.calls| - 1] == Present(RenderingDone(frame), a.image)
      && AcquireImage(ImageAvailable(frame)) in r.calls
  {
  }

  /** On full success the draw covers every current vertex (modulo the 32-bit count). */
  lemma CompletedTickDrawsAllVertices(v: Variant, frame: nat, n: nat, a: Answers)
    requires frame < Frames && Completes(a) && n < U32
    ensures Draw(n) in Tick(v, frame, n, a).calls
    ensures (v == Modern) <==> BindDescriptorSet(frame) in Tick(v, frame, n, a).calls
  {
    var cmds := Commands(v, frame, a.image, n);
    assert Draw(n) in cmds;
    if v == Modern {
      assert BindDescriptorSet(frame) in cmds;
    }
  }

  // ---------------------------------------------------------------------------
  // Many ticks against a GPU that answers the fence poll faithfully

  /**
    The GPU side of the frame slots: the slots whose fence is unsignalled, and
    among them those with a submitted batch that has not completed yet.
  */
  datatype Gpu = Gpu(unsignalled: set<nat>, inFlight: set<nat>)

  predicate GpuInv(g: Gpu) {
    g.inFlight <= g.unsignalled
  }

  /**
    The fence poll answers time-out exactly for an unsignalled fence. An
    error answer (a lost device, say) for a fence that is still pending is
    outside this assumption.
  */
  predicate Faithful(g: Gpu, frame: nat, a: Answers) {
    (a.fence == Timeout) <==> frame in g.unsignalled
  }

  /** What one tick's calls do to the fences. */
  function Effect(g: Gpu, calls: seq<Call>): (r: Gpu)
    decreases |calls|
  {
    if |calls| == 0 then g else Effect(ApplyCall(g, calls[0]), calls[1..])
  }

  /** Resetting a fence unsignals it; a submission puts the fence's slot in flight. */
  function ApplyCall(g: Gpu, c: Call): Gpu {
    if c.ResetFence? then g.(unsignalled := g.unsignalled + {c.slot})
    else if c.Submit? then g.(inFlight := g.inFlight + {c.fence})
    else g
  }

  /** Something between two ticks: a tick of the loop, or the GPU finishing batches. */
  datatype Event = TickEvent(a: Answers) | Finish(slots: set<nat>)

  datatype LoopState = LoopState(frame: nat, gpu: Gpu, running: bool)

  /** A batch finishing signals its slot's fence. */
  function FinishBatches(g: Gpu, slots: set<nat>): Gpu {
    Gpu(g.unsignalled - (slots * g.inFlight), g.inFlight - slots)
  }

  /**
    Feeds events to the render loop; the loop stops at the first failed tick
    (src/sigil.cpp:62-65). Also reports whether any tick submitted to a slot
    whose previous batch was still in flight.
  */
  function Loop(v: Variant, s: LoopState, n: nat, events: seq<Event>): (r: (LoopState, bool))
    requires s.frame < Frames
    ensures r.0.frame < Frames
    decreases |events|
  {
    if |events| == 0 || !s.running then (s, false)
    else
      match events[0]
      case Finish(slots) =>
        Loop(v, s.(gpu := FinishBatches(s.gpu, slots)), n, events[1..])
      case TickEvent(a) =>
        var t := Tick(v, s.frame, n, a);
        var clash := SubmitCall(s.frame) in t.calls && s.frame in s.gpu.inFlight;
        var rest := Loop(v, LoopState(t.frame, Effect(s.gpu, t.calls), t.ok), n, events[1..]);
        (rest.0, clash || rest.1)
  }

  predicate AllFaithful(v: Variant, s: LoopState, n: nat, events: seq<Event>)
    requires s.frame < Frames
    decreases |events|
  {
    |events| == 0 || !s.running ||
    match events[0]
    case Finish(slots) => AllFaithful(v, s.(gpu := FinishBatches(s.gpu, slots)), n, events[1..])
    case TickEvent(a) =>
      var t := Tick(v, s.frame, n, a);
      Faithful(s.gpu, s.frame, a) && AllFaithful(v, LoopState(t.frame, Effect(s.gpu, t.calls), t.ok), n, events[1..])
  }

  lemma EffectAppend(g: Gpu, xs: seq<Call>, ys: seq<Call>)
    ensures Effect(g, xs + ys) == Effect(Effect(g, xs), ys)
    decreases |xs|
  {
    if |xs| > 0 {
      assert (xs + ys)[0] == xs[0] && (xs + ys)[1..] == xs[1..] + ys;
      EffectAppend(ApplyCall(g, xs[0]), xs[1..], ys);
    } else {
      assert xs + ys == ys;
    }
  }

  lemma EffectNeutral(g: Gpu, calls: seq<Call>)
    requires forall c :: c in calls ==> !c.ResetFence? && !c.Submit?
    ensures Effect(g, calls) == g
    decreases |calls|
  {
    if |calls| > 0 {
      assert calls[0] in calls;
      EffectNeutral(g, calls[1..]);
    }
  }

  /**
    A tick marks its slot's fence unsignalled when it resets it, and the slot
    in flight when it submits; nothing else changes on the GPU side.
  */
  lemma TickEffect(v: Variant, frame: nat, n: nat, a: Answers, g: Gpu)
    requires frame < Frames
    ensures var reset := a.fence != Timeout && a.acquire == Success;
      var submitted := reset && a.begin == Success && a.end == Success;
      Effect(g, Tick(v, frame, n, a).calls)
        == Gpu(g.unsignalled + (if reset then {frame} else {}),
               g.inFlight + (if submitted then {frame} else {}))
  {
    var wait := [WaitFence(frame)];
    var acquired := wait + [AcquireImage(ImageAvailable(frame))];
    var reset := acquired + [ResetFence(frame)];
    var (recorded, cmds) := Record(v, frame, a, n);
    EffectNeutral(g, acquired);
    if a.fence != Timeout && a.acquire == Success {
      var g1 := g.(unsignalled := g.unsignalled + {frame});
      EffectAppend(g, acquired, [ResetFence(frame)]);
      assert Effect(g, reset) == g1;
      EffectAppend(g, reset, cmds);
      EffectNeutral(g1, cmds);
      if recorded {
        var submitted := reset + cmds + [SubmitCall(frame)];
        EffectAppend(g, reset + cmds, [SubmitCall(frame)]);
        if a.submit == Success {
          EffectAppend(g, submitted, [PresentCall(frame, a.image)]);
        }
      }
    }
  }

  /**
    Against a GPU whose fence poll answers faithfully (time-out exactly for an
    unsignalled fence, so never an error while a batch is pending),
    the loop never submits to a slot whose previous batch is still in flight,
    however ticks and completions interleave.
  */
  lemma {:induction false} NoSubmitWhileInFlight(v: Variant, s: LoopState, n: nat, events: seq<Event>)
    requires s.frame < Frames && GpuInv(s.gpu)
    requires AllFaithful(v, s, n, events)
    ensures !Loop(v, s, n, events).1
    decreases |events|
  {
    if |events| > 0 && s.running {
      match events[0]
      case Finish(slots) =>
        NoSubmitWhileInFlight(v, s.(gpu := FinishBatches(s.gpu, slots)), n, events[1..]);
      case TickEvent(a) =>
        var t := Tick(v, s.frame, n, a);
        TickEffect(v, s.frame, n, a, s.gpu);
        NoSubmitWhileInFlight(v, LoopState(t.frame, Effect(s.gpu, t.calls), t.ok), n, events[1..]);
    }
  }
}
