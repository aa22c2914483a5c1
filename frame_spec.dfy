/**
 * What one call of `drawFrame` and one call of `recreateSwapChain` do, as pure
 * functions of the renderer's bookkeeping state and of what the window system
 * and the driver answer. The GPU and the window are inputs: each frame brings
 * its acquire, submit and present result codes, the framebuffer sizes the
 * window reports while a rebuild waits, and what the device reports when the
 * swapchain is rebuilt. The observable behaviour is the sequence of API calls,
 * recorded as `Event`s.
 */
module FrameSpec {
  import opened VkTypes
  import opened SwapchainPolicy
  import opened DeviceQueries

  /** Frames the CPU may record while the GPU still works on earlier ones. */
  const MAX_FRAMES_IN_FLIGHT: nat := 2

  /** The frame slot after `slot`, wrapping around: the next one up, or slot 0
      after the last. */
  function NextSlot(slot: nat): (r: nat)
    ensures r < MAX_FRAMES_IN_FLIGHT
    ensures slot + 1 < MAX_FRAMES_IN_FLIGHT ==> r == slot + 1
    ensures slot + 1 == MAX_FRAMES_IN_FLIGHT ==> r == 0
  {
    (slot + 1) % MAX_FRAMES_IN_FLIGHT
  }

  /** The slot reached from `slot` after `n` moves to the next slot. */
  function AdvanceSlot(slot: nat, n: nat): nat
  {
    if n == 0 then slot else NextSlot(AdvanceSlot(slot, n - 1))
  }

  /** A per-slot fence. `InFlight`: a submission will signal it. `Reset`:
      unsignalled with nothing pending, so a wait on it never returns. */
  datatype Fence = Signalled | InFlight | Reset

  /** The two semaphores of a frame slot, named by role and slot. */
  datatype Semaphore = ImageAvailable(slot: nat) | RenderFinished(slot: nat)

  datatype View = View(image: nat, format: Format)

  /** A multisampled colour or depth image with its view, or none once
      `cleanupSwapChain` has destroyed it. */
  datatype Attachment = Attachment(extent: Extent, format: Format, samples: bv32) | NoAttachment

  /** The attachment list of one framebuffer: colour, depth, swapchain view. */
  datatype Framebuffer = Framebuffer(color: Attachment, depth: Attachment, view: View, extent: Extent)

  /** Everything `cleanupSwapChain` destroys and the rebuild recreates. */
  datatype Chain = Chain(
    format: Format,
    extent: Extent,
    images: seq<nat>,
    views: seq<View>,
    color: Attachment,
    depth: Attachment,
    framebuffers: seq<Framebuffer>)

  /** One view per swapchain image, view i of image i; one framebuffer per view,
      framebuffer i over view i; every attachment at the swapchain extent. */
  ghost predicate ChainValid(c: Chain)
  {
    && |c.views| == |c.images|
    && (forall i :: 0 <= i < |c.views| ==> c.views[i] == View(c.images[i], c.format))
    && |c.framebuffers| == |c.views|
    && (forall i :: 0 <= i < |c.framebuffers| ==> c.framebuffers[i] == Framebuffer(c.color, c.depth, c.views[i], c.extent))
    && c.color.Attachment? && c.depth.Attachment?
    && c.color.extent == c.extent && c.color.format == c.format
    && c.depth.extent == c.extent
  }

  /** `m_currentFrame`, `m_framebufferResized`, `m_inFlightFences` and the swapchain. */
  datatype FrameState = FrameState(currentFrame: nat, resized: bool, fences: seq<Fence>, chain: Chain)

  /** The frame index is a slot, there is one fence per slot, no fence is left
      reset without a pending submission (so the wait at the start of a frame
      returns), and the swapchain objects fit together. */
  ghost predicate Valid(st: FrameState)
  {
    && st.currentFrame < MAX_FRAMES_IN_FLIGHT
    && |st.fences| == MAX_FRAMES_IN_FLIGHT
    && (forall i :: 0 <= i < |st.fences| ==> st.fences[i] != Reset)
    && ChainValid(st.chain)
  }

  /** The calls the frame loop makes, in the order it makes them, at the level
      of the renderer's helpers: one event per helper call (`createSwapChain`,
      `createImageViews`, ...) rather than per Vulkan call inside it, and
      `vkResetCommandBuffer` folded into `RecordCommandBuffer`. */
  datatype Event =
    | WaitForFence(slot: nat)
    | AcquireNextImage(signal: Semaphore)
    | UpdateUniformBuffer(slot: nat)
    | ResetFence(slot: nat)
    | RecordCommandBuffer(slot: nat, imageIndex: nat)
    | QueueSubmit(wait: Semaphore, signal: Semaphore, fence: nat)
    | QueuePresent(wait: Semaphore, imageIndex: nat)
    | PollEvents
    | QueryFramebufferSize(size: Extent)
    | WaitEvents
    | DeviceWaitIdle
    | CleanupSwapChain
    | CreateSwapChain(config: SwapchainConfig)
    | CreateImageViews
    | CreateColorResources
    | CreateDepthResources
    | CreateFramebuffers

  /** What the device and the window report when the swapchain is rebuilt.
      `resizeWhileWaiting`: the events processed by the waits of the size-polling
      loop, if it waits at all, include a resize notification.
      `sizeAtCreation`: the framebuffer size `chooseSwapExtent` reads when the
      swapchain is created, which the window may report afresh. */
  datatype RebuildEnv = RebuildEnv(
    support: SurfaceSupport,
    families: QueueFamilyIndices,
    swapchainResult: VkResult,
    images: seq<nat>,
    formatProperties: Format -> FormatProperties,
    msaaSamples: bv32,
    resizeWhileWaiting: bool,
    sizeAtCreation: Extent)

  /** What device selection guaranteed: the surface offers formats and both queue
      families exist. */
  predicate EnvOk(env: RebuildEnv)
  {
    |env.support.formats| > 0 && IsComplete(env.families)
  }

  /** Why the loop stops: a wait that never ends, or a thrown error. */
  datatype Halt = Blocked | Failed(failure: Failure)

  datatype Rebuild = Rebuilt(chain: Chain, events: seq<Event>) | RebuildHalted(halt: Halt, events: seq<Event>)

  predicate NonZero(size: Extent)
  {
    size.width != 0 && size.height != 0
  }

  /** The position of the first non-zero size, from position `from` on. */
  function FirstNonZeroFrom(sizes: seq<Extent>, from: nat): (r: Option<nat>)
    decreases |sizes| - from
    ensures r.Some? ==> from <= r.value < |sizes| && NonZero(sizes[r.value])
                        && forall j :: from <= j < r.value ==> !NonZero(sizes[j])
    ensures r.None? ==> forall j :: from <= j < |sizes| ==> !NonZero(sizes[j])
  {
    if from >= |sizes| then None
    else if NonZero(sizes[from]) then Some(from)
    else FirstNonZeroFrom(sizes, from + 1)
  }

  /** The calls of the size-polling loop after `n` answers (n >= 1): one query,
      then for every further answer a query followed by a wait for events. */
  function PollLog(sizes: seq<Extent>, n: nat): (ev: seq<Event>)
    requires 1 <= n <= |sizes|
    ensures |ev| == 2 * n - 1
  {
    if n == 1 then [QueryFramebufferSize(sizes[0])]
    else PollLog(sizes, n - 1) + [QueryFramebufferSize(sizes[n - 1]), WaitEvents]
  }

  /** The swapchain objects `createImageViews`, `createColorResources`,
      `createDepthResources` and `createFramebuffers` make for a new swapchain. */
  function BuildChain(format: Format, extent: Extent, images: seq<nat>, depthFormat: Format, samples: bv32): (c: Chain)
    ensures ChainValid(c)
    ensures c.format == format && c.extent == extent && c.images == images
    ensures c.depth.format == depthFormat && c.color.samples == samples && c.depth.samples == samples
  {
    var views := seq(|images|, i requires 0 <= i < |images| => View(images[i], format));
    var color := Attachment(extent, format, samples);
    var depth := Attachment(extent, depthFormat, samples);
    Chain(format, extent, images, views, color, depth,
          seq(|views|, i requires 0 <= i < |views| => Framebuffer(color, depth, views[i], extent)))
  }

  /** A valid chain is the one `BuildChain` makes from its format, extent, images
      and attachments. */
  lemma ChainDeterminedByParts(c: Chain, depthFormat: Format, samples: bv32)
    requires ChainValid(c)
    requires c.color == Attachment(c.extent, c.format, samples) && c.depth == Attachment(c.extent, depthFormat, samples)
    ensures c == BuildChain(c.format, c.extent, c.images, depthFormat, samples)
  {
    var b := BuildChain(c.format, c.extent, c.images, depthFormat, samples);
    assert c.views == b.views;
    assert c.framebuffers == b.framebuffers;
  }

  /** The calls of a rebuild once a non-zero size is known, in source order. */
  function RebuildCalls(config: SwapchainConfig): seq<Event>
  {
    [DeviceWaitIdle, CleanupSwapChain, CreateSwapChain(config)]
  }

  const CreateSwapchainObjects: seq<Event> := [CreateImageViews, CreateColorResources, CreateDepthResources, CreateFramebuffers]

  /** The part of `recreateSwapChain` after the wait: wait for the device,
      destroy the old swapchain objects, create the swapchain (its extent chosen
      from the size the window reports at creation), its views, the colour and
      depth attachments and the framebuffers. Creating the swapchain fails unless
      the driver answers SUCCESS; the depth attachment fails when no depth format
      is supported. */
  function RebuildAt(env: RebuildEnv): (r: Rebuild)
    requires EnvOk(env)
    ensures r.Rebuilt? ==> ChainValid(r.chain)
  {
    var config := SwapchainCreateInfo(env.support, env.sizeAtCreation, env.families);
    var created := RebuildCalls(config);
    if env.swapchainResult != Success then RebuildHalted(Failed(SwapchainCreationFailed), created)
    else match FindDepthFormat(env.formatProperties)
      case Err(f) => RebuildHalted(Failed(f), created + CreateSwapchainObjects[..3])
      case Ok(depthFormat) =>
        Rebuilt(BuildChain(config.surfaceFormat.format, config.extent, env.images, depthFormat, env.msaaSamples),
                created + CreateSwapchainObjects)
  }

  /** Prefix earlier calls to a rebuild's calls. */
  function PrependRebuild(ev: seq<Event>, r: Rebuild): (r': Rebuild)
    ensures r'.Rebuilt? == r.Rebuilt? && r'.events == ev + r.events
    ensures r.Rebuilt? ==> r'.chain == r.chain
    ensures r.RebuildHalted? ==> r'.halt == r.halt
  {
    match r
      case Rebuilt(c, ev') => Rebuilt(c, ev + ev')
      case RebuildHalted(h, ev') => RebuildHalted(h, ev + ev')
  }

  /** `recreateSwapChain`: poll the framebuffer size until both dimensions are
      non-zero, waiting for events after every poll inside the loop, then rebuild.
      A window that never reports a non-zero size keeps the loop waiting. */
  function RebuildSpec(sizes: seq<Extent>, env: RebuildEnv): (r: Rebuild)
    requires EnvOk(env)
    ensures r.Rebuilt? ==> ChainValid(r.chain)
  {
    if sizes == [] then RebuildHalted(Blocked, [])
    else match FirstNonZeroFrom(sizes, 0)
      case None => RebuildHalted(Blocked, PollLog(sizes, |sizes|))
      case Some(z) => PrependRebuild(PollLog(sizes, z + 1), RebuildAt(env))
  }

  /** How many times the size-polling loop waits for events: once per size
      after the first, up to the first non-zero one or to the last. */
  function WaitCount(sizes: seq<Extent>): (n: nat)
    ensures sizes == [] ==> n == 0
    ensures sizes != [] ==> n < |sizes|
  {
    if sizes == [] then 0
    else match FirstNonZeroFrom(sizes, 0)
      case None => |sizes| - 1
      case Some(z) => z
  }

  /** The resize callback runs during the size-polling loop: it waited, and the
      events it processed include a resize notification. */
  predicate ResizeNotifiedInWait(sizes: seq<Extent>, env: RebuildEnv)
  {
    env.resizeWhileWaiting && WaitCount(sizes) > 0
  }

  /** What the driver and the window answer during one frame. `resizeEvent`: the
      event poll before the frame delivered a resize notification. */
  datatype FrameInput = FrameInput(
    resizeEvent: bool,
    acquireResult: VkResult,
    imageIndex: nat,
    submitResult: VkResult,
    presentResult: VkResult,
    sizes: seq<Extent>,
    env: RebuildEnv)

  /** The end of a step: the loop goes on in a new state, or it has stopped. */
  datatype Step = Continue(state: FrameState, events: seq<Event>) | Halted(halt: Halt, events: seq<Event>)

  /** The calls of a frame up to and including the image acquisition. */
  function AcquireCalls(slot: nat): seq<Event>
  {
    [WaitForFence(slot), AcquireNextImage(ImageAvailable(slot))]
  }

  /** The calls of a frame from the uniform update to the submission. */
  function SubmitCalls(slot: nat, imageIndex: nat): seq<Event>
  {
    [UpdateUniformBuffer(slot), ResetFence(slot), RecordCommandBuffer(slot, imageIndex),
     QueueSubmit(ImageAvailable(slot), RenderFinished(slot), slot)]
  }

  /** Prefix the calls of an earlier step to a step. */
  function Prepend(ev: seq<Event>, s: Step): (r: Step)
    ensures r.Continue? == s.Continue? && r.events == ev + s.events
    ensures s.Continue? ==> r.state == s.state
    ensures s.Halted? ==> r.halt == s.halt
  {
    match s
      case Continue(st, ev') => Continue(st, ev + ev')
      case Halted(h, ev') => Halted(h, ev + ev')
  }

  /** The end of a step that rebuilds the swapchain: go on from `st` with the new
      swapchain, the resize flag set if the callback ran during the rebuild's wait
      (`notified`), or stop where the rebuild stopped; `prefix` are the calls
      before. */
  function AfterRebuild(st: FrameState, prefix: seq<Event>, r: Rebuild, notified: bool): (s: Step)
    ensures s.Continue? == r.Rebuilt? && s.events == prefix + r.events
    ensures s.Continue? ==> s.state == st.(chain := r.chain, resized := st.resized || notified)
    ensures s.Halted? ==> s.halt == r.halt
  {
    match r
      case Rebuilt(chain, ev) => Continue(st.(chain := chain, resized := st.resized || notified), prefix + ev)
      case RebuildHalted(h, ev) => Halted(h, prefix + ev)
  }

  /** The end of `drawFrame` after a successful presentation request, from a
      state whose fence for the slot is already in flight: a present result of
      OUT_OF_DATE or SUBOPTIMAL, or a pending resize, clears the flag and rebuilds
      (the resize callback may set it again during the rebuild's wait); otherwise
      any result but SUCCESS is an error. The frame index then moves to the next
      slot. */
  function AfterPresent(st: FrameState, input: FrameInput): (r: Step)
    requires Valid(st) && EnvOk(input.env)
    ensures r.Continue? ==> Valid(r.state)
    ensures r.Continue? ==> r.state.currentFrame == NextSlot(st.currentFrame)
    // with no rebuild due, SUCCESS goes on and any other result is an error
    ensures !(input.presentResult == ErrorOutOfDateKhr || input.presentResult == SuboptimalKhr || st.resized) ==>
              && (r.Continue? <==> input.presentResult == Success)
              && (r.Halted? ==> r == Halted(Failed(PresentFailed), []))
              && (r.Continue? ==> r.events == [] && r.state.resized == st.resized)
    // with a rebuild due, the frame goes on exactly when the rebuild completes
    ensures (input.presentResult == ErrorOutOfDateKhr || input.presentResult == SuboptimalKhr || st.resized) ==>
              && r.events == RebuildSpec(input.sizes, input.env).events
              && (r.Continue? <==> RebuildSpec(input.sizes, input.env).Rebuilt?)
  {
    var next := NextSlot(st.currentFrame);
    if input.presentResult == ErrorOutOfDateKhr || input.presentResult == SuboptimalKhr || st.resized then
      AfterRebuild(st.(currentFrame := next, resized := false), [], RebuildSpec(input.sizes, input.env),
                   ResizeNotifiedInWait(input.sizes, input.env))
    else if input.presentResult != Success then Halted(Failed(PresentFailed), [])
    else Continue(st.(currentFrame := next), [])
  }

  /** The calls of `drawFrame` after a successful acquisition: update the uniform
      buffer, reset the fence, record, submit (an error unless SUCCESS; the fence
      is then in flight), present, and finish as `AfterPresent` says. */
  function SubmitAndPresent(st: FrameState, input: FrameInput): (r: Step)
    requires Valid(st) && EnvOk(input.env)
    ensures r.Continue? ==> Valid(r.state)
    ensures r.Continue? ==> r.state.currentFrame == NextSlot(st.currentFrame)
    // a failed submission is an error, right after the submission call
    ensures input.submitResult != Success ==>
              r == Halted(Failed(SubmitFailed), SubmitCalls(st.currentFrame, input.imageIndex))
    // a submitted frame presents, then ends as the presentation result says
    ensures input.submitResult == Success ==>
              && (input.presentResult == Success && !st.resized ==> r.Continue?)
              && ((!(input.presentResult == ErrorOutOfDateKhr || input.presentResult == SuboptimalKhr || st.resized)
                   && input.presentResult != Success) ==> r.Halted? && r.halt == Failed(PresentFailed))
  {
    var slot := st.currentFrame;
    var submitted := SubmitCalls(slot, input.imageIndex);
    if input.submitResult != Success then Halted(Failed(SubmitFailed), submitted)
    else
      Prepend(submitted + [QueuePresent(RenderFinished(slot), input.imageIndex)],
              AfterPresent(st.(fences := st.fences[slot := InFlight]), input))
  }

  /** `drawFrame`. Wait for the slot's fence and acquire an image. OUT_OF_DATE:
      rebuild and return, leaving the frame index alone and the fence signalled.
      Any result but SUCCESS and SUBOPTIMAL: error. Otherwise submit and present. */
  function DrawFrameSpec(st: FrameState, input: FrameInput): (r: Step)
    requires Valid(st) && EnvOk(input.env)
    ensures r.Continue? ==> Valid(r.state)
  {
    var slot := st.currentFrame;
    var acquired := AcquireCalls(slot);
    if input.acquireResult == ErrorOutOfDateKhr then
      AfterRebuild(st.(fences := st.fences[slot := Signalled]), acquired, RebuildSpec(input.sizes, input.env),
                   ResizeNotifiedInWait(input.sizes, input.env))
    else if input.acquireResult != Success && input.acquireResult != SuboptimalKhr then
      Halted(Failed(AcquireFailed), acquired)
    else
      Prepend(acquired, SubmitAndPresent(st.(fences := st.fences[slot := Signalled]), input))
  }

  /** The event poll of the main loop: a resize notification sets the flag. */
  function AfterPoll(st: FrameState, resizeEvent: bool): (st': FrameState)
    ensures Valid(st) ==> Valid(st')
    ensures st'.currentFrame == st.currentFrame && st'.resized == (st.resized || resizeEvent)
  {
    if resizeEvent then st.(resized := true) else st
  }

  /** One iteration of `mainLoop`: poll events, then draw. */
  function FrameTurn(st: FrameState, frame: FrameInput): (r: Step)
    requires Valid(st) && EnvOk(frame.env)
    ensures r.Continue? ==> Valid(r.state)
  {
    Prepend([PollEvents], DrawFrameSpec(AfterPoll(st, frame.resizeEvent), frame))
  }

  ghost predicate AllEnvOk(frames: seq<FrameInput>)
  {
    forall k :: 0 <= k < |frames| ==> EnvOk(frames[k].env)
  }

  /** `mainLoop` over a finite run of frames: poll events, draw, until the frames
      run out (the window is closed), then wait for the device to go idle; or
      until the loop stops. */
  function Run(st: FrameState, frames: seq<FrameInput>): (r: Step)
    requires Valid(st) && AllEnvOk(frames)
    ensures r.Continue? ==> Valid(r.state)
    decreases |frames|
  {
    if frames == [] then Continue(st, [DeviceWaitIdle])
    else
      match FrameTurn(st, frames[0])
        case Continue(st', ev) => Prepend(ev, Run(st', frames[1..]))
        case Halted(h, ev) => Halted(h, ev)
  }

  /** Prefixing twice is prefixing once with both. */
  lemma PrependTwice(a: seq<Event>, b: seq<Event>, s: Step)
    ensures Prepend(a, Prepend(b, s)) == Prepend(a + b, s)
  {
    assert a + (b + s.events) == a + b + s.events;
  }

  /** How many of the calls `ev` satisfy `p`. */
  function Count(ev: seq<Event>, p: Event -> bool): nat
  {
    if ev == [] then 0 else (if p(ev[0]) then 1 else 0) + Count(ev[1..], p)
  }

  predicate IsSubmit(e: Event) { e.QueueSubmit? }
  predicate IsReset(e: Event) { e.ResetFence? }
  predicate IsPresent(e: Event) { e.QueuePresent? }
  predicate IsSwapchainCreation(e: Event) { e.CreateSwapChain? }
}
