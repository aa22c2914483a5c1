/**
 * The renderer object whose fields `drawFrame`, `recreateSwapChain`,
 * `createSyncObjects` and the resize callback update in place. Every method is
 * proved to do what the specification functions of `FrameSpec` say, on the
 * renderer's state and on the log of API calls it makes.
 */
module FrameLoop {
  import opened VkTypes
  import opened SwapchainPolicy
  import opened DeviceQueries
  import opened FrameSpec

  class Renderer {
    var currentFrame: nat                       // m_currentFrame
    var framebufferResized: bool                // m_framebufferResized
    var inFlightFences: seq<Fence>              // m_inFlightFences
    var imageAvailableSemaphores: seq<Semaphore>
    var renderFinishedSemaphores: seq<Semaphore>
    var swapChainImageFormat: Format
    var swapChainExtent: Extent
    var swapChainImages: seq<nat>
    var swapChainImageViews: seq<View>
    var colorImage: Attachment                  // m_colorImage
    var depthImage: Attachment                  // m_depthImage
    var swapChainFramebuffers: seq<Framebuffer>
    var log: seq<Event>                         // the API calls made so far

    ghost function SwapChain(): Chain
      reads this
    {
      Chain(swapChainImageFormat, swapChainExtent, swapChainImages, swapChainImageViews,
            colorImage, depthImage, swapChainFramebuffers)
    }

    ghost function State(): FrameState
      reads this
    {
      FrameState(currentFrame, framebufferResized, inFlightFences, SwapChain())
    }

    /** One semaphore of each role per slot, slot i's at position i. */
    ghost predicate SyncObjectsValid()
      reads this
    {
      && |imageAvailableSemaphores| == MAX_FRAMES_IN_FLIGHT
      && |renderFinishedSemaphores| == MAX_FRAMES_IN_FLIGHT
      && (forall i :: 0 <= i < MAX_FRAMES_IN_FLIGHT ==> imageAvailableSemaphores[i] == ImageAvailable(i))
      && (forall i :: 0 <= i < MAX_FRAMES_IN_FLIGHT ==> renderFinishedSemaphores[i] == RenderFinished(i))
    }

    /** The frame bookkeeping a swapchain rebuild leaves alone. */
    ghost function FrameSync(): (nat, bool, seq<Fence>, seq<Semaphore>, seq<Semaphore>)
      reads this
    {
      (currentFrame, framebufferResized, inFlightFences, imageAvailableSemaphores, renderFinishedSemaphores)
    }

    /** The renderer made the calls of rebuild `r` after `log0`, and holds the
        rebuilt swapchain when `r` succeeded or reports why it stopped. */
    ghost predicate Reached(r: Rebuild, halt: Option<Halt>, log0: seq<Event>)
      reads this
    {
      && log == log0 + r.events
      && (r.Rebuilt? ==> halt == None && SwapChain() == r.chain)
      && (r.RebuildHalted? ==> halt == Some(r.halt))
    }

    /** The renderer made the calls of step `s` after `log0`, and is in the step's
        state when it continues or reports why it stopped. */
    ghost predicate Stepped(s: Step, halt: Option<Halt>, log0: seq<Event>)
      reads this
    {
      && log == log0 + s.events
      && (s.Continue? ==> halt == None && State() == s.state)
      && (s.Halted? ==> halt == Some(s.halt))
    }

    /** Calls made before a rebuild are its prefix. */
    lemma RebuildPrefixed(r: Rebuild, halt: Option<Halt>, log0: seq<Event>, prefix: seq<Event>)
      requires Reached(r, halt, log0 + prefix)
      ensures Reached(PrependRebuild(prefix, r), halt, log0)
    {
      assert log0 + prefix + r.events == log0 + (prefix + r.events);
    }

    /** Calls made before a step are its prefix. */
    lemma StepPrefixed(s: Step, halt: Option<Halt>, log0: seq<Event>, prefix: seq<Event>)
      requires Stepped(s, halt, log0 + prefix)
      ensures Stepped(Prepend(prefix, s), halt, log0)
    {
      assert log0 + prefix + s.events == log0 + (prefix + s.events);
    }

    /** A finished rebuild is the step `AfterRebuild` describes. */
    lemma RebuildIsStep(r: Rebuild, halt: Option<Halt>, log0: seq<Event>, st: FrameState, prefix: seq<Event>, notified: bool)
      requires Reached(r, halt, log0 + prefix)
      requires r.Rebuilt? ==> State() == st.(chain := r.chain, resized := st.resized || notified)
      ensures Stepped(AfterRebuild(st, prefix, r, notified), halt, log0)
    {
    }

    ghost predicate Valid()
      reads this
    {
      FrameSpec.Valid(State()) && SyncObjectsValid()
    }

    /** The renderer after `initVulkan`: the swapchain objects built at start-up,
        the sync objects created, frame slot 0, no resize pending. */
    constructor(initial: Chain)
      requires ChainValid(initial)
      ensures Valid()
      ensures State() == FrameState(0, false, [Signalled, Signalled], initial)
      ensures log == []
    {
      currentFrame := 0;
      framebufferResized := false;
      swapChainImageFormat := initial.format;
      swapChainExtent := initial.extent;
      swapChainImages := initial.images;
      swapChainImageViews := initial.views;
      colorImage := initial.color;
      depthImage := initial.depth;
      swapChainFramebuffers := initial.framebuffers;
      log := [];
      new;
      CreateSyncObjects();
    }

    /** `createSyncObjects`: MAX_FRAMES_IN_FLIGHT image-available and
        render-finished semaphores and as many fences, every fence created
        signalled so that the first wait of each slot returns at once. */
    method CreateSyncObjects()
      modifies this
      ensures SyncObjectsValid()
      ensures inFlightFences == [Signalled, Signalled]
      ensures currentFrame == old(currentFrame) && framebufferResized == old(framebufferResized)
      ensures SwapChain() == old(SwapChain()) && log == old(log)
    {
      var available: seq<Semaphore> := [];
      var finished: seq<Semaphore> := [];
      var fences: seq<Fence> := [];
      var i := 0;
      while i < MAX_FRAMES_IN_FLIGHT
        invariant 0 <= i <= MAX_FRAMES_IN_FLIGHT
        invariant |available| == i && |finished| == i && |fences| == i
        invariant forall j :: 0 <= j < i ==> available[j] == ImageAvailable(j)
        invariant forall j :: 0 <= j < i ==> finished[j] == RenderFinished(j)
        invariant forall j :: 0 <= j < i ==> fences[j] == Signalled
      {
        available := available + [ImageAvailable(i)];
        finished := finished + [RenderFinished(i)];
        fences := fences + [Signalled];
        i := i + 1;
      }
      imageAvailableSemaphores := available;
      renderFinishedSemaphores := finished;
      inFlightFences := fences;
    }

    /** `framebufferResizeCallback`: only records that a resize happened. */
    method FramebufferResizeCallback()
      modifies this
      ensures State() == old(State()).(resized := true)
      ensures log == old(log)
      ensures imageAvailableSemaphores == old(imageAvailableSemaphores)
      ensures renderFinishedSemaphores == old(renderFinishedSemaphores)
    {
      framebufferResized := true;
    }

    /** `cleanupSwapChain`: destroys the colour and depth attachments, the
        framebuffers, the views and the swapchain. */
    method CleanupSwapChain()
      modifies this
      ensures colorImage == NoAttachment && depthImage == NoAttachment
      ensures swapChainFramebuffers == [] && swapChainImageViews == [] && swapChainImages == []
      ensures swapChainImageFormat == old(swapChainImageFormat) && swapChainExtent == old(swapChainExtent)
      ensures FrameSync() == old(FrameSync())
      ensures log == old(log) + [Event.CleanupSwapChain]
    {
      colorImage := NoAttachment;
      depthImage := NoAttachment;
      swapChainFramebuffers := [];
      swapChainImageViews := [];
      swapChainImages := [];
      log := log + [Event.CleanupSwapChain];
    }

    /** `createSwapChain`: the configuration `SwapchainCreateInfo` chooses for the
        reported framebuffer size; on success the new images, format and extent
        replace the old ones, otherwise the call fails and nothing is replaced. */
    method CreateSwapChain(size: Extent, env: RebuildEnv) returns (created: bool)
      requires EnvOk(env)
      modifies this
      ensures var config := SwapchainCreateInfo(env.support, size, env.families);
              && log == old(log) + [Event.CreateSwapChain(config)]
              && created == (env.swapchainResult == Success)
              && (created ==> swapChainImages == env.images && swapChainImageFormat == config.surfaceFormat.format
                              && swapChainExtent == config.extent)
      ensures !created ==> swapChainImages == old(swapChainImages)
      ensures swapChainImageViews == old(swapChainImageViews) && swapChainFramebuffers == old(swapChainFramebuffers)
      ensures colorImage == old(colorImage) && depthImage == old(depthImage)
      ensures FrameSync() == old(FrameSync())
    {
      var config := SwapchainCreateInfo(env.support, size, env.families);
      log := log + [Event.CreateSwapChain(config)];
      if env.swapchainResult != Success {
        return false;
      }
      swapChainImages := env.images;
      swapChainImageFormat := config.surfaceFormat.format;
      swapChainExtent := config.extent;
      return true;
    }

    /** `createImageViews`: one view per swapchain image, view i of image i, in the
        swapchain's format. */
    method CreateImageViews()
      modifies this
      ensures |swapChainImageViews| == |swapChainImages|
      ensures forall i :: 0 <= i < |swapChainImageViews| ==> swapChainImageViews[i] == View(swapChainImages[i], swapChainImageFormat)
      ensures swapChainImages == old(swapChainImages) && swapChainImageFormat == old(swapChainImageFormat)
      ensures swapChainExtent == old(swapChainExtent) && swapChainFramebuffers == old(swapChainFramebuffers)
      ensures colorImage == old(colorImage) && depthImage == old(depthImage)
      ensures FrameSync() == old(FrameSync())
      ensures log == old(log) + [Event.CreateImageViews]
    {
      var views: seq<View> := [];
      var i := 0;
      while i < |swapChainImages|
        invariant 0 <= i <= |swapChainImages|
        invariant |views| == i
        invariant forall j :: 0 <= j < i ==> views[j] == View(swapChainImages[j], swapChainImageFormat)
      {
        views := views + [View(swapChainImages[i], swapChainImageFormat)];
        i := i + 1;
      }
      swapChainImageViews := views;
      log := log + [Event.CreateImageViews];
    }

    /** `createColorResources`: the multisampled colour target, at the swapchain's
        extent and format. */
    method CreateColorResources(samples: bv32)
      modifies this
      ensures colorImage == Attachment(swapChainExtent, swapChainImageFormat, samples)
      ensures swapChainImages == old(swapChainImages) && swapChainImageFormat == old(swapChainImageFormat)
      ensures swapChainExtent == old(swapChainExtent) && swapChainImageViews == old(swapChainImageViews)
      ensures swapChainFramebuffers == old(swapChainFramebuffers) && depthImage == old(depthImage)
      ensures FrameSync() == old(FrameSync())
      ensures log == old(log) + [Event.CreateColorResources]
    {
      colorImage := Attachment(swapChainExtent, swapChainImageFormat, samples);
      log := log + [Event.CreateColorResources];
    }

    /** `createDepthResources`: the depth target, at the swapchain's extent, in the
        format `findDepthFormat` picks; it fails when no candidate is supported. */
    method CreateDepthResources(formatProperties: Format -> FormatProperties, samples: bv32) returns (failure: Option<Failure>)
      modifies this
      ensures match FindDepthFormat(formatProperties)
                case Err(f) => failure == Some(f) && depthImage == old(depthImage)
                case Ok(depthFormat) => failure == None && depthImage == Attachment(swapChainExtent, depthFormat, samples)
      ensures swapChainImages == old(swapChainImages) && swapChainImageFormat == old(swapChainImageFormat)
      ensures swapChainExtent == old(swapChainExtent) && swapChainImageViews == old(swapChainImageViews)
      ensures swapChainFramebuffers == old(swapChainFramebuffers) && colorImage == old(colorImage)
      ensures FrameSync() == old(FrameSync())
      ensures log == old(log) + [Event.CreateDepthResources]
    {
      log := log + [Event.CreateDepthResources];
      var depthFormat := FindDepthFormat(formatProperties);
      if depthFormat.Err? {
        return Some(depthFormat.error);
      }
      depthImage := Attachment(swapChainExtent, depthFormat.value, samples);
      return None;
    }

    /** `createFramebuffers`: one framebuffer per view, framebuffer i attaching the
        colour image, the depth image and view i, at the swapchain extent. */
    method CreateFramebuffers()
      modifies this
      ensures |swapChainFramebuffers| == |swapChainImageViews|
      ensures forall i :: 0 <= i < |swapChainFramebuffers| ==>
                swapChainFramebuffers[i] == Framebuffer(colorImage, depthImage, swapChainImageViews[i], swapChainExtent)
      ensures swapChainImages == old(swapChainImages) && swapChainImageFormat == old(swapChainImageFormat)
      ensures swapChainExtent == old(swapChainExtent) && swapChainImageViews == old(swapChainImageViews)
      ensures colorImage == old(colorImage) && depthImage == old(depthImage)
      ensures FrameSync() == old(FrameSync())
      ensures log == old(log) + [Event.CreateFramebuffers]
    {
      var framebuffers: seq<Framebuffer> := [];
      var i := 0;
      while i < |swapChainImageViews|
        invariant 0 <= i <= |swapChainImageViews|
        invariant |framebuffers| == i
        invariant forall j :: 0 <= j < i ==>
                    framebuffers[j] == Framebuffer(colorImage, depthImage, swapChainImageViews[j], swapChainExtent)
      {
        framebuffers := framebuffers + [Framebuffer(colorImage, depthImage, swapChainImageViews[i], swapChainExtent)];
        i := i + 1;
      }
      swapChainFramebuffers := framebuffers;
      log := log + [Event.CreateFramebuffers];
    }

    /** The size-polling loop of `recreateSwapChain`: query the size; while a
        dimension is zero, query again and wait for events, whose resize
        notification, if `resizeWhileWaiting`, runs the resize callback. Answers
        the position of the size that ended the loop, or nothing when the window
        never reported a non-zero size. */
    method WaitForNonZeroSize(sizes: seq<Extent>, resizeWhileWaiting: bool) returns (found: Option<nat>)
      modifies this
      ensures found == (if sizes == [] then None else FirstNonZeroFrom(sizes, 0))
      ensures log == old(log) + (if sizes == [] then [] else PollLog(sizes, if found.Some? then found.value + 1 else |sizes|))
      ensures framebufferResized == (old(framebufferResized) || (resizeWhileWaiting && WaitCount(sizes) > 0))
      ensures SwapChain() == old(SwapChain()) && currentFrame == old(currentFrame) && inFlightFences == old(inFlightFences)
      ensures imageAvailableSemaphores == old(imageAvailableSemaphores)
      ensures renderFinishedSemaphores == old(renderFinishedSemaphores)
    {
      if sizes == [] {
        return None;
      }
      var k := 0;
      var size := sizes[0];
      var polled := [QueryFramebufferSize(size)];
      while size.width == 0 || size.height == 0
        invariant 0 <= k < |sizes| && size == sizes[k]
        invariant forall j :: 0 <= j < k ==> !NonZero(sizes[j])
        invariant polled == PollLog(sizes, k + 1)
        decreases |sizes| - k
      {
        if k + 1 == |sizes| {
          log := log + polled;
          if resizeWhileWaiting && k > 0 {
            FramebufferResizeCallback();
          }
          return None;
        }
        k := k + 1;
        size := sizes[k];
        polled := polled + [QueryFramebufferSize(size), WaitEvents];
      }
      log := log + polled;
      if resizeWhileWaiting && k > 0 {
        FramebufferResizeCallback();
      }
      return Some(k);
    }

    /** The four creation calls that follow `createSwapChain` in
        `recreateSwapChain`: views, colour attachment, depth attachment (which fails
        when no depth format is supported), framebuffers. */
    method CreateSwapchainObjects(formatProperties: Format -> FormatProperties, samples: bv32) returns (failure: Option<Failure>)
      modifies this
      ensures match FindDepthFormat(formatProperties)
                case Err(f) => failure == Some(f) && log == old(log) + FrameSpec.CreateSwapchainObjects[..3]
                case Ok(depthFormat) =>
                  && failure == None && log == old(log) + FrameSpec.CreateSwapchainObjects
                  && SwapChain() == BuildChain(old(swapChainImageFormat), old(swapChainExtent), old(swapChainImages), depthFormat, samples)
      ensures FrameSync() == old(FrameSync())
    {
      CreateImageViews();
      CreateColorResources(samples);
      failure := CreateDepthResources(formatProperties, samples);
      if failure.Some? {
        return;
      }
      CreateFramebuffers();
      ChainDeterminedByParts(SwapChain(), depthImage.format, samples);
    }

    /** `recreateSwapChain` after the wait: wait for the device, clean up, create
        the swapchain and then the objects built on it. */
    method RebuildForSize(env: RebuildEnv) returns (halt: Option<Halt>)
      requires EnvOk(env)
      modifies this
      ensures Reached(RebuildAt(env), halt, old(log))
      ensures FrameSync() == old(FrameSync())
    {
      ghost var calls := RebuildCalls(SwapchainCreateInfo(env.support, env.sizeAtCreation, env.families));
      log := log + [DeviceWaitIdle];
      CleanupSwapChain();
      var created := CreateSwapChain(env.sizeAtCreation, env);
      assert log == old(log) + calls;
      if !created {
        return Some(Failed(SwapchainCreationFailed));
      }
      ghost var log1 := log;
      var failure := CreateSwapchainObjects(env.formatProperties, env.msaaSamples);
      assert log == old(log) + (calls + log[|log1|..]);
      halt := if failure.Some? then Some(Failed(failure.value)) else None;
    }

    /** `recreateSwapChain`: wait for a non-zero framebuffer size (the resize
        callback may run meanwhile), then rebuild. */
    method RecreateSwapChain(sizes: seq<Extent>, env: RebuildEnv) returns (halt: Option<Halt>)
      requires EnvOk(env)
      modifies this
      ensures Reached(RebuildSpec(sizes, env), halt, old(log))
      ensures framebufferResized == (old(framebufferResized) || ResizeNotifiedInWait(sizes, env))
      ensures currentFrame == old(currentFrame) && inFlightFences == old(inFlightFences)
      ensures imageAvailableSemaphores == old(imageAvailableSemaphores)
      ensures renderFinishedSemaphores == old(renderFinishedSemaphores)
    {
      var found := WaitForNonZeroSize(sizes, env.resizeWhileWaiting);
      if found.None? {
        return Some(Blocked);
      }
      halt := RebuildForSize(env);
      RebuildPrefixed(RebuildAt(env), halt, old(log), PollLog(sizes, found.value + 1));
    }

    /** `drawFrame`, from the wait on the slot's fence to the image acquisition; an
        out-of-date swapchain is rebuilt and the frame skipped, any other failure is
        an error, otherwise the frame goes on as `SubmitAndPresent`. */
    method DrawFrame(input: FrameInput) returns (halt: Option<Halt>)
      requires Valid() && EnvOk(input.env)
      modifies this
      ensures Stepped(DrawFrameSpec(old(State()), input), halt, old(log))
      ensures halt == None ==> Valid()
      ensures imageAvailableSemaphores == old(imageAvailableSemaphores)
      ensures renderFinishedSemaphores == old(renderFinishedSemaphores)
    {
      ghost var st0, log0 := State(), log;
      var slot := currentFrame;
      // vkWaitForFences returns once the slot's fence is signalled
      inFlightFences := inFlightFences[slot := Signalled];
      log := log + [WaitForFence(slot), AcquireNextImage(imageAvailableSemaphores[slot])];
      ghost var st1 := st0.(fences := st0.fences[slot := Signalled]);
      assert State() == st1 && log == log0 + AcquireCalls(slot);
      if input.acquireResult == ErrorOutOfDateKhr {
        halt := RecreateSwapChain(input.sizes, input.env);
        RebuildIsStep(RebuildSpec(input.sizes, input.env), halt, log0, st1, AcquireCalls(slot),
                      ResizeNotifiedInWait(input.sizes, input.env));
        return;
      } else if input.acquireResult != Success && input.acquireResult != SuboptimalKhr {
        return Some(Failed(AcquireFailed));
      }
      halt := SubmitAndPresent(input);
      StepPrefixed(FrameSpec.SubmitAndPresent(st1, input), halt, log0, AcquireCalls(slot));
    }

    /** The rest of `drawFrame` after a successful acquisition: update the uniform
        buffer, reset the fence, record, submit (an error unless SUCCESS), present,
        then finish as `AfterPresent`. */
    method SubmitAndPresent(input: FrameInput) returns (halt: Option<Halt>)
      requires Valid() && EnvOk(input.env)
      modifies this
      ensures Stepped(FrameSpec.SubmitAndPresent(old(State()), input), halt, old(log))
      ensures imageAvailableSemaphores == old(imageAvailableSemaphores)
      ensures renderFinishedSemaphores == old(renderFinishedSemaphores)
    {
      ghost var st0, log0 := State(), log;
      var slot := currentFrame;
      inFlightFences := inFlightFences[slot := Reset];
      log := log + [UpdateUniformBuffer(slot), ResetFence(slot), RecordCommandBuffer(slot, input.imageIndex),
                    QueueSubmit(imageAvailableSemaphores[slot], renderFinishedSemaphores[slot], slot)];
      if input.submitResult != Success {
        return Some(Failed(SubmitFailed));
      }
      inFlightFences := inFlightFences[slot := InFlight];
      log := log + [QueuePresent(renderFinishedSemaphores[slot], input.imageIndex)];
      assert State() == st0.(fences := st0.fences[slot := InFlight]);
      ghost var submitted := SubmitCalls(slot, input.imageIndex) + [QueuePresent(RenderFinished(slot), input.imageIndex)];
      assert log == log0 + submitted;
      halt := FinishPresent(input);
      StepPrefixed(AfterPresent(st0.(fences := st0.fences[slot := InFlight]), input), halt, log0, submitted);
    }

    /** The end of `drawFrame` after the presentation request: rebuild when the
        swapchain is out of date or suboptimal or a resize is pending (clearing the
        flag), fail on any other result but SUCCESS, and move to the next slot. */
    method FinishPresent(input: FrameInput) returns (halt: Option<Halt>)
      requires Valid() && EnvOk(input.env)
      modifies this
      ensures Stepped(AfterPresent(old(State()), input), halt, old(log))
      ensures imageAvailableSemaphores == old(imageAvailableSemaphores)
      ensures renderFinishedSemaphores == old(renderFinishedSemaphores)
    {
      ghost var st0, log0 := State(), log;
      if input.presentResult == ErrorOutOfDateKhr || input.presentResult == SuboptimalKhr || framebufferResized {
        framebufferResized := false;
        halt := RecreateSwapChain(input.sizes, input.env);
        ghost var st1 := st0.(currentFrame := NextSlot(st0.currentFrame), resized := false);
        assert log0 + [] == log0;
        ghost var notified := ResizeNotifiedInWait(input.sizes, input.env);
        if halt.Some? {
          RebuildIsStep(RebuildSpec(input.sizes, input.env), halt, log0, st1, [], notified);
          return;
        }
        currentFrame := NextSlot(currentFrame);
        RebuildIsStep(RebuildSpec(input.sizes, input.env), halt, log0, st1, [], notified);
        return;
      } else if input.presentResult != Success {
        return Some(Failed(PresentFailed));
      }
      currentFrame := NextSlot(currentFrame);
      return None;
    }

    /** One iteration of `mainLoop`: poll events (a resize notification runs the
        callback), then draw. */
    method PollAndDraw(frame: FrameInput) returns (halt: Option<Halt>)
      requires Valid() && EnvOk(frame.env)
      modifies this
      ensures Stepped(FrameTurn(old(State()), frame), halt, old(log))
      ensures halt == None ==> Valid()
    {
      ghost var st0, log0 := State(), log;
      log := log + [PollEvents];
      if frame.resizeEvent {
        FramebufferResizeCallback();
      }
      halt := DrawFrame(frame);
      StepPrefixed(DrawFrameSpec(AfterPoll(st0, frame.resizeEvent), frame), halt, log0, [PollEvents]);
    }

    /** `mainLoop` over the frames the window delivers before it is closed, then
        the wait for the device to go idle; the loop stops early when a frame
        stops. */
    method MainLoop(frames: seq<FrameInput>) returns (halt: Option<Halt>)
      requires Valid() && AllEnvOk(frames)
      modifies this
      ensures Stepped(Run(old(State()), frames), halt, old(log))
      ensures halt == None ==> Valid()
    {
      ghost var st0, log0 := State(), log;
      ghost var done: seq<Event> := [];
      var i := 0;
      while i < |frames|
        invariant 0 <= i <= |frames|
        invariant Valid() && AllEnvOk(frames[i..])
        invariant log == log0 + done
        invariant Run(st0, frames) == Prepend(done, Run(State(), frames[i..]))
      {
        ghost var st := State();
        halt := PollAndDraw(frames[i]);
        ghost var d := FrameTurn(st, frames[i]);
        RunAdvances(st0, frames, i, done, st);
        AppendAssoc(log0, done, d.events);
        done := done + d.events;
        if halt.Some? {
          return;
        }
        i := i + 1;
      }
      log := log + [DeviceWaitIdle];
      AppendAssoc(log0, done, [DeviceWaitIdle]);
      return None;
    }
  }

  lemma AppendAssoc(a: seq<Event>, b: seq<Event>, c: seq<Event>)
    ensures a + b + c == a + (b + c)
  {
  }

  /** The main loop's invariant survives one more frame: the run so far followed by
      the frame's calls, and the rest of the run or the frame's stop. */
  lemma {:induction false} RunAdvances(st0: FrameState, frames: seq<FrameInput>, i: nat, done: seq<Event>, st: FrameState)
    requires i < |frames| && Valid(st0) && Valid(st) && AllEnvOk(frames)
    requires Run(st0, frames) == Prepend(done, Run(st, frames[i..]))
    ensures var d := FrameTurn(st, frames[i]);
            && (d.Continue? ==> Run(st0, frames) == Prepend(done + d.events, Run(d.state, frames[i + 1..])))
            && (d.Halted? ==> Run(st0, frames) == Halted(d.halt, done + d.events))
  {
    var d := FrameTurn(st, frames[i]);
    assert frames[i..][0] == frames[i] && frames[i..][1..] == frames[i + 1..];
    if d.Continue? {
      PrependTwice(done, d.events, Run(d.state, frames[i + 1..]));
    } else {
      assert done + d.events == done + (d.events + []);
    }
  }
}
