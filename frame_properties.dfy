/**
 * Properties of the frame loop, proved about the specification functions of
 * `FrameSpec`: what an early OUT_OF_DATE return leaves alone, when the in-flight
 * fence is reset, how the frame index moves, when the swapchain is rebuilt and
 * what happens to the resize flag, and how the semaphores chain the acquire,
 * the submission and the presentation of a frame.
 */
module FrameProperties {
  import opened VkTypes
  import opened SwapchainPolicy
  import opened FrameSpec

  /** Counting distributes over concatenation. */
  lemma {:induction false} CountAppend(a: seq<Event>, b: seq<Event>, p: Event -> bool)
    ensures Count(a + b, p) == Count(a, p) + Count(b, p)
  {
    if a == [] {
      assert a + b == b;
    } else {
      assert (a + b)[1..] == a[1..] + b;
      CountAppend(a[1..], b, p);
    }
  }

  /** A count is zero exactly when no call satisfies the predicate. */
  lemma {:induction false} CountZero(ev: seq<Event>, p: Event -> bool)
    ensures Count(ev, p) == 0 <==> forall k :: 0 <= k < |ev| ==> !p(ev[k])
  {
    if ev != [] {
      CountZero(ev[1..], p);
      assert forall k :: 1 <= k < |ev| ==> ev[1..][k - 1] == ev[k];
    }
  }

  /** The calls a rebuild may make. */
  predicate IsRebuildCall(e: Event)
  {
    e.QueryFramebufferSize? || e == WaitEvents || e == DeviceWaitIdle || e == CleanupSwapChain || e.CreateSwapChain?
    || e == CreateImageViews || e == CreateColorResources || e == CreateDepthResources || e == CreateFramebuffers
  }

  /** The acquisition makes no fence reset, submission or presentation; the calls
      from the update to the submission reset the fence once and submit once. */
  lemma FrameCallCounts(slot: nat, imageIndex: nat)
    ensures Count(AcquireCalls(slot), IsReset) == 0 && Count(AcquireCalls(slot), IsSubmit) == 0
    ensures Count(AcquireCalls(slot), IsPresent) == 0
    ensures Count(SubmitCalls(slot, imageIndex), IsReset) == 1 && Count(SubmitCalls(slot, imageIndex), IsSubmit) == 1
    ensures Count(SubmitCalls(slot, imageIndex), IsPresent) == 0
    ensures Count([QueuePresent(RenderFinished(slot), imageIndex)], IsPresent) == 1
    ensures Count([QueuePresent(RenderFinished(slot), imageIndex)], IsReset) == 0
    ensures Count([QueuePresent(RenderFinished(slot), imageIndex)], IsSubmit) == 0
  {
    var a := AcquireCalls(slot);
    CountOfTwo(a[0], a[1], IsReset);
    CountOfTwo(a[0], a[1], IsSubmit);
    CountOfTwo(a[0], a[1], IsPresent);
    var s := SubmitCalls(slot, imageIndex);
    CountOfFour(s[0], s[1], s[2], s[3], IsReset);
    CountOfFour(s[0], s[1], s[2], s[3], IsSubmit);
    CountOfFour(s[0], s[1], s[2], s[3], IsPresent);
    var p := [QueuePresent(RenderFinished(slot), imageIndex)];
    assert p[1..] == [];
  }

  lemma CountOfOne(x: Event, p: Event -> bool)
    ensures Count([x], p) == (if p(x) then 1 else 0)
  {
    assert [x][1..] == [];
  }

  lemma CountOfTwo(x: Event, y: Event, p: Event -> bool)
    ensures Count([x, y], p) == (if p(x) then 1 else 0) + (if p(y) then 1 else 0)
  {
    assert [x, y][1..] == [y];
    assert [y][1..] == [];
    assert Count([y], p) == (if p(y) then 1 else 0) + Count([], p);
  }

  lemma CountOfFour(w: Event, x: Event, y: Event, z: Event, p: Event -> bool)
    ensures Count([w, x, y, z], p) == (if p(w) then 1 else 0) + (if p(x) then 1 else 0) + (if p(y) then 1 else 0) + (if p(z) then 1 else 0)
  {
    assert [w, x, y, z][1..] == [x, y, z];
    assert [x, y, z][1..] == [y, z];
    CountOfTwo(y, z, p);
  }

  /** The polling loop only queries the size and waits for events. */
  lemma {:induction false} PollLogOnlyPolls(sizes: seq<Extent>, n: nat)
    requires 1 <= n <= |sizes|
    ensures forall k :: 0 <= k < |PollLog(sizes, n)| ==>
              PollLog(sizes, n)[k].QueryFramebufferSize? || PollLog(sizes, n)[k] == WaitEvents
  {
    if n > 1 {
      PollLogOnlyPolls(sizes, n - 1);
    }
  }

  predicate IsWait(e: Event) { e == WaitEvents }

  /** The polling loop waits for events once per answer after the first. */
  lemma {:induction false} PollLogWaits(sizes: seq<Extent>, n: nat)
    requires 1 <= n <= |sizes|
    ensures Count(PollLog(sizes, n), IsWait) == n - 1
  {
    if n == 1 {
      CountOfOne(QueryFramebufferSize(sizes[0]), IsWait);
    } else {
      PollLogWaits(sizes, n - 1);
      CountAppend(PollLog(sizes, n - 1), [QueryFramebufferSize(sizes[n - 1]), WaitEvents], IsWait);
      CountOfTwo(QueryFramebufferSize(sizes[n - 1]), WaitEvents, IsWait);
    }
  }

  /** `WaitCount` is the number of waits for events a rebuild makes, so the
      resize callback can run during a rebuild only when it has waited. */
  lemma {:induction false} RebuildWaitsWaitCountTimes(sizes: seq<Extent>, env: RebuildEnv)
    requires EnvOk(env)
    ensures Count(RebuildSpec(sizes, env).events, IsWait) == WaitCount(sizes)
  {
    if sizes != [] {
      var z := FirstNonZeroFrom(sizes, 0);
      if z.None? {
        PollLogWaits(sizes, |sizes|);
      } else {
        PollLogWaits(sizes, z.value + 1);
        RebuildAtNeverWaits(env);
        CountAppend(PollLog(sizes, z.value + 1), RebuildAt(env).events, IsWait);
      }
    }
  }

  /** After the size loop, a rebuild no longer waits for events. */
  lemma {:induction false} RebuildAtNeverWaits(env: RebuildEnv)
    requires EnvOk(env)
    ensures Count(RebuildAt(env).events, IsWait) == 0
  {
    var ev := RebuildAt(env).events;
    assert forall k :: 0 <= k < |ev| ==> !IsWait(ev[k]);
    CountZero(ev, IsWait);
  }

  /** After the wait, a rebuild makes rebuild calls only. */
  lemma RebuildAtCallsOnly(env: RebuildEnv)
    requires EnvOk(env)
    ensures forall k :: 0 <= k < |RebuildAt(env).events| ==> IsRebuildCall(RebuildAt(env).events[k])
  {
  }

  /** A rebuild makes rebuild calls only. */
  lemma RebuildCallsOnly(sizes: seq<Extent>, env: RebuildEnv)
    requires EnvOk(env)
    ensures forall k :: 0 <= k < |RebuildSpec(sizes, env).events| ==> IsRebuildCall(RebuildSpec(sizes, env).events[k])
  {
    if sizes != [] {
      var z := FirstNonZeroFrom(sizes, 0);
      if z.None? {
        PollLogOnlyPolls(sizes, |sizes|);
      } else {
        PollLogOnlyPolls(sizes, z.value + 1);
        RebuildAtCallsOnly(env);
      }
    }
  }

  /** A rebuild never resets a fence, submits or presents. */
  lemma {:induction false} RebuildMakesNoFrameCalls(sizes: seq<Extent>, env: RebuildEnv)
    requires EnvOk(env)
    ensures Count(RebuildSpec(sizes, env).events, IsReset) == 0
    ensures Count(RebuildSpec(sizes, env).events, IsSubmit) == 0
    ensures Count(RebuildSpec(sizes, env).events, IsPresent) == 0
  {
    var ev := RebuildSpec(sizes, env).events;
    RebuildCallsOnly(sizes, env);
    CountZero(ev, IsReset);
    CountZero(ev, IsSubmit);
    CountZero(ev, IsPresent);
  }

  /** The swapchain is created during a rebuild exactly when the window reported
      a non-zero size. */
  lemma RebuildOnlyAtNonZeroSize(sizes: seq<Extent>, env: RebuildEnv)
    requires EnvOk(env)
    ensures var ev := RebuildSpec(sizes, env).events;
            (exists k :: 0 <= k < |ev| && ev[k].CreateSwapChain?)
              <==> (exists j :: 0 <= j < |sizes| && NonZero(sizes[j]))
  {
    var ev := RebuildSpec(sizes, env).events;
    if sizes != [] {
      var z := FirstNonZeroFrom(sizes, 0);
      if z.None? {
        PollLogOnlyPolls(sizes, |sizes|);
      } else {
        assert ev[|PollLog(sizes, z.value + 1)| + 2].CreateSwapChain?;
      }
    }
  }

  /** A rebuild polls the sizes up to the first non-zero one and then rebuilds;
      a window that never reports one keeps it waiting. */
  lemma {:induction false} RebuildWaitsForFirstNonZeroSize(sizes: seq<Extent>, env: RebuildEnv)
    requires EnvOk(env)
    ensures var r := RebuildSpec(sizes, env);
            && ((forall j :: 0 <= j < |sizes| ==> !NonZero(sizes[j])) ==> r == RebuildHalted(Blocked, r.events))
            && (forall z :: 0 <= z < |sizes| && NonZero(sizes[z]) && (forall j :: 0 <= j < z ==> !NonZero(sizes[j])) ==>
                  r == PrependRebuild(PollLog(sizes, z + 1), RebuildAt(env)))
  {
    if sizes != [] {
      var f := FirstNonZeroFrom(sizes, 0);
      forall z | 0 <= z < |sizes| && NonZero(sizes[z]) && (forall j :: 0 <= j < z ==> !NonZero(sizes[j]))
        ensures f == Some(z)
      {
      }
    }
  }

  /** A completed rebuild chose the swapchain extent from the framebuffer size
      the window reported at creation, and waited for the device, cleaned up and
      created the swapchain, the views, the colour and depth attachments and the
      framebuffers, in that order. */
  lemma RebuildAtOrder(env: RebuildEnv)
    requires EnvOk(env)
    ensures var r := RebuildAt(env);
            r.Rebuilt? ==>
              && r.chain.extent == ChooseSwapExtent(env.support.capabilities, env.sizeAtCreation)
              && r.events == [DeviceWaitIdle, CleanupSwapChain,
                              CreateSwapChain(SwapchainCreateInfo(env.support, env.sizeAtCreation, env.families)),
                              CreateImageViews, CreateColorResources, CreateDepthResources, CreateFramebuffers]
  {
  }

  /** The end of a frame, after presenting, makes no fence reset, submission or
      presentation of its own. */
  lemma {:induction false} AfterPresentMakesNoFrameCalls(st: FrameState, input: FrameInput)
    requires Valid(st) && EnvOk(input.env)
    ensures Count(AfterPresent(st, input).events, IsReset) == 0
    ensures Count(AfterPresent(st, input).events, IsSubmit) == 0
    ensures Count(AfterPresent(st, input).events, IsPresent) == 0
  {
    var r := AfterPresent(st, input);
    if input.presentResult == ErrorOutOfDateKhr || input.presentResult == SuboptimalKhr || st.resized {
      var ev := RebuildSpec(input.sizes, input.env).events;
      RebuildMakesNoFrameCalls(input.sizes, input.env);
      assert r.events == [] + ev == ev;
    } else {
      assert r.events == [];
    }
  }

  /** After a successful acquisition the fence is reset once and the work is
      submitted once; a completed frame presented once. */
  lemma SubmitAndPresentCounts(st: FrameState, input: FrameInput)
    requires Valid(st) && EnvOk(input.env)
    ensures var r := SubmitAndPresent(st, input);
            && Count(r.events, IsReset) == 1
            && Count(r.events, IsSubmit) == 1
            && Count(r.events, IsPresent) == (if input.submitResult == Success then 1 else 0)
  {
    var slot := st.currentFrame;
    var submitted := SubmitCalls(slot, input.imageIndex);
    var present := [QueuePresent(RenderFinished(slot), input.imageIndex)];
    FrameCallCounts(slot, input.imageIndex);
    if input.submitResult == Success {
      var inFlight := st.(fences := st.fences[slot := InFlight]);
      var tail := AfterPresent(inFlight, input);
      AfterPresentMakesNoFrameCalls(inFlight, input);
      CountAppend(submitted, present, IsReset);
      CountAppend(submitted, present, IsSubmit);
      CountAppend(submitted, present, IsPresent);
      CountAppend(submitted + present, tail.events, IsReset);
      CountAppend(submitted + present, tail.events, IsSubmit);
      CountAppend(submitted + present, tail.events, IsPresent);
    }
  }

  /** An OUT_OF_DATE acquire rebuilds and returns early: after the wait and the
      acquisition, only rebuild calls follow (no fence reset, no submission, no
      presentation), the frame index is unchanged and the resize flag is kept (and
      set if the callback ran during the rebuild's wait). The slot's fence stays
      signalled, so the next frame's wait returns. */
  lemma AcquireOutOfDateReturnsEarly(st: FrameState, input: FrameInput)
    requires Valid(st) && EnvOk(input.env)
    requires input.acquireResult == ErrorOutOfDateKhr
    ensures var r := DrawFrameSpec(st, input);
            && r.events == AcquireCalls(st.currentFrame) + RebuildSpec(input.sizes, input.env).events
            && Count(r.events, IsReset) == 0
            && Count(r.events, IsSubmit) == 0
            && Count(r.events, IsPresent) == 0
            && (r.Continue? ==>
                  && r.state.currentFrame == st.currentFrame
                  && r.state.resized == (st.resized || ResizeNotifiedInWait(input.sizes, input.env))
                  && r.state.fences[st.currentFrame] == Signalled)
  {
    var rb := RebuildSpec(input.sizes, input.env);
    RebuildMakesNoFrameCalls(input.sizes, input.env);
    FrameCallCounts(st.currentFrame, 0);
    CountAppend(AcquireCalls(st.currentFrame), rb.events, IsReset);
    CountAppend(AcquireCalls(st.currentFrame), rb.events, IsSubmit);
    CountAppend(AcquireCalls(st.currentFrame), rb.events, IsPresent);
  }

  /** Every frame starts by waiting on the slot's fence and acquiring an image
      that signals the slot's image-available semaphore. The fence is reset (once)
      exactly when the acquisition returned SUCCESS or SUBOPTIMAL, and then only
      after the acquisition. */
  lemma FenceResetOnlyAfterSuccessfulAcquire(st: FrameState, input: FrameInput)
    requires Valid(st) && EnvOk(input.env)
    ensures var r := DrawFrameSpec(st, input);
            && |r.events| >= 2 && r.events[..2] == AcquireCalls(st.currentFrame)
            && Count(r.events, IsReset) == (if input.acquireResult == Success || input.acquireResult == SuboptimalKhr then 1 else 0)
            && (Count(r.events, IsReset) > 0 ==> r.events[3] == ResetFence(st.currentFrame))
  {
    var slot := st.currentFrame;
    var acquired := AcquireCalls(slot);
    FrameCallCounts(slot, input.imageIndex);
    if input.acquireResult == ErrorOutOfDateKhr {
      AcquireOutOfDateReturnsEarly(st, input);
    } else if input.acquireResult == Success || input.acquireResult == SuboptimalKhr {
      var st' := st.(fences := st.fences[slot := Signalled]);
      SubmitAndPresentCounts(st', input);
      CountAppend(acquired, SubmitAndPresent(st', input).events, IsReset);
    }
  }

  /** A completed frame either returned early (no submission, same slot) or
      submitted and presented exactly once and moved to the next slot modulo
      MAX_FRAMES_IN_FLIGHT; the index stays a slot either way. */
  lemma FrameIndexAdvancesPerSubmission(st: FrameState, input: FrameInput)
    requires Valid(st) && EnvOk(input.env)
    ensures var r := DrawFrameSpec(st, input);
            r.Continue? ==>
              && Count(r.events, IsSubmit) <= 1
              && Count(r.events, IsPresent) == Count(r.events, IsSubmit)
              && r.state.currentFrame == AdvanceSlot(st.currentFrame, Count(r.events, IsSubmit))
              && r.state.currentFrame < MAX_FRAMES_IN_FLIGHT
  {
    var slot := st.currentFrame;
    if input.acquireResult == ErrorOutOfDateKhr {
      AcquireOutOfDateReturnsEarly(st, input);
    } else if input.acquireResult == Success || input.acquireResult == SuboptimalKhr {
      var acquired := AcquireCalls(slot);
      var st' := st.(fences := st.fences[slot := Signalled]);
      var rest := SubmitAndPresent(st', input);
      assert DrawFrameSpec(st, input) == Prepend(acquired, rest);
      FrameCallCounts(slot, input.imageIndex);
      SubmitAndPresentCounts(st', input);
      CountAppend(acquired, rest.events, IsSubmit);
      CountAppend(acquired, rest.events, IsPresent);
    }
  }

  /** When `drawFrame` stops and when it goes on. An acquire result other than
      SUCCESS, SUBOPTIMAL and OUT_OF_DATE, a failed submission, and a present
      result other than SUCCESS with no rebuild due are errors, each right after
      the call that failed; a frame that rebuilds goes on exactly when the rebuild
      completes; a frame whose calls all succeed goes on to the next slot. */
  lemma DrawFrameOutcomes(st: FrameState, input: FrameInput)
    requires Valid(st) && EnvOk(input.env)
    ensures var r := DrawFrameSpec(st, input);
            var slot := st.currentFrame;
            var acquired := input.acquireResult == Success || input.acquireResult == SuboptimalKhr;
            var rebuildDue := input.presentResult == ErrorOutOfDateKhr || input.presentResult == SuboptimalKhr || st.resized;
            && (!acquired && input.acquireResult != ErrorOutOfDateKhr ==>
                  r == Halted(Failed(AcquireFailed), AcquireCalls(slot)))
            && (input.acquireResult == ErrorOutOfDateKhr ==>
                  (r.Continue? <==> RebuildSpec(input.sizes, input.env).Rebuilt?))
            && (acquired && input.submitResult != Success ==>
                  r == Halted(Failed(SubmitFailed), AcquireCalls(slot) + SubmitCalls(slot, input.imageIndex)))
            && (acquired && input.submitResult == Success && !rebuildDue ==>
                  && (r.Continue? <==> input.presentResult == Success)
                  && (r.Halted? ==> r.halt == Failed(PresentFailed))
                  && (r.Continue? ==> r.state.currentFrame == NextSlot(slot) && r.state.resized == st.resized))
            && (acquired && input.submitResult == Success && rebuildDue ==>
                  && (r.Continue? <==> RebuildSpec(input.sizes, input.env).Rebuilt?)
                  && (r.Continue? ==> r.state.currentFrame == NextSlot(slot)))
  {
  }

  /** After a present result of OUT_OF_DATE or SUBOPTIMAL, or with a resize
      pending, the frame rebuilds the swapchain after presenting and, if the rebuild
      completes, ends with the resize flag cleared unless the resize callback ran
      again during the rebuild's wait. A flag that is set after a completed frame
      was set by that callback, or was set before the frame and the frame returned
      early on an OUT_OF_DATE acquisition (that path rebuilds without clearing it). */
  lemma ResizeFlagClearedOnRebuild(st: FrameState, input: FrameInput)
    requires Valid(st) && EnvOk(input.env)
    ensures var r := DrawFrameSpec(st, input);
            var rb := RebuildSpec(input.sizes, input.env);
            (input.acquireResult == Success || input.acquireResult == SuboptimalKhr) && input.submitResult == Success
              && (input.presentResult == ErrorOutOfDateKhr || input.presentResult == SuboptimalKhr || st.resized) ==>
                && r.events == AcquireCalls(st.currentFrame) + (SubmitCalls(st.currentFrame, input.imageIndex)
                                 + [QueuePresent(RenderFinished(st.currentFrame), input.imageIndex)] + rb.events)
                && (r.Continue? <==> rb.Rebuilt?)
                && (r.Continue? ==> r.state.resized == ResizeNotifiedInWait(input.sizes, input.env) && r.state.chain == rb.chain)
    ensures var r := DrawFrameSpec(st, input);
            r.Continue? && r.state.resized ==>
              ResizeNotifiedInWait(input.sizes, input.env) || (st.resized && input.acquireResult == ErrorOutOfDateKhr)
  {
  }

  /** The synchronisation of a submitted frame: the submission waits on the
      semaphore the acquisition signals and fences with the slot's fence, which was
      reset before; the presentation waits on the semaphore the submission signals
      and presents the acquired image. */
  lemma SemaphoresChainAcquireSubmitPresent(st: FrameState, input: FrameInput)
    requires Valid(st) && EnvOk(input.env)
    requires input.acquireResult == Success || input.acquireResult == SuboptimalKhr
    requires input.submitResult == Success
    ensures var ev := DrawFrameSpec(st, input).events;
            && |ev| >= 7
            && ev[0] == WaitForFence(st.currentFrame)
            && ev[1].AcquireNextImage? && ev[5].QueueSubmit? && ev[6].QueuePresent?
            && ev[5].wait == ev[1].signal
            && ev[6].wait == ev[5].signal
            && ev[5].wait != ev[5].signal
            && ev[3] == ResetFence(ev[5].fence) && ev[5].fence == st.currentFrame
            && ev[4] == RecordCommandBuffer(st.currentFrame, ev[6].imageIndex)
  {
    var slot := st.currentFrame;
    var head := AcquireCalls(slot) + (SubmitCalls(slot, input.imageIndex) + [QueuePresent(RenderFinished(slot), input.imageIndex)]);
    SubmittedFrameStarts(st, input);
    assert DrawFrameSpec(st, input).events[..7] == head;
  }

  /** A frame whose acquisition and submission succeed begins with the seven
      calls from the fence wait to the presentation. */
  lemma SubmittedFrameStarts(st: FrameState, input: FrameInput)
    requires Valid(st) && EnvOk(input.env)
    requires input.acquireResult == Success || input.acquireResult == SuboptimalKhr
    requires input.submitResult == Success
    ensures var slot := st.currentFrame;
            var ev := DrawFrameSpec(st, input).events;
            |ev| >= 7 && ev[..7] == AcquireCalls(slot) + (SubmitCalls(slot, input.imageIndex) + [QueuePresent(RenderFinished(slot), input.imageIndex)])
  {
    var slot := st.currentFrame;
    var signalled := st.(fences := st.fences[slot := Signalled]);
    var head := AcquireCalls(slot) + (SubmitCalls(slot, input.imageIndex) + [QueuePresent(RenderFinished(slot), input.imageIndex)]);
    var rest := AfterPresent(signalled.(fences := signalled.fences[slot := InFlight]), input);
    assert DrawFrameSpec(st, input).events == head + rest.events;
    assert (head + rest.events)[..7] == head;
  }

  /** A run of frames that has not stopped leaves the frame index at the initial
      one plus the number of submissions, modulo MAX_FRAMES_IN_FLIGHT, with one
      presentation per submission; the event polls and the final wait for the
      device submit nothing. */
  lemma {:induction false} RunFrameIndexCountsSubmissions(st: FrameState, frames: seq<FrameInput>)
    requires Valid(st) && AllEnvOk(frames)
    ensures var r := Run(st, frames);
            r.Continue? ==>
              && r.state.currentFrame == AdvanceSlot(st.currentFrame, Count(r.events, IsSubmit))
              && Count(r.events, IsPresent) == Count(r.events, IsSubmit)
    decreases |frames|
  {
    if frames == [] {
      CountOfOne(DeviceWaitIdle, IsSubmit);
      CountOfOne(DeviceWaitIdle, IsPresent);
    } else {
      var st1 := AfterPoll(st, frames[0].resizeEvent);
      var drawn := DrawFrameSpec(st1, frames[0]);
      var d := FrameTurn(st, frames[0]);
      if d.Continue? {
        FrameIndexAdvancesPerSubmission(st1, frames[0]);
        CountOfOne(PollEvents, IsSubmit);
        CountOfOne(PollEvents, IsPresent);
        CountAppend([PollEvents], drawn.events, IsSubmit);
        CountAppend([PollEvents], drawn.events, IsPresent);
        assert AllEnvOk(frames[1..]) by {
          forall k | 0 <= k < |frames[1..]| ensures EnvOk(frames[1..][k].env) {
            assert frames[1..][k] == frames[k + 1];
          }
        }
        var rest := Run(d.state, frames[1..]);
        assert Run(st, frames) == Prepend(d.events, rest);
        RunFrameIndexCountsSubmissions(d.state, frames[1..]);
        ComposeFrameCounts(st.currentFrame, d, rest);
      }
    }
  }

  /** A run of the main loop starts with the event poll, and one that ends
      because the window was closed ends with the wait for the device. */
  lemma {:induction false} RunPollsFirstAndWaitsIdleLast(st: FrameState, frames: seq<FrameInput>)
    requires Valid(st) && AllEnvOk(frames)
    ensures var r := Run(st, frames);
            && (frames != [] ==> |r.events| > 0 && r.events[0] == PollEvents)
            && (r.Continue? ==> |r.events| > 0 && r.events[|r.events| - 1] == DeviceWaitIdle)
    decreases |frames|
  {
    if frames != [] {
      var d := FrameTurn(st, frames[0]);
      if d.Continue? {
        assert AllEnvOk(frames[1..]) by {
          forall k | 0 <= k < |frames[1..]| ensures EnvOk(frames[1..][k].env) {
            assert frames[1..][k] == frames[k + 1];
          }
        }
        RunPollsFirstAndWaitsIdleLast(d.state, frames[1..]);
      }
    }
  }

  /** The frame-index bookkeeping of two completed steps composes. */
  lemma ComposeFrameCounts(slot: nat, d: Step, rest: Step)
    requires d.Continue?
    requires d.state.currentFrame == AdvanceSlot(slot, Count(d.events, IsSubmit))
    requires Count(d.events, IsPresent) == Count(d.events, IsSubmit)
    requires rest.Continue? ==>
               && rest.state.currentFrame == AdvanceSlot(d.state.currentFrame, Count(rest.events, IsSubmit))
               && Count(rest.events, IsPresent) == Count(rest.events, IsSubmit)
    ensures var r := Prepend(d.events, rest);
            r.Continue? ==>
              && r.state.currentFrame == AdvanceSlot(slot, Count(r.events, IsSubmit))
              && Count(r.events, IsPresent) == Count(r.events, IsSubmit)
  {
    CountAppend(d.events, rest.events, IsSubmit);
    CountAppend(d.events, rest.events, IsPresent);
    SlotArithmetic(slot, Count(d.events, IsSubmit), Count(rest.events, IsSubmit));
  }

  /** Advancing by `a` slots and then by `b` slots is advancing by `a + b`. */
  lemma {:induction false} SlotArithmetic(slot: nat, a: nat, b: nat)
    ensures AdvanceSlot(AdvanceSlot(slot, a), b) == AdvanceSlot(slot, a + b)
  {
    if b > 0 {
      SlotArithmetic(slot, a, b - 1);
    }
  }

  /** Advancing a slot `n` times is adding `n` modulo MAX_FRAMES_IN_FLIGHT. */
  lemma {:induction false} AdvanceSlotIsModular(slot: nat, n: nat)
    requires slot < MAX_FRAMES_IN_FLIGHT
    ensures AdvanceSlot(slot, n) == (slot + n) % MAX_FRAMES_IN_FLIGHT
  {
    if n > 0 {
      AdvanceSlotIsModular(slot, n - 1);
    }
  }
}
