# Vulkan demo renderer: decision procedures and frame loop

This project models the logic of the Vulkan demo renderer. The code around
it only calls Vulkan and GLFW. The model covers four parts.

- **Swapchain configuration policy** (`SwapchainPolicy`). It picks the
  surface format, present mode, extent, image count and image sharing mode
  from the capability records the surface reports.
- **Device-capability searches** (`DeviceQueries`, `InstanceChecks`). These are
  the memory-type search, the supported-format and depth-format searches, the
  multisample-count choice and the queue-family scan. Also here: the
  layout-transition table, the vertex attribute layout, and the checks on
  validation layers and device and instance extensions.
- **Frame loop** (`FrameSpec`, `FrameLoop`, `FrameProperties`).
  - `FrameSpec` states what one `drawFrame`, one `recreateSwapChain` and the
    `mainLoop` do, as pure functions of the renderer's bookkeeping state and
    of what the driver and the window answer. That state is the frame slot,
    the resize flag, the per-slot fences and the swapchain objects.
  - `FrameLoop.Renderer` is the renderer as a class whose methods update its
    fields step by step, as the source does. Each method is proved against
    `FrameSpec`: it ends in the state the specification names, having issued
    the calls the specification names, in order.
  - `FrameProperties` proves what the loop promises. The frame slot stays in
    range and advances once per submission. An out-of-date acquire returns
    early without resetting the fence. The fence is reset only after a
    successful acquire. A rebuild happens only at a non-zero size. The resize
    flag is cleared by the rebuild after presentation, unless the resize
    callback runs again while that rebuild waits for a non-zero size.
- **Mesh** (`MeshModel.Mesh`). The vertex deduplication loop of `loadModel`
  is proved equal to an independent reference deduplication. The fixed
  two-quad scene of `createQuads` is shown to be its own deduplication.

The source has two vertex types. `DeviceQueries.VertexField` names the three
fields (position, colour, texture coordinate) of the `Vertex` in
`src/utils.h`, whose attribute layout `getAttributeDescriptions` describes.
`MeshModel.Vertex` is the four-field `Vertex` of `src/mesh.h` (position,
colour, texture coordinate, normal) that the mesh stores.

What the driver, the window and the device answer enters as parameters:

- result codes of acquire, submit and present;
- the sequence of framebuffer sizes the window reports while a rebuild waits,
  whether the events those waits process include a resize notification, and
  the size `chooseSwapExtent` reads when the swapchain is created;
- the surface support records, queue families and format properties;
- the swapchain images and the sample count.

The calls the frame loop makes are recorded as a log of events, from the
event poll that starts each loop iteration to the wait for the device after
the loop. The log is kept at the level of the renderer's own helpers. Each
helper call during a rebuild (`createSwapChain`, `createImageViews`, the
attachment and framebuffer helpers) is one event. The Vulkan and GLFW calls
inside those helpers are not logged one by one: the size query, the support
queries, `vkGetSwapchainImagesKHR` and the `vkCreateImageView` per image.
`vkResetCommandBuffer` is folded into the `RecordCommandBuffer` event that
follows it.

Integer widths: flag sets are `bv32`, as in the source. The image count
`minImageCount + 1` wraps at 2^32 as the source's `uint32_t` does. Sizes and
counts are `uint32` values, a subset of `int`.

In these places the model follows the code as written:

- The image count is not raised to `minImageCount`. It is `minImageCount + 1`
  (wrapping), lowered to a non-zero `maxImageCount`.
- A defined `currentExtent` is taken as it is, without clamping into
  `[minImageExtent, maxImageExtent]`.
- `chooseSwapSurfaceFormat` reads element 0 without a check. An empty format
  list is excluded by a precondition: device selection rejects such devices.
  `chooseSwapSurfaceFormat` reports no error of its own.

## Model

| member | source | states |
|---|---|---|
| VkTypes.IsComplete | src/utils.h:251-255 | complete exactly when the indices name both a graphics family and a present family |
| SwapchainPolicy.FirstPreferredFormat | src/demoapp.cpp:301-309 | the scan returns the preferred format (B8G8R8A8_SRGB, SRGB_NONLINEAR) exactly when the list holds it, else the fallback |
| SwapchainPolicy.ChooseSwapSurfaceFormat | src/demoapp.cpp:299-310 | the result is an offered format. It is the preferred format when that is offered, otherwise element 0 |
| SwapchainPolicy.ChooseSwapPresentMode | src/demoapp.cpp:316-326 | the mode is MAILBOX if and only if MAILBOX is offered; otherwise it is FIFO |
| SwapchainPolicy.Clamp | src/demoapp.cpp:349-350 | `std::clamp`: within `[lo, hi]` when `lo <= hi`, the value itself when already inside, and the nearest point of the interval |
| SwapchainPolicy.ChooseSwapExtent | src/demoapp.cpp:332-354 | a defined current extent is returned exactly. Under the UINT32_MAX sentinel, each component is the framebuffer component clamped into its min/max bounds, so it lies within them (when min <= max), the nearest such value, and a framebuffer size already inside is kept |
| SwapchainPolicy.ChooseImageCount | src/demoapp.cpp:368-372 | the count is at most a non-zero maximum. It is min+1 or the maximum, at least the minimum when the bounds are consistent, and 0 when min+1 wraps |
| SwapchainPolicy.ChooseImageSharing | src/hellotriangleapp.cpp:677-688 | CONCURRENT with [graphics, present] if and only if the families differ; EXCLUSIVE with no indices otherwise; never a repeated family |
| SwapchainPolicy.SwapchainCreateInfo | src/demoapp.cpp:360-398 | the create info has an offered format, MAILBOX or FIFO, the defined current extent when there is one, a count within a non-zero maximum, and exclusive sharing exactly when the families coincide |
| SwapchainPolicy.ImageCountRule | src/demoapp.cpp:368-372 | for every minimum below UINT32_MAX: min+1 when there is no maximum or the maximum exceeds the minimum; the maximum when it is non-zero and at most the minimum |
| SwapchainPolicy.ChooseSwapExtentIdempotent | src/demoapp.cpp:332-354 | feeding a chosen extent back as the framebuffer size chooses it again |
| DeviceQueries.FindMemoryType | src/hellotriangleapp.cpp:1312-1326 | Ok(i): i is in range, its filter bit is set and its flags contain the requested ones, and no smaller index passes. The error (no suitable memory type) comes if and only if no index passes |
| DeviceQueries.FirstSupportedFrom | src/demoapp.cpp:848-859 | the scan answers a position within the candidates, from `from` on |
| DeviceQueries.FirstSupportedFromIsFirst | src/demoapp.cpp:848-861 | the answered position passes the tiling-specific feature test, every earlier one fails, and no answer means every candidate fails |
| DeviceQueries.FindSupportedFormat | src/demoapp.cpp:846-862 | the format found is one of the candidates; otherwise the error is "no supported format", which an empty candidate list always gives |
| DeviceQueries.FindSupportedFormatIsFirstMatch | src/demoapp.cpp:846-862 | `findSupportedFormat` returns the first candidate whose features for the tiling contain the required ones. It fails (no supported format) if and only if every candidate fails |
| DeviceQueries.FindDepthFormat | src/demoapp.cpp:868-875 | the depth format found is one of D32_SFLOAT, D32_SFLOAT_S8_UINT, D24_UNORM_S8_UINT; otherwise the error is "no supported format" |
| DeviceQueries.FindDepthFormatIsSupported | src/demoapp.cpp:868-875 | the depth format is one of D32_SFLOAT, D32_SFLOAT_S8_UINT, D24_UNORM_S8_UINT with optimal-tiling depth/stencil support; D32_SFLOAT is passed over only when it lacks that support |
| DeviceQueries.GetMaxUsableSampleCount | src/demoapp.cpp:1332-1346 | the result is one of the single-bit counts 1..64 |
| DeviceQueries.HighestCount | src/demoapp.cpp:1338-1345 | the if-chain answers one of the single-bit counts 1..64 |
| DeviceQueries.GetMaxUsableSampleCountIsCommon | src/demoapp.cpp:1337-1343 | a count above 1 is set in both the colour and the depth sample masks |
| DeviceQueries.GetMaxUsableSampleCountIsHighest | src/demoapp.cpp:1337-1345 | no count higher than the one chosen is set in both masks |
| DeviceQueries.HigherBitsClear | src/demoapp.cpp:1338-1345 | every count above where the chain stops failed its test |
| DeviceQueries.FindQueueFamilies | src/hellotriangleapp.cpp:366-407 | each stored index has the graphics bit or present support respectively. The result is complete if and only if both kinds of family exist. A complete scan stops at the first index by which both were seen, each stored index the latest of its kind; an incomplete scan covers the whole list |
| DeviceQueries.TransitionBarrier | src/hellotriangleapp.cpp:1229-1247 | only UNDEFINED to TRANSFER_DST and TRANSFER_DST to SHADER_READ_ONLY are accepted, each with its access masks and stages; every other pair is an unsupported-transition error |
| DeviceQueries.TextureUploadBarriersChain | src/hellotriangleapp.cpp:1229-1247 | the two accepted barriers chain: the second waits on the access and stage the first makes available. No transition leaves SHADER_READ_ONLY or enters the depth layout |
| DeviceQueries.GetAttributeDescriptions | src/utils.h:73-97 | three attributes at binding 0, locations 0, 1, 2 in field order, with formats R32G32B32 / R32G32B32 / R32G32 SFLOAT |
| DeviceQueries.AttributeDescriptionsCoverVertex | src/utils.h:76-96 | each vertex field is described once and no two attributes share a location |
| InstanceChecks.CheckValidationLayerSupport | src/utils.h:136-165 | true if and only if every requested layer is among the available layers |
| InstanceChecks.CheckDeviceExtensionSupport | src/utils.h:171-189 | true if and only if every required extension is among the available ones (required minus available is empty) |
| InstanceChecks.GetRequiredExtensions | src/utils.h:195-209 | the window-system list unchanged, followed by the debug-utils name exactly when validation is enabled (length n or n+1) |
| FrameSpec.NextSlot | src/demoapp.cpp:1193 | the next slot is below MAX_FRAMES_IN_FLIGHT: one up, or 0 after the last slot |
| FrameSpec.FirstNonZeroFrom | src/demoapp.cpp:1224-1230 | the first position from `from` whose size has both dimensions non-zero, every earlier one zero in some dimension; none when all are |
| FrameSpec.PollLog | src/demoapp.cpp:1224-1230 | n answers of the size loop make 2n-1 calls |
| FrameSpec.BuildChain | src/demoapp.cpp:453-464 | the chain built for a swapchain is valid. It has one view per image, one framebuffer per view, and attachments at the swapchain extent and format with the sample count and the depth format |
| FrameSpec.ChainDeterminedByParts | src/demoapp.cpp:794-815 | a valid chain is determined by its format, extent, images and attachments |
| FrameSpec.RebuildAt | src/demoapp.cpp:1232-1240 | a rebuild that succeeds yields a valid chain |
| FrameSpec.WaitCount | src/demoapp.cpp:1224-1230 | the size loop waits fewer times than it has answers, and never without answers |
| FrameSpec.RebuildSpec | src/demoapp.cpp:1222-1241 | a recreation that succeeds yields a valid chain |
| FrameSpec.AfterPresent | src/demoapp.cpp:1183-1193 | with no rebuild due (not out of date, not suboptimal, no resize flag), the frame goes on exactly when presentation returned SUCCESS and otherwise halts with a presentation error and no further calls; with a rebuild due, the calls are the rebuild's and the frame goes on exactly when the rebuild completes; on continuing, the state stays valid and the slot moves to the next one |
| FrameSpec.SubmitAndPresent | src/demoapp.cpp:1144-1193 | a failed submission halts with a submission error right after the submission call; after a successful one, SUCCESS from presentation with no resize flag goes on, and any other result with no rebuild due halts with a presentation error; on continuing, the state stays valid and the slot moves to the next one |
| FrameSpec.DrawFrameSpec | src/demoapp.cpp:1126-1194 | on continuing, the state stays valid (slot in range, one fence per slot, none left reset, a consistent chain) |
| FrameSpec.AfterPoll | src/demoapp.cpp:123-127 | the event poll sets the resize flag on a resize and keeps the state valid |
| FrameSpec.FrameTurn | src/demoapp.cpp:123-128 | one loop iteration (event poll, then the frame) keeps the state valid |
| FrameSpec.Run | src/demoapp.cpp:120-130 | the main loop, followed by the wait for the device once the window closes, keeps the state valid for as long as it runs |
| FrameProperties.FrameCallCounts | src/demoapp.cpp:1129-1181 | the acquire calls reset, submit and present nothing. The submit calls reset once and submit once. The present call presents once |
| FrameProperties.PollLogWaits | src/demoapp.cpp:1224-1230 | n answers of the size loop make n-1 waits for events |
| FrameProperties.RebuildWaitsWaitCountTimes | src/demoapp.cpp:1222-1241 | a recreation waits for events exactly `WaitCount` times, so the resize callback can run during it only when it waited |
| FrameProperties.RebuildAtNeverWaits | src/demoapp.cpp:1232-1240 | after the size loop a rebuild waits for no events |
| FrameProperties.PollLogOnlyPolls | src/demoapp.cpp:1224-1230 | the wait loop only queries the size and waits for events |
| FrameProperties.RebuildAtCallsOnly | src/demoapp.cpp:1232-1240 | a rebuild makes only rebuild calls |
| FrameProperties.RebuildCallsOnly | src/demoapp.cpp:1222-1241 | `recreateSwapChain` makes only polling and rebuild calls |
| FrameProperties.RebuildMakesNoFrameCalls | src/demoapp.cpp:1222-1241 | `recreateSwapChain` resets no fence, submits nothing and presents nothing |
| FrameProperties.RebuildOnlyAtNonZeroSize | src/demoapp.cpp:1224-1236 | a swapchain is created if and only if the window reports a size with both dimensions non-zero |
| FrameProperties.RebuildWaitsForFirstNonZeroSize | src/demoapp.cpp:1224-1240 | all sizes zero: the rebuild stays blocked. Otherwise it polls up to the first non-zero size and then rebuilds |
| FrameProperties.RebuildAtOrder | src/demoapp.cpp:1232-1240 | a successful rebuild makes, in order: device idle, cleanup, swapchain, views, colour, depth, framebuffers. Its extent is chosen from the framebuffer size the window reports at creation |
| FrameProperties.DrawFrameOutcomes | src/demoapp.cpp:1126-1194 | a failed acquire (neither SUCCESS, SUBOPTIMAL nor OUT_OF_DATE) halts right after the acquire calls; OUT_OF_DATE goes on exactly when the rebuild completes; a failed submission halts after the submission call; with submission done and no rebuild due, the frame goes on exactly when presentation returned SUCCESS and moves to the next slot |
| FrameProperties.AfterPresentMakesNoFrameCalls | src/demoapp.cpp:1183-1193 | after presentation nothing is reset, submitted or presented again |
| FrameProperties.SubmitAndPresentCounts | src/demoapp.cpp:1144-1193 | after a successful acquire: exactly one fence reset and one submission; one presentation exactly when the submission succeeds |
| FrameProperties.AcquireOutOfDateReturnsEarly | src/demoapp.cpp:1135-1139 | OUT_OF_DATE at acquire rebuilds and returns. No fence is reset, nothing is submitted or presented, the slot and the signalled fence are unchanged, and the flag is kept (set as well if the resize callback ran during the rebuild's wait) |
| FrameProperties.FenceResetOnlyAfterSuccessfulAcquire | src/demoapp.cpp:1129-1147 | every frame starts with the fence wait and the acquire. The fence is reset once if and only if the acquire gave SUCCESS or SUBOPTIMAL, and then right after the uniform update |
| FrameProperties.FrameIndexAdvancesPerSubmission | src/demoapp.cpp:1135-1193 | a frame submits at most once, presents as often as it submits, and advances the slot once per submission, staying below MAX_FRAMES_IN_FLIGHT |
| FrameProperties.ResizeFlagClearedOnRebuild | src/demoapp.cpp:1183-1187 | a present result of OUT_OF_DATE or SUBOPTIMAL, or a pending resize, rebuilds after presenting; the flag then ends set exactly when the resize callback ran during the rebuild's wait. A flag set after a frame was set by that callback or survived an early acquire return |
| FrameProperties.SubmittedFrameStarts | src/demoapp.cpp:1129-1181 | a frame whose acquire and submission succeed starts with the fence wait, the acquire, the uniform update, the fence reset, the recording, the submission and the presentation |
| FrameProperties.SemaphoresChainAcquireSubmitPresent | src/demoapp.cpp:1129-1181 | the submission waits on the semaphore the acquire signals, and the presentation waits on the one the submission signals. The submission fences the slot whose fence was reset |
| FrameProperties.RunFrameIndexCountsSubmissions | src/demoapp.cpp:120-130 | over any run of the main loop, the slot advances once per submission and presentations equal submissions |
| FrameProperties.RunPollsFirstAndWaitsIdleLast | src/demoapp.cpp:120-130 | a run starts with the event poll, and a run that ends because the window closed ends with the wait for the device |
| FrameProperties.ComposeFrameCounts | src/demoapp.cpp:120-130 | the slot and submission counts of consecutive frames compose |
| FrameProperties.SlotArithmetic | src/demoapp.cpp:1193 | advancing a slots then b slots is advancing a+b |
| FrameProperties.AdvanceSlotIsModular | src/demoapp.cpp:1193 | advancing n slots is adding n modulo MAX_FRAMES_IN_FLIGHT |
| FrameLoop.Renderer.constructor | src/demoapp.cpp:64-95 | a renderer over an initial valid swapchain starts at slot 0, flag clear, both fences signalled, no calls made |
| FrameLoop.Renderer.CreateSyncObjects | src/demoapp.cpp:1096-1120 | MAX_FRAMES_IN_FLIGHT semaphore pairs (one per slot) and fences, every fence signalled |
| FrameLoop.Renderer.FramebufferResizeCallback | src/demoapp.cpp:1264-1268 | sets the resize flag and changes nothing else |
| FrameLoop.Renderer.CleanupSwapChain | src/demoapp.cpp:1200-1216 | the colour and depth attachments, the framebuffers, the views and the swapchain images are gone, and the frame bookkeeping is unchanged |
| FrameLoop.Renderer.CreateSwapChain | src/demoapp.cpp:360-422 | logs the creation with the configuration the policy chooses. On SUCCESS, stores the images, the chosen format and the chosen extent; otherwise reports failure |
| FrameLoop.Renderer.CreateImageViews | src/demoapp.cpp:453-464 | one view per swapchain image, view i of image i, in the swapchain format |
| FrameLoop.Renderer.CreateColorResources | src/demoapp.cpp:881-893 | the colour attachment at the swapchain extent and format with the sample count |
| FrameLoop.Renderer.CreateDepthResources | src/demoapp.cpp:824-839 | the depth attachment in the format `findDepthFormat` picks, or that search's error |
| FrameLoop.Renderer.CreateFramebuffers | src/demoapp.cpp:792-818 | one framebuffer per view, framebuffer i over the colour and depth attachments and view i at the swapchain extent |
| FrameLoop.Renderer.WaitForNonZeroSize | src/demoapp.cpp:1224-1230 | the loop stops at the first non-zero size and logs the polling calls up to it; a resize notification during its waits sets the flag |
| FrameLoop.Renderer.CreateSwapchainObjects | src/demoapp.cpp:1237-1240 | views, colour, depth and framebuffers together give the chain `BuildChain` describes, or the depth-format error after the first three calls |
| FrameLoop.Renderer.RebuildForSize | src/demoapp.cpp:1232-1240 | ends in the swapchain and calls `RebuildAt` gives, or halts where it halts |
| FrameLoop.Renderer.RecreateSwapChain | src/demoapp.cpp:1222-1241 | ends in the swapchain and calls `RebuildSpec` gives; the resize flag is set when the callback ran during the wait, the rest of the frame bookkeeping untouched |
| FrameLoop.Renderer.DrawFrame | src/demoapp.cpp:1126-1194 | ends in the state and calls `DrawFrameSpec` gives, and stays valid when it does not halt |
| FrameLoop.Renderer.SubmitAndPresent | src/demoapp.cpp:1144-1193 | ends as `FrameSpec.SubmitAndPresent` says |
| FrameLoop.Renderer.FinishPresent | src/demoapp.cpp:1183-1193 | ends as `AfterPresent` says |
| FrameLoop.Renderer.PollAndDraw | src/demoapp.cpp:125-127 | one poll and draw ends as `FrameTurn` says |
| FrameLoop.Renderer.MainLoop | src/demoapp.cpp:120-130 | the loop, then the wait for the device, ends in the state and calls `Run` gives for the frames before the window closes, and the renderer stays valid when no frame halted |
| MeshModel.FlattenPrefixStep | src/mesh.cpp:87-89 | visiting one more shape appends its vertices |
| MeshModel.DistinctPrefixStep | src/mesh.cpp:106-109 | deduplicating one more vertex appends it unless already kept |
| MeshModel.DistinctMembers | src/mesh.cpp:106-109 | deduplication keeps exactly the elements of its input |
| MeshModel.DistinctHasNoDuplicates | src/mesh.cpp:106-109 | deduplication leaves no two equal elements |
| MeshModel.DistinctOfDistinctFree | src/mesh.cpp:106-109 | a duplicate-free list is its own deduplication (idempotence) |
| MeshModel.DeduplicatedStep | src/mesh.cpp:106-111 | one iteration keeps the loop invariant: stored list is the deduplication, one index per processed vertex naming an equal vertex, the map sending each stored vertex to its position |
| MeshModel.Mesh.LoadModel | src/mesh.cpp:71-114 | lists cleared first. Stored vertices are the first-occurrence deduplication of the input stream, with no two equal. One index per input vertex, each below the vertex count and naming a vertex equal to that input |
| MeshModel.Mesh.CreateQuads | src/mesh.cpp:38-65 | the two quads' 8 vertices and 12 indices, every index naming a vertex |
| MeshModel.IndicesInUseIsLeastBound | src/mesh.cpp:61-64 | one past the largest index is the least bound every index stays below |
| MeshModel.NewPrefixElement | src/mesh.cpp:106-108 | a duplicate-free list grows by an element it did not hold |
| MeshModel.DistinctOfFirstUseOrdered | src/mesh.cpp:106-111 | an indexed mesh with distinct vertices in first-use order is what deduplicating its expanded stream gives |
| MeshModel.DistinctOfFirstUseOrderedStep | src/mesh.cpp:106-111 | one more index in first-use order extends the deduplicated stream by the vertex it brings in, or leaves it as it is |
| MeshModel.IndicesInUseStep | src/mesh.cpp:61-64 | one more index brings in a new vertex exactly when it names the next one |
| MeshModel.QuadVerticesDistinct | src/mesh.cpp:48-58 | the eight quad corners are pairwise different |
| MeshModel.QuadIndicesFirstUseOrdered | src/mesh.cpp:61-64 | the quad indices use the vertices in list order, all eight of them |
| MeshModel.QuadsAreDeduplicated | src/mesh.cpp:48-64 | 8 distinct vertices, 12 indices below 8 (4 triangles), and the scene is its own deduplication, so `createQuads` and `loadModel` agree on it |

## Left out

- Every Vulkan and GLFW call: creation, destruction, memory mapping, command recording, waiting. Their answers are parameters, and the frame loop records the calls as events.
- Fences and semaphores have no real semantics. A fence is Signalled, InFlight or Reset, and GPU progress is not modelled.
- The concurrency between GPU and CPU is not modelled.
- Floating point: vertex components are reals. The uniform buffer contents, the camera, the trackball and `updateUniformBuffer` are left out; the last appears only as a call in the log.
- OBJ parsing and the texture-coordinate flip in `loadModel` are not modelled. The loop receives, per shape, the vertices the OBJ indices designate, already built (white colour, flipped coordinate). `std::hash<Vertex>` is replaced by equality of vertices.
- Attribute byte offsets (`offsetof`) are replaced by the field each attribute names. `getBindingDescription` is not modelled.
- Creating views, framebuffers, images and sync objects cannot fail in the model. The source throws when those calls fail; only swapchain creation, depth-format search, acquire, submit and present carry error results.
- The waits of the size loop of `recreateSwapChain` are one answer per rebuild: whether the events they process include a resize notification. Which wait delivers it is not modelled; only the flag it sets is observable.
- A window that never reports a non-zero size blocks the source forever. The model stops with `Blocked` when the finite size sequence runs out.
- After an error the source throws and ends. The model stops with the failure and keeps no state.
- `std::clamp` with `lo > hi` is undefined behaviour in C++. `SwapchainPolicy.Clamp` follows the standard library's usual code there; its contract promises nothing about that case.
- `chooseSwapExtent` reads the framebuffer size through GLFW. The model passes that read in as an answer of its own, unrelated to the sizes the wait loop saw.
- A wait that never ends leaves the renderer's state unobserved, so the model does not track it after `Blocked`.
- The `HelloTriangleApp` variant of `recreateSwapChain` is not modelled. It does not recreate the colour and depth resources. Its `drawFrame` is textually the same as `DemoApp`'s.
- `initVulkan` is reduced to the initial swapchain the constructor receives, plus `createSyncObjects`. Device selection, `isDeviceSuitable` and `querySwapChainSupport` are not modelled; their guarantees are the preconditions `EnvOk` states.
- Pipeline, render pass, descriptor sets, shader modules, command pool and buffers, the texture image and the debug messenger are not modelled. They fill structures without logic.
- `src/context.cpp`, `src/device.h`, `src/image.cpp` and `src/main.cpp` are not part of this model.
- `FrameLoop.Renderer.DrawFrame`: the steps of `drawFrame` and `recreateSwapChain` are split across helper methods along the stages of the source (`SubmitAndPresent`, `FinishPresent`, `RebuildForSize`, `CreateSwapchainObjects`). The order of calls is unchanged.
