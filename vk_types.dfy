/**
 * Values shared by the swapchain policy, the device-capability searches and the
 * frame loop: the Vulkan enumerations the renderer inspects, the capability
 * records it reads, and the result codes it reacts to. Handles and bit masks
 * stay abstract: a handle is a number, a flag set is a 32-bit vector.
 */
module VkTypes {

  /** Largest value of a 32-bit unsigned integer; as `currentExtent.width` it means
      "the application chooses the extent". */
  const UINT32_MAX: nat := 0xFFFF_FFFF

  type uint32 = x: nat | x <= UINT32_MAX

  datatype Option<+T> = None | Some(value: T)

  datatype Result<+T, +E> = Ok(value: T) | Err(error: E)

  /** The pixel formats the renderer names; every other format is `OtherFormat`. */
  datatype Format =
    | B8G8R8A8Srgb
    | R8G8B8A8Srgb
    | R32G32B32Sfloat
    | R32G32Sfloat
    | D32Sfloat
    | D32SfloatS8Uint
    | D24UnormS8Uint
    | OtherFormat(code: nat)

  datatype ColorSpace = SrgbNonlinear | OtherColorSpace(code: nat)

  datatype SurfaceFormat = SurfaceFormat(format: Format, colorSpace: ColorSpace)

  datatype PresentMode = Immediate | Mailbox | Fifo | FifoRelaxed | OtherPresentMode(code: nat)

  datatype Extent = Extent(width: uint32, height: uint32)

  /** The part of `VkSurfaceCapabilitiesKHR` the swapchain policy reads. */
  datatype SurfaceCapabilities = SurfaceCapabilities(
    minImageCount: uint32,
    maxImageCount: uint32,   // 0 means "no upper bound"
    currentExtent: Extent,   // width UINT32_MAX means "chosen by the application"
    minImageExtent: Extent,
    maxImageExtent: Extent)

  /** What `querySwapChainSupport` gathers for one surface. */
  datatype SurfaceSupport = SurfaceSupport(
    capabilities: SurfaceCapabilities,
    formats: seq<SurfaceFormat>,
    presentModes: seq<PresentMode>)

  /** `VkResult` as the frame loop distinguishes it: success, the two swapchain
      statuses, and every other code (errors, timeouts, not-ready). */
  datatype VkResult = Success | SuboptimalKhr | ErrorOutOfDateKhr | OtherResult(code: int)

  /** The runtime errors the modelled code throws, one per distinct cause. */
  datatype Failure =
    | NoSuitableMemoryType         // no memory type passes the filter with the requested flags
    | NoSupportedFormat            // no candidate format has the required tiling features
    | UnsupportedLayoutTransition  // a layout pair outside the transition table
    | AcquireFailed                // acquiring a swapchain image returned an error
    | SubmitFailed                 // the queue submission returned an error
    | PresentFailed                // presenting returned an error
    | SwapchainCreationFailed      // creating the swapchain returned an error

  /** `std::optional<uint32_t>` pair of `QueueFamilyIndices`. */
  datatype QueueFamilyIndices = QueueFamilyIndices(graphicsFamily: Option<nat>, presentFamily: Option<nat>)

  /** `QueueFamilyIndices::isComplete`: both families hold a value, that is, the
      indices name a graphics family and a present family. */
  predicate IsComplete(q: QueueFamilyIndices): (b: bool)
    ensures b <==> exists g: nat, p: nat :: q == QueueFamilyIndices(Some(g), Some(p))
  {
    q.graphicsFamily.Some? && q.presentFamily.Some?
  }
}
