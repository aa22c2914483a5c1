/**
 * The swapchain configuration policy of `createSwapChain`: which surface format,
 * which present mode, which extent and how many images to ask for, and how the
 * images are shared between the graphics and the present queue families.
 * Everything here is a pure choice over the capability records that the
 * surface queries return, following the `VkSurfaceCapabilitiesKHR` rules of
 * the Vulkan specification's Window System Integration chapter.
 */
module SwapchainPolicy {
  import opened VkTypes

  /** The format the renderer prefers: 8-bit BGRA, sRGB encoded, non-linear sRGB colour space. */
  const PreferredSurfaceFormat: SurfaceFormat := SurfaceFormat(B8G8R8A8Srgb, SrgbNonlinear)

  /** The scan of `chooseSwapSurfaceFormat`: the first entry of `formats` that is the
      preferred format, or `fallback` when the scan runs off the end. */
  function FirstPreferredFormat(formats: seq<SurfaceFormat>, fallback: SurfaceFormat): (chosen: SurfaceFormat)
    ensures PreferredSurfaceFormat in formats ==> chosen == PreferredSurfaceFormat
    ensures PreferredSurfaceFormat !in formats ==> chosen == fallback
  {
    if formats == [] then fallback
    else if formats[0].format == B8G8R8A8Srgb && formats[0].colorSpace == SrgbNonlinear then formats[0]
    else FirstPreferredFormat(formats[1..], fallback)
  }

  /** `chooseSwapSurfaceFormat`: the preferred format when the surface offers it,
      otherwise the first format offered. The source indexes element 0 unguarded,
      so an empty list is the caller's responsibility (device selection rejects it). */
  function ChooseSwapSurfaceFormat(available: seq<SurfaceFormat>): (chosen: SurfaceFormat)
    requires |available| > 0
    ensures chosen in available
    ensures PreferredSurfaceFormat in available ==> chosen == PreferredSurfaceFormat
    ensures PreferredSurfaceFormat !in available ==> chosen == available[0]
  {
    FirstPreferredFormat(available, available[0])
  }

  /** `chooseSwapPresentMode`: scan for MAILBOX, fall back to FIFO (which every
      implementation must support). */
  function ChooseSwapPresentMode(available: seq<PresentMode>): (mode: PresentMode)
    ensures mode == Mailbox <==> Mailbox in available
    ensures mode != Mailbox ==> mode == Fifo
  {
    if available == [] then Fifo
    else if available[0] == Mailbox then available[0]
    else ChooseSwapPresentMode(available[1..])
  }

  function Distance(a: int, b: int): nat
  {
    if a <= b then b - a else a - b
  }

  /** `std::clamp(v, lo, hi)` as the standard library writes it: `lo` when `v < lo`,
      else `hi` when `hi < v`, else `v`. With `lo <= hi` the result is the point of
      `[lo, hi]` nearest to `v`. */
  function Clamp(v: uint32, lo: uint32, hi: uint32): (r: uint32)
    ensures lo <= hi ==> lo <= r <= hi
    ensures lo <= v <= hi ==> r == v
    ensures lo <= hi ==> forall w: uint32 {:trigger Distance(w, v)} :: lo <= w <= hi ==> Distance(r, v) <= Distance(w, v)
  {
    if v < lo then lo else if hi < v then hi else v
  }

  /** `chooseSwapExtent`: the surface's current extent when it is defined; when the
      surface reports the "application chooses" value, the framebuffer size clamped
      component-wise into `[minImageExtent, maxImageExtent]`. */
  function ChooseSwapExtent(caps: SurfaceCapabilities, framebufferSize: Extent): (e: Extent)
    ensures caps.currentExtent.width != UINT32_MAX ==> e == caps.currentExtent
    ensures caps.currentExtent.width == UINT32_MAX ==>
              && e.width == Clamp(framebufferSize.width, caps.minImageExtent.width, caps.maxImageExtent.width)
              && e.height == Clamp(framebufferSize.height, caps.minImageExtent.height, caps.maxImageExtent.height)
    ensures caps.currentExtent.width == UINT32_MAX && caps.minImageExtent.width <= caps.maxImageExtent.width ==>
              caps.minImageExtent.width <= e.width <= caps.maxImageExtent.width
    ensures caps.currentExtent.width == UINT32_MAX && caps.minImageExtent.height <= caps.maxImageExtent.height ==>
              caps.minImageExtent.height <= e.height <= caps.maxImageExtent.height
    ensures (caps.currentExtent.width == UINT32_MAX
              && caps.minImageExtent.width <= framebufferSize.width <= caps.maxImageExtent.width
              && caps.minImageExtent.height <= framebufferSize.height <= caps.maxImageExtent.height)
              ==> e == framebufferSize
  {
    if caps.currentExtent.width != UINT32_MAX then caps.currentExtent
    else Extent(Clamp(framebufferSize.width, caps.minImageExtent.width, caps.maxImageExtent.width),
                Clamp(framebufferSize.height, caps.minImageExtent.height, caps.maxImageExtent.height))
  }

  /** The image-count rule of `createSwapChain`: one more than the minimum, lowered to
      the maximum when there is one (non-zero) and it is exceeded. The addition is
      32-bit unsigned, so a minimum of UINT32_MAX wraps to 0. */
  function ChooseImageCount(caps: SurfaceCapabilities): (n: uint32)
    ensures caps.maxImageCount > 0 ==> n <= caps.maxImageCount
    ensures caps.minImageCount < UINT32_MAX ==>
              n <= caps.minImageCount + 1
              && (n == caps.minImageCount + 1 || (caps.maxImageCount > 0 && n == caps.maxImageCount))
    ensures caps.minImageCount < UINT32_MAX && (caps.maxImageCount == 0 || caps.minImageCount <= caps.maxImageCount) ==>
              caps.minImageCount <= n
    ensures caps.minImageCount == UINT32_MAX ==> n == 0
  {
    var imageCount := (caps.minImageCount + 1) % (UINT32_MAX + 1);
    if caps.maxImageCount > 0 && imageCount > caps.maxImageCount then caps.maxImageCount else imageCount
  }

  datatype SharingMode = Exclusive | Concurrent

  /** `imageSharingMode` together with the queue family list handed to the swapchain. */
  datatype ImageSharing = ImageSharing(mode: SharingMode, queueFamilyIndices: seq<nat>)

  /** The sharing choice of `createSwapChain`: concurrent use by both families when
      graphics and presentation live in different families, exclusive ownership
      with no family list otherwise. */
  function ChooseImageSharing(families: QueueFamilyIndices): (s: ImageSharing)
    requires IsComplete(families)
    ensures s.mode == Concurrent <==> families.graphicsFamily != families.presentFamily
    ensures s.mode == Concurrent ==>
              s.queueFamilyIndices == [families.graphicsFamily.value, families.presentFamily.value]
    ensures s.mode == Exclusive ==> s.queueFamilyIndices == []
    // every family that will touch the images is named, and none twice
    ensures forall k, j :: 0 <= k < j < |s.queueFamilyIndices| ==> s.queueFamilyIndices[k] != s.queueFamilyIndices[j]
  {
    if families.graphicsFamily != families.presentFamily then
      ImageSharing(Concurrent, [families.graphicsFamily.value, families.presentFamily.value])
    else
      ImageSharing(Exclusive, [])
  }

  /** The fields of `VkSwapchainCreateInfoKHR` that `createSwapChain` decides. */
  datatype SwapchainConfig = SwapchainConfig(
    surfaceFormat: SurfaceFormat,
    presentMode: PresentMode,
    extent: Extent,
    minImageCount: uint32,
    sharing: ImageSharing)

  /** `createSwapChain` up to the `vkCreateSwapchainKHR` call. The requires are what
      device selection established: the surface reports formats, and both queue
      families were found. */
  function SwapchainCreateInfo(support: SurfaceSupport, framebufferSize: Extent, families: QueueFamilyIndices): (info: SwapchainConfig)
    requires |support.formats| > 0 && IsComplete(families)
    ensures info.surfaceFormat in support.formats
    ensures info.presentMode == Mailbox || info.presentMode == Fifo
    ensures support.capabilities.currentExtent.width != UINT32_MAX ==> info.extent == support.capabilities.currentExtent
    ensures support.capabilities.maxImageCount > 0 ==> info.minImageCount <= support.capabilities.maxImageCount
    ensures info.sharing.mode == Exclusive <==> families.graphicsFamily == families.presentFamily
  {
    SwapchainConfig(
      ChooseSwapSurfaceFormat(support.formats),
      ChooseSwapPresentMode(support.presentModes),
      ChooseSwapExtent(support.capabilities, framebufferSize),
      ChooseImageCount(support.capabilities),
      ChooseImageSharing(families))
  }

  /** The image count is one more than the minimum whenever the maximum leaves
      room for it (or there is no maximum), and the maximum otherwise, for every
      minimum short of the 32-bit limit. */
  lemma ImageCountRule(caps: SurfaceCapabilities)
    requires caps.minImageCount < UINT32_MAX
    ensures caps.maxImageCount == 0 || caps.minImageCount < caps.maxImageCount ==>
              ChooseImageCount(caps) == caps.minImageCount + 1
    ensures 0 < caps.maxImageCount <= caps.minImageCount ==> ChooseImageCount(caps) == caps.maxImageCount
  {
  }

  /** Choosing an extent is idempotent: feeding a chosen extent back in as the
      framebuffer size chooses it again (clamping twice changes nothing). */
  lemma {:induction false} ChooseSwapExtentIdempotent(caps: SurfaceCapabilities, framebufferSize: Extent)
    requires caps.minImageExtent.width <= caps.maxImageExtent.width
    requires caps.minImageExtent.height <= caps.maxImageExtent.height
    ensures ChooseSwapExtent(caps, ChooseSwapExtent(caps, framebufferSize)) == ChooseSwapExtent(caps, framebufferSize)
  {
  }
}
