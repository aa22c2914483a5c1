/**
 * Searches over what the physical device reports: memory types, format
 * features, multisample counts and queue families, plus the image-layout
 * transition table used when a texture is uploaded and the vertex attribute
 * layout. The device's answers are parameters; flag sets are 32-bit vectors
 * checked with the same `&` the renderer uses.
 */
module DeviceQueries {
  import opened VkTypes

  /** `VK_MAX_MEMORY_TYPES`: the size of the fixed `memoryTypes` array, so `memoryTypeCount` never exceeds it. */
  const MAX_MEMORY_TYPES: nat := 32

  /** Memory type `i` passes `findMemoryType`'s test: bit `i` of the filter is set
      and its property flags contain every requested flag. */
  predicate MemoryTypeSuitable(typeFilter: bv32, memoryTypeFlags: seq<bv32>, properties: bv32, i: nat)
    requires i < |memoryTypeFlags| <= MAX_MEMORY_TYPES
  {
    typeFilter & ((1 as bv32) << i) != 0 && memoryTypeFlags[i] & properties == properties
  }

  /** `findMemoryType`: the counting loop over the device's memory types
      (`memoryTypeFlags[i]` is `memoryTypes[i].propertyFlags`, its length is
      `memoryTypeCount`). Returns the smallest suitable index, or fails when there
      is none. */
  method FindMemoryType(typeFilter: bv32, memoryTypeFlags: seq<bv32>, properties: bv32) returns (r: Result<nat, Failure>)
    requires |memoryTypeFlags| <= MAX_MEMORY_TYPES
    ensures r.Ok? ==> r.value < |memoryTypeFlags| && MemoryTypeSuitable(typeFilter, memoryTypeFlags, properties, r.value)
    ensures r.Ok? ==> forall j :: 0 <= j < r.value ==> !MemoryTypeSuitable(typeFilter, memoryTypeFlags, properties, j)
    ensures r.Err? <==> forall j :: 0 <= j < |memoryTypeFlags| ==> !MemoryTypeSuitable(typeFilter, memoryTypeFlags, properties, j)
    ensures r.Err? ==> r.error == NoSuitableMemoryType
  {
    var i := 0;
    while i < |memoryTypeFlags|
      invariant 0 <= i <= |memoryTypeFlags|
      invariant forall j :: 0 <= j < i ==> !MemoryTypeSuitable(typeFilter, memoryTypeFlags, properties, j)
    {
      if typeFilter & ((1 as bv32) << i) != 0 && memoryTypeFlags[i] & properties == properties {
        assert MemoryTypeSuitable(typeFilter, memoryTypeFlags, properties, i);
        return Ok(i);
      }
      i := i + 1;
    }
    return Err(NoSuitableMemoryType);
  }

  datatype ImageTiling = Linear | Optimal | OtherTiling(code: nat)

  /** `VkFormatProperties`: the features a format has under each tiling. */
  datatype FormatProperties = FormatProperties(linearTilingFeatures: bv32, optimalTilingFeatures: bv32)

  /** The test of `findSupportedFormat`: the features of the requested tiling contain
      every required feature. A tiling other than linear or optimal never passes. */
  predicate HasFeatures(props: FormatProperties, tiling: ImageTiling, features: bv32)
  {
    match tiling
    case Linear => props.linearTilingFeatures & features == features
    case Optimal => props.optimalTilingFeatures & features == features
    case OtherTiling(_) => false
  }

  /** The scan of `findSupportedFormat` from position `from` on. */
  function FirstSupportedFrom(candidates: seq<Format>, from: nat, tiling: ImageTiling, features: bv32,
                              query: Format -> FormatProperties): (r: Option<nat>)
    requires from <= |candidates|
    ensures r.Some? ==> from <= r.value < |candidates|
    decreases |candidates| - from
  {
    if from == |candidates| then None
    else if HasFeatures(query(candidates[from]), tiling, features) then Some(from)
    else FirstSupportedFrom(candidates, from + 1, tiling, features, query)
  }

  /** The scan answers the first position from `from` on whose format passes, or
      nothing when none does. */
  lemma {:induction false} FirstSupportedFromIsFirst(candidates: seq<Format>, from: nat, tiling: ImageTiling, features: bv32,
                                                     query: Format -> FormatProperties)
    requires from <= |candidates|
    ensures var r := FirstSupportedFrom(candidates, from, tiling, features, query);
            && (r.Some? ==> from <= r.value < |candidates| && HasFeatures(query(candidates[r.value]), tiling, features))
            && (r.Some? ==> forall j :: from <= j < r.value ==> !HasFeatures(query(candidates[j]), tiling, features))
            && (r.None? ==> forall j :: from <= j < |candidates| ==> !HasFeatures(query(candidates[j]), tiling, features))
    decreases |candidates| - from
  {
    if from < |candidates| && !HasFeatures(query(candidates[from]), tiling, features) {
      FirstSupportedFromIsFirst(candidates, from + 1, tiling, features, query);
    }
  }

  /** `findSupportedFormat`: the first candidate (in order of preference) whose
      features under `tiling` contain `features`; `query` is
      `vkGetPhysicalDeviceFormatProperties` for the chosen device. */
  function FindSupportedFormat(candidates: seq<Format>, tiling: ImageTiling, features: bv32,
                               query: Format -> FormatProperties): (r: Result<Format, Failure>)
    ensures r.Ok? ==> r.value in candidates
    ensures r.Err? ==> r.error == NoSupportedFormat
    ensures candidates == [] ==> r.Err?
  {
    match FirstSupportedFrom(candidates, 0, tiling, features, query)
    case Some(i) => Ok(candidates[i])
    case None => Err(NoSupportedFormat)
  }

  /** The answer of `findSupportedFormat` is a candidate that passes, and every
      candidate before it fails; the error comes exactly when every candidate fails. */
  lemma FindSupportedFormatIsFirstMatch(candidates: seq<Format>, tiling: ImageTiling, features: bv32,
                                        query: Format -> FormatProperties)
    ensures var r := FindSupportedFormat(candidates, tiling, features, query);
            && (r.Ok? ==> exists i :: 0 <= i < |candidates| && candidates[i] == r.value
                            && HasFeatures(query(candidates[i]), tiling, features)
                            && forall j :: 0 <= j < i ==> !HasFeatures(query(candidates[j]), tiling, features))
            && (r.Err? <==> forall j :: 0 <= j < |candidates| ==> !HasFeatures(query(candidates[j]), tiling, features))
            && (r.Err? ==> r.error == NoSupportedFormat)
  {
    FirstSupportedFromIsFirst(candidates, 0, tiling, features, query);
  }

  /** `VK_FORMAT_FEATURE_DEPTH_STENCIL_ATTACHMENT_BIT` */
  const FORMAT_FEATURE_DEPTH_STENCIL_ATTACHMENT: bv32 := 0x200

  /** The depth formats `findDepthFormat` tries, most desirable first. */
  const DepthFormatCandidates: seq<Format> := [D32Sfloat, D32SfloatS8Uint, D24UnormS8Uint]

  /** `findDepthFormat`: a depth format usable as a depth/stencil attachment with optimal tiling. */
  function FindDepthFormat(query: Format -> FormatProperties): (r: Result<Format, Failure>)
    ensures r.Ok? ==> r.value in DepthFormatCandidates
    ensures r.Err? ==> r.error == NoSupportedFormat
  {
    FindSupportedFormat(DepthFormatCandidates, Optimal, FORMAT_FEATURE_DEPTH_STENCIL_ATTACHMENT, query)
  }

  /** The depth format is a candidate with optimal-tiling depth/stencil support,
      and the preferred D32_SFLOAT is passed over only when it lacks that support. */
  lemma FindDepthFormatIsSupported(query: Format -> FormatProperties)
    ensures var r := FindDepthFormat(query);
            && (r.Ok? ==> r.value in DepthFormatCandidates
                          && query(r.value).optimalTilingFeatures & FORMAT_FEATURE_DEPTH_STENCIL_ATTACHMENT != 0)
            && (r.Ok? && r.value != D32Sfloat ==>
                  query(D32Sfloat).optimalTilingFeatures & FORMAT_FEATURE_DEPTH_STENCIL_ATTACHMENT == 0)
  {
    FindSupportedFormatIsFirstMatch(DepthFormatCandidates, Optimal, FORMAT_FEATURE_DEPTH_STENCIL_ATTACHMENT, query);
  }

  /** The single-bit `VkSampleCountFlagBits` values 1 to 64, lowest first. */
  const SampleCountBits: seq<bv32> := [1, 2, 4, 8, 16, 32, 64]

  /** `getMaxUsableSampleCount`: the highest sample count supported by both the
      colour and the depth attachments of a framebuffer, or 1 when no higher count
      is common to both. */
  function GetMaxUsableSampleCount(colorSampleCounts: bv32, depthSampleCounts: bv32): (r: bv32)
    ensures r in SampleCountBits
  {
    HighestCount(colorSampleCounts & depthSampleCounts)
  }

  /** The tests of `getMaxUsableSampleCount` on the common counts, highest first. */
  function HighestCount(counts: bv32): (r: bv32)
    ensures r in SampleCountBits
  {
    if counts & 64 != 0 then 64
    else if counts & 32 != 0 then 32
    else if counts & 16 != 0 then 16
    else if counts & 8 != 0 then 8
    else if counts & 4 != 0 then 4
    else if counts & 2 != 0 then 2
    else 1
  }

  /** The count chosen, unless it is the fallback 1, is set in both masks. */
  lemma GetMaxUsableSampleCountIsCommon(colorSampleCounts: bv32, depthSampleCounts: bv32)
    ensures var r := GetMaxUsableSampleCount(colorSampleCounts, depthSampleCounts);
      r != 1 ==> colorSampleCounts & r != 0 && depthSampleCounts & r != 0
  {
    var counts := colorSampleCounts & depthSampleCounts;
    var r := HighestCount(counts);
    if r != 1 {
      assert counts & r != 0;
      CommonBitInBoth(colorSampleCounts, depthSampleCounts, r);
    }
  }

  /** No count in `SampleCountBits` above `r` is set in `counts`. */
  predicate NoHigherCount(counts: bv32, r: bv32)
  {
    forall k :: 0 <= k < |SampleCountBits| && SampleCountBits[k] > r ==> counts & SampleCountBits[k] == 0
  }

  /** No count higher than the one chosen is set in both masks. */
  lemma GetMaxUsableSampleCountIsHighest(colorSampleCounts: bv32, depthSampleCounts: bv32)
    ensures NoHigherCount(colorSampleCounts & depthSampleCounts,
                          GetMaxUsableSampleCount(colorSampleCounts, depthSampleCounts))
  {
    HighestCountIsHighest(colorSampleCounts & depthSampleCounts);
  }

  /** No count higher than the one the chain of tests stops at is in `counts`. */
  lemma HighestCountIsHighest(counts: bv32)
    ensures NoHigherCount(counts, HighestCount(counts))
  {
    forall k | 0 <= k < |SampleCountBits| && SampleCountBits[k] > HighestCount(counts)
      ensures counts & SampleCountBits[k] == 0
    {
      HigherBitsClear(counts, k);
    }
  }

  /** Every count above the one the chain of tests stops at failed its test. */
  lemma HigherBitsClear(counts: bv32, k: nat)
    requires k < |SampleCountBits| && SampleCountBits[k] > HighestCount(counts)
    ensures counts & SampleCountBits[k] == 0
  {
    assert SampleCountBits[k] == [1, 2, 4, 8, 16, 32, 64][k];
  }

  /** A bit set in the intersection of two masks is set in each of them. */
  lemma CommonBitInBoth(a: bv32, b: bv32, bit: bv32)
    requires a & b & bit != 0
    ensures a & bit != 0 && b & bit != 0
  {
  }

  /** `VK_QUEUE_GRAPHICS_BIT` */
  const QUEUE_GRAPHICS: bv32 := 0x1

  /** One queue family as `findQueueFamilies` sees it: its `queueFlags`, and the
      answer of `vkGetPhysicalDeviceSurfaceSupportKHR` for it and the window surface. */
  datatype QueueFamily = QueueFamily(queueFlags: bv32, presentSupport: bool)

  predicate SupportsGraphics(family: QueueFamily)
  {
    family.queueFlags & QUEUE_GRAPHICS != 0
  }

  /** `findQueueFamilies`: walk the families in order, remembering the latest one
      with the graphics bit and the latest one that can present, and stop at the
      first index at which both have been seen. So each stored index satisfies its
      test, the result is complete exactly when both kinds of family exist, and a
      complete result stops at the earliest possible index. */
  method FindQueueFamilies(families: seq<QueueFamily>) returns (indices: QueueFamilyIndices)
    ensures indices.graphicsFamily.Some? ==>
              indices.graphicsFamily.value < |families| && SupportsGraphics(families[indices.graphicsFamily.value])
    ensures indices.presentFamily.Some? ==>
              indices.presentFamily.value < |families| && families[indices.presentFamily.value].presentSupport
    ensures IsComplete(indices) <==>
              (exists i :: 0 <= i < |families| && SupportsGraphics(families[i]))
              && (exists i :: 0 <= i < |families| && families[i].presentSupport)
    // a complete result: the scan stopped at stop = max(graphics, present), the first
    // index by which both kinds had been seen, and each stored index is the latest of its kind
    ensures IsComplete(indices) ==>
              var g, p := indices.graphicsFamily.value, indices.presentFamily.value;
              var stop := if g < p then p else g;
              && (forall j :: g < j <= stop ==> !SupportsGraphics(families[j]))
              && (forall j :: p < j <= stop ==> !families[j].presentSupport)
              && ((forall j :: 0 <= j < stop ==> !SupportsGraphics(families[j]))
                  || (forall j :: 0 <= j < stop ==> !families[j].presentSupport))
    // an incomplete result: the whole list was scanned, each stored index is the last of its kind
    ensures !IsComplete(indices) ==>
              (indices.graphicsFamily.Some? ==>
                 forall j :: indices.graphicsFamily.value < j < |families| ==> !SupportsGraphics(families[j]))
              && (indices.graphicsFamily.None? ==> forall j :: 0 <= j < |families| ==> !SupportsGraphics(families[j]))
              && (indices.presentFamily.Some? ==>
                 forall j :: indices.presentFamily.value < j < |families| ==> !families[j].presentSupport)
              && (indices.presentFamily.None? ==> forall j :: 0 <= j < |families| ==> !families[j].presentSupport)
  {
    indices := QueueFamilyIndices(None, None);
    var i := 0;
    while i < |families|
      invariant 0 <= i <= |families|
      invariant !IsComplete(indices)
      invariant indices.graphicsFamily.Some? ==>
                  indices.graphicsFamily.value < i && SupportsGraphics(families[indices.graphicsFamily.value])
                  && forall j :: indices.graphicsFamily.value < j < i ==> !SupportsGraphics(families[j])
      invariant indices.graphicsFamily.None? ==> forall j :: 0 <= j < i ==> !SupportsGraphics(families[j])
      invariant indices.presentFamily.Some? ==>
                  indices.presentFamily.value < i && families[indices.presentFamily.value].presentSupport
                  && forall j :: indices.presentFamily.value < j < i ==> !families[j].presentSupport
      invariant indices.presentFamily.None? ==> forall j :: 0 <= j < i ==> !families[j].presentSupport
    {
      if families[i].queueFlags & QUEUE_GRAPHICS != 0 {
        indices := indices.(graphicsFamily := Some(i));
      }
      if families[i].presentSupport {
        indices := indices.(presentFamily := Some(i));
      }
      if IsComplete(indices) {
        return;
      }
      i := i + 1;
    }
  }

  datatype ImageLayout = Undefined | TransferDstOptimal | ShaderReadOnlyOptimal | DepthStencilAttachmentOptimal
                       | OtherLayout(code: nat)

  /** The masks of the `VkImageMemoryBarrier` and the two stages passed to `vkCmdPipelineBarrier`. */
  datatype Barrier = Barrier(srcAccessMask: bv32, dstAccessMask: bv32, sourceStage: bv32, destinationStage: bv32)

  const ACCESS_SHADER_READ: bv32 := 0x20
  const ACCESS_TRANSFER_WRITE: bv32 := 0x1000
  const PIPELINE_STAGE_TOP_OF_PIPE: bv32 := 0x1
  const PIPELINE_STAGE_FRAGMENT_SHADER: bv32 := 0x80
  const PIPELINE_STAGE_TRANSFER: bv32 := 0x1000

  /** The branch table of `transitionImageLayout`: exactly two transitions are
      supported, each with its access masks and stages; every other pair is rejected. */
  function TransitionBarrier(oldLayout: ImageLayout, newLayout: ImageLayout): (r: Result<Barrier, Failure>)
    ensures r.Ok? <==> (oldLayout == Undefined && newLayout == TransferDstOptimal)
                       || (oldLayout == TransferDstOptimal && newLayout == ShaderReadOnlyOptimal)
    ensures oldLayout == Undefined && newLayout == TransferDstOptimal ==>
              r == Ok(Barrier(0, ACCESS_TRANSFER_WRITE, PIPELINE_STAGE_TOP_OF_PIPE, PIPELINE_STAGE_TRANSFER))
    ensures oldLayout == TransferDstOptimal && newLayout == ShaderReadOnlyOptimal ==>
              r == Ok(Barrier(ACCESS_TRANSFER_WRITE, ACCESS_SHADER_READ, PIPELINE_STAGE_TRANSFER, PIPELINE_STAGE_FRAGMENT_SHADER))
    ensures r.Err? ==> r.error == UnsupportedLayoutTransition
  {
    if oldLayout == Undefined && newLayout == TransferDstOptimal then
      Ok(Barrier(0, ACCESS_TRANSFER_WRITE, PIPELINE_STAGE_TOP_OF_PIPE, PIPELINE_STAGE_TRANSFER))
    else if oldLayout == TransferDstOptimal && newLayout == ShaderReadOnlyOptimal then
      Ok(Barrier(ACCESS_TRANSFER_WRITE, ACCESS_SHADER_READ, PIPELINE_STAGE_TRANSFER, PIPELINE_STAGE_FRAGMENT_SHADER))
    else
      Err(UnsupportedLayoutTransition)
  }

  /** The texture upload runs the two supported transitions back to back
      (undefined, then transfer destination, then shader read). The table chains:
      the second barrier waits on exactly the access and stage the first one made
      available, and the first waits on nothing. No transition leaves the shader
      read layout, and none enters the depth attachment layout. */
  lemma TextureUploadBarriersChain(layout: ImageLayout)
    ensures var first := TransitionBarrier(Undefined, TransferDstOptimal);
            var second := TransitionBarrier(TransferDstOptimal, ShaderReadOnlyOptimal);
            && first.Ok? && second.Ok?
            && first.value.srcAccessMask == 0
            && second.value.srcAccessMask == first.value.dstAccessMask
            && second.value.sourceStage == first.value.destinationStage
    ensures TransitionBarrier(ShaderReadOnlyOptimal, layout).Err?
    ensures TransitionBarrier(layout, DepthStencilAttachmentOptimal).Err?
  {
  }

  /** The fields of the vertex record, in declaration order. */
  datatype VertexField = Position | Color | TexCoord

  /** One `VkVertexInputAttributeDescription`; the byte offset is replaced by the field it names. */
  datatype AttributeDescription = AttributeDescription(binding: nat, location: nat, format: Format, field: VertexField)

  /** `Vertex::getAttributeDescriptions`: three attributes read from binding 0 at
      locations 0, 1 and 2, one per field in declaration order, each with the format
      of its component count (three floats for position and colour, two for
      texture coordinates). */
  function GetAttributeDescriptions(): (a: seq<AttributeDescription>)
    ensures |a| == 3
    ensures forall i :: 0 <= i < |a| ==> a[i].binding == 0 && a[i].location == i
    ensures a[0].field == Position && a[1].field == Color && a[2].field == TexCoord
    ensures forall i :: 0 <= i < |a| ==>
              a[i].format == (if a[i].field == TexCoord then R32G32Sfloat else R32G32B32Sfloat)
  {
    [ AttributeDescription(0, 0, R32G32B32Sfloat, Position),
      AttributeDescription(0, 1, R32G32B32Sfloat, Color),
      AttributeDescription(0, 2, R32G32Sfloat, TexCoord) ]
  }

  /** Each field of the vertex is described exactly once, and no two attributes share a location. */
  lemma AttributeDescriptionsCoverVertex(f: VertexField)
    ensures exists i :: 0 <= i < 3 && GetAttributeDescriptions()[i].field == f
    ensures forall i, j :: 0 <= i < j < 3 ==>
              GetAttributeDescriptions()[i].location != GetAttributeDescriptions()[j].location
              && GetAttributeDescriptions()[i].field != GetAttributeDescriptions()[j].field
  {
    var a := GetAttributeDescriptions();
    match f
    case Position => assert a[0].field == f;
    case Color => assert a[1].field == f;
    case TexCoord => assert a[2].field == f;
  }
}
