/**
 * Swapchain configuration negotiation (the choices inside CreateVulkanSwapchain
 * and its helpers). Every driver query is an input: a query that returns
 * something other than VK_SUCCESS is None.
 */
module SwapchainNegotiation {
  import opened Wrappers
  import opened Vk

  /** The errors negotiation can throw before vkCreateSwapchainKHR is reached. */
  datatype SwapchainError =
    | CapabilitiesQueryFailed
    | PresentModesQueryFailed
    | FormatsQueryFailed
    | UnsupportedUsage(flag: bv32)

  /** The answers of the three driver queries the negotiation makes. */
  datatype SurfaceQueries = SurfaceQueries(
    capabilities: Option<SurfaceCapabilities>,
    presentModes: Option<seq<PresentMode>>,
    formats: Option<seq<SurfaceFormat>>)

  /**
   * The negotiated fields of VkSwapchainCreateInfoKHR. The rest are constants:
   * one array layer, exclusive sharing, opaque composite alpha, clipped.
   */
  datatype SwapchainConfig = SwapchainConfig(
    minImageCount: U32,
    imageFormat: SurfaceFormat,
    imageExtent: Extent2D,
    imageUsage: bv32,
    preTransform: bv32,
    presentMode: PresentMode)

  /** The value currentExtent.width is compared with (28 one bits, as written). */
  const EXTENT_SENTINEL: U32 := 0xFFF_FFFF

  /** The usages the swapchain images must support. */
  const REQUESTED_USAGES: seq<bv32> := [IMAGE_USAGE_COLOR_ATTACHMENT_BIT]

  /** The present mode the demo prefers. */
  const PREFERRED_PRESENT_MODE: PresentMode := PRESENT_MODE_FIFO_RELAXED

  // ---------------------------------------------------------------------------
  // clamp

  /** clamp<uint32_t>: min below the range, max above it, the value itself otherwise. */
  function Clamp(value: U32, min: U32, max: U32): (r: U32)
    ensures r == min || r == max || r == value
    ensures min <= max ==> min <= r <= max
    ensures min <= max ==> (r == value <==> min <= value <= max)
    ensures min <= max ==> (value < min ==> r == min) && (value > max ==> r == max)
  {
    if value < min then min else if value > max then max else value
  }

  /** Clamping an already clamped value changes nothing. */
  lemma ClampIdempotent(value: U32, min: U32, max: U32)
    requires min <= max
    ensures Clamp(Clamp(value, min, max), min, max) == Clamp(value, min, max)
  {
  }

  // ---------------------------------------------------------------------------
  // Image count

  /**
   * The image count: min + 1 unless that exceeds maxImageCount, in which case
   * min. The sum is taken in uint32_t, so it wraps when min is UINT32_MAX.
   */
  function SwapImageCount(caps: SurfaceCapabilities): (count: U32)
    ensures caps.minImageCount < UINT32_MAX ==>
      count == (if caps.minImageCount + 1 > caps.maxImageCount then caps.minImageCount
                else caps.minImageCount + 1)
    ensures caps.minImageCount < UINT32_MAX ==> caps.minImageCount <= count <= caps.minImageCount + 1
    ensures caps.minImageCount < UINT32_MAX ==> (count == caps.minImageCount + 1 <==> caps.minImageCount < caps.maxImageCount)
    ensures caps.minImageCount < caps.maxImageCount ==> count <= caps.maxImageCount
    ensures caps.maxImageCount == 0 && caps.minImageCount < UINT32_MAX ==> count == caps.minImageCount
    ensures caps.minImageCount == UINT32_MAX ==> count == 0
  {
    var next := (caps.minImageCount + 1) % 0x1_0000_0000;
    if next > caps.maxImageCount then caps.minImageCount else next
  }

  // ---------------------------------------------------------------------------
  // Extent

  /**
   * The image extent: when currentExtent.width is the sentinel, the window size
   * clamped into the surface's range, component by component; otherwise the
   * current extent itself.
   */
  function SwapExtent(caps: SurfaceCapabilities): (e: Extent2D)
    ensures caps.currentExtent.width != EXTENT_SENTINEL ==> e == caps.currentExtent
    ensures caps.currentExtent.width == EXTENT_SENTINEL && caps.minImageExtent.width <= caps.maxImageExtent.width ==>
      caps.minImageExtent.width <= e.width <= caps.maxImageExtent.width
    ensures caps.currentExtent.width == EXTENT_SENTINEL && caps.minImageExtent.height <= caps.maxImageExtent.height ==>
      caps.minImageExtent.height <= e.height <= caps.maxImageExtent.height
    ensures caps.currentExtent.width == EXTENT_SENTINEL && caps.minImageExtent.width <= WIDTH <= caps.maxImageExtent.width ==>
      e.width == WIDTH
    ensures caps.currentExtent.width == EXTENT_SENTINEL && caps.minImageExtent.height <= HEIGHT <= caps.maxImageExtent.height ==>
      e.height == HEIGHT
    ensures caps.currentExtent.width == EXTENT_SENTINEL && WIDTH < caps.minImageExtent.width ==>
      e.width == caps.minImageExtent.width
    ensures caps.currentExtent.width == EXTENT_SENTINEL && caps.minImageExtent.width <= WIDTH && caps.maxImageExtent.width < WIDTH ==>
      e.width == caps.maxImageExtent.width
    ensures caps.currentExtent.width == EXTENT_SENTINEL && HEIGHT < caps.minImageExtent.height ==>
      e.height == caps.minImageExtent.height
    ensures caps.currentExtent.width == EXTENT_SENTINEL && caps.minImageExtent.height <= HEIGHT && caps.maxImageExtent.height < HEIGHT ==>
      e.height == caps.maxImageExtent.height
  {
    if caps.currentExtent.width == EXTENT_SENTINEL then
      Extent2D(Clamp(WIDTH, caps.minImageExtent.width, caps.maxImageExtent.width),
               Clamp(HEIGHT, caps.minImageExtent.height, caps.maxImageExtent.height))
    else
      caps.currentExtent
  }

  /**
   * The Vulkan "use the window size" sentinel is 0xFFFFFFFF, which differs from
   * the 28-bit literal compared with: such a surface gets its reported extent
   * verbatim, outside its own maximum.
   */
  lemma SentinelOfVulkanPassedThrough(caps: SurfaceCapabilities)
    requires caps.currentExtent == Extent2D(UINT32_MAX, UINT32_MAX)
    requires caps.maxImageExtent.width < UINT32_MAX
    ensures SwapExtent(caps) == Extent2D(UINT32_MAX, UINT32_MAX)
    ensures SwapExtent(caps).width > caps.maxImageExtent.width
  {
  }

  // ---------------------------------------------------------------------------
  // Usage flags

  /** Bitwise OR of all flags. */
  function OrAll(flags: seq<bv32>): bv32
  {
    if |flags| == 0 then 0 else OrAll(flags[..|flags| - 1]) | flags[|flags| - 1]
  }

  /** Every bit of flag is among the supported bits. */
  predicate Supported(flag: bv32, supported: bv32)
  {
    flag & supported == flag
  }

  /** Each flag is already contained in the OR of all of them. */
  lemma {:induction false} OrAllAbsorbs(flags: seq<bv32>, k: nat)
    requires k < |flags|
    ensures flags[k] | OrAll(flags) == OrAll(flags)
  {
    var n := |flags| - 1;
    if k < n {
      assert (flags[..n])[k] == flags[k];
      OrAllAbsorbs(flags[..n], k);
    }
  }

  /** The OR of supported flags is supported. */
  lemma {:induction false} OrAllSupported(flags: seq<bv32>, supported: bv32)
    requires AllSupported(flags, supported)
    ensures Supported(OrAll(flags), supported)
  {
    if |flags| > 0 {
      var n := |flags| - 1;
      assert AllSupported(flags[..n], supported) by {
        forall i | 0 <= i < n
          ensures Supported(flags[..n][i], supported)
        {
          assert flags[..n][i] == flags[i];
        }
      }
      OrAllSupported(flags[..n], supported);
      SupportedOr(OrAll(flags[..n]), flags[n], supported);
    }
  }

  /** Two supported flags combine into a supported flag. */
  lemma SupportedOr(a: bv32, b: bv32, supported: bv32)
    requires Supported(a, supported) && Supported(b, supported)
    ensures Supported(a | b, supported)
  {
  }

  /** Every requested usage is supported. */
  predicate AllSupported(requested: seq<bv32>, supported: bv32)
  {
    forall i :: 0 <= i < |requested| ==> Supported(requested[i], supported)
  }

  /** requested[i] is the first requested usage that is not supported. */
  predicate FirstUnsupported(requested: seq<bv32>, supported: bv32, i: nat)
    requires i < |requested|
  {
    !Supported(requested[i], supported) && forall j :: 0 <= j < i ==> Supported(requested[j], supported)
  }

  /** The flags after the first i requested usages, seeded with the first one. */
  function Seeded(flags: seq<bv32>, i: nat): bv32
    requires 0 < |flags| && i <= |flags|
  {
    flags[0] | OrAll(flags[..i])
  }

  /** One more requested usage, ORed into flags seeded with the first one. */
  lemma OrAllStep(flags: seq<bv32>, i: nat)
    requires 0 < |flags| && i < |flags|
    ensures Seeded(flags, i) | flags[i] == Seeded(flags, i + 1)
  {
    assert flags[..i + 1][..i] == flags[..i];
  }

  /** After the last flag, the seed is absorbed and every flag is supported. */
  lemma OrAllDone(flags: seq<bv32>, supported: bv32)
    requires 0 < |flags|
    requires AllSupported(flags, supported)
    ensures Seeded(flags, |flags|) == OrAll(flags) && Supported(OrAll(flags), supported)
  {
    assert flags[..|flags|] == flags;
    OrAllAbsorbs(flags, 0);
    OrAllSupported(flags, supported);
  }

  /**
   * The usage-flag check: the first requested usage with a bit missing from
   * supportedUsageFlags is an error; otherwise the flags are the OR of all
   * requested usages, seeded with the first one.
   */
  method ResolveUsageFlags(requested: seq<bv32>, supported: bv32) returns (r: Result<bv32, SwapchainError>)
    requires |requested| > 0
    ensures r.Success? <==> AllSupported(requested, supported)
    ensures r.Failure? ==>
      exists i :: 0 <= i < |requested| && r.error == UnsupportedUsage(requested[i]) && FirstUnsupported(requested, supported, i)
    ensures r.Success? ==> r.value == OrAll(requested) && Supported(r.value, supported)
  {
    var usage := requested[0];
    var i := 0;
    while i < |requested|
      invariant 0 <= i <= |requested|
      invariant AllSupported(requested[..i], supported)
      invariant usage == Seeded(requested, i)
    {
      var imageUsage := requested[i] & supported;
      if imageUsage != requested[i] {
        assert FirstUnsupported(requested, supported, i) by {
          assert forall j :: 0 <= j < i ==> requested[..i][j] == requested[j];
        }
        return Failure(UnsupportedUsage(requested[i]));
      }
      assert AllSupported(requested[..i + 1], supported) by {
        assert forall j :: 0 <= j < i ==> requested[..i + 1][j] == requested[..i][j];
      }
      OrAllStep(requested, i);
      usage := usage | requested[i];
      i := i + 1;
    }
    assert requested[..i] == requested;
    OrAllDone(requested, supported);
    return Success(usage);
  }

  // ---------------------------------------------------------------------------
  // Transform

  /** The pre-transform: identity when the surface supports it, the current transform otherwise. */
  function PreTransform(caps: SurfaceCapabilities): (t: bv32)
    ensures t == SURFACE_TRANSFORM_IDENTITY_BIT || t == caps.currentTransform
    ensures caps.supportedTransforms & SURFACE_TRANSFORM_IDENTITY_BIT != 0 ==> t == SURFACE_TRANSFORM_IDENTITY_BIT
    ensures t != caps.currentTransform ==> caps.supportedTransforms & SURFACE_TRANSFORM_IDENTITY_BIT != 0
  {
    if caps.supportedTransforms & SURFACE_TRANSFORM_IDENTITY_BIT != 0 then SURFACE_TRANSFORM_IDENTITY_BIT
    else caps.currentTransform
  }

  // ---------------------------------------------------------------------------
  // Present mode

  /** GetVulkanPresentationMode: scan for the preferred mode, fall back to FIFO. */
  function GetPresentationMode(available: seq<PresentMode>, preferred: PresentMode): (mode: PresentMode)
    ensures preferred in available ==> mode == preferred
    ensures preferred !in available ==> mode == PRESENT_MODE_FIFO
    ensures mode == preferred || mode == PRESENT_MODE_FIFO
  {
    if |available| == 0 then PRESENT_MODE_FIFO
    else if available[0] == preferred then preferred
    else
      assert available == [available[0]] + available[1..];
      GetPresentationMode(available[1..], preferred)
  }

  // ---------------------------------------------------------------------------
  // Surface format

  /** Index of the first entry, at or after `from`, whose pixel format is `format`. */
  function FindFormat(formats: seq<SurfaceFormat>, format: Format, from: nat): (k: Option<nat>)
    requires from <= |formats|
    ensures k.Some? ==> from <= k.value < |formats| && formats[k.value].format == format
    ensures k.None? ==> forall i :: from <= i < |formats| ==> formats[i].format != format
    decreases |formats| - from
  {
    if from == |formats| then None
    else if formats[from].format == format then Some(from)
    else FindFormat(formats, format, from + 1)
  }

  /** Index of the first entry, at or after `from`, whose colour space is `space`. */
  function FindColorSpace(formats: seq<SurfaceFormat>, space: ColorSpace, from: nat): (k: Option<nat>)
    requires from <= |formats|
    ensures k.Some? ==> from <= k.value < |formats| && formats[k.value].colorSpace == space
    ensures k.None? ==> forall i :: from <= i < |formats| ==> formats[i].colorSpace != space
    decreases |formats| - from
  {
    if from == |formats| then None
    else if formats[from].colorSpace == space then Some(from)
    else FindColorSpace(formats, space, from + 1)
  }

  /** The single entry UNDEFINED means that any format may be used. */
  predicate AnyFormat(formats: seq<SurfaceFormat>)
  {
    |formats| == 1 && formats[0].format == FORMAT_UNDEFINED
  }

  /**
   * GetVulkanImageFormat. The list must not be empty: its first entry is read
   * without a check. The colour-space search runs over the whole list, not only
   * over the entries whose format was chosen.
   */
  function GetImageFormat(formats: seq<SurfaceFormat>): (chosen: SurfaceFormat)
    requires |formats| > 0
    ensures AnyFormat(formats) ==> chosen == SurfaceFormat(FORMAT_B8G8R8A8_SRGB, COLOR_SPACE_SRGB_NONLINEAR)
    ensures !AnyFormat(formats) && (exists i :: 0 <= i < |formats| && formats[i].format == FORMAT_B8G8R8A8_SRGB) ==>
      chosen.format == FORMAT_B8G8R8A8_SRGB
      && chosen.colorSpace == if exists j :: 0 <= j < |formats| && formats[j].colorSpace == COLOR_SPACE_SRGB_NONLINEAR
                              then COLOR_SPACE_SRGB_NONLINEAR else formats[0].colorSpace
    ensures !AnyFormat(formats) && (forall i :: 0 <= i < |formats| ==> formats[i].format != FORMAT_B8G8R8A8_SRGB) ==>
      chosen == formats[0]
    ensures !AnyFormat(formats) ==>
      (exists i :: 0 <= i < |formats| && formats[i].format == chosen.format)
      && (exists j :: 0 <= j < |formats| && formats[j].colorSpace == chosen.colorSpace)
  {
    if AnyFormat(formats) then
      SurfaceFormat(FORMAT_B8G8R8A8_SRGB, COLOR_SPACE_SRGB_NONLINEAR)
    else
      match FindFormat(formats, FORMAT_B8G8R8A8_SRGB, 0)
      case Some(outer) =>
        (match FindColorSpace(formats, COLOR_SPACE_SRGB_NONLINEAR, 0)
         case Some(inner) => SurfaceFormat(formats[outer].format, formats[inner].colorSpace)
         case None => SurfaceFormat(formats[outer].format, formats[0].colorSpace))
      case None => formats[0]
  }

  /**
   * Because the two searches are independent, the pair chosen need not be one
   * the surface offers: B8G8R8A8_SRGB offered only with another colour space,
   * and SRGB_NONLINEAR offered only with another format, combine.
   */
  lemma MixedPairChosen(other: Format, space: ColorSpace)
    requires other != FORMAT_B8G8R8A8_SRGB && space != COLOR_SPACE_SRGB_NONLINEAR
    ensures var formats := [SurfaceFormat(FORMAT_B8G8R8A8_SRGB, space), SurfaceFormat(other, COLOR_SPACE_SRGB_NONLINEAR)];
      GetImageFormat(formats) == SurfaceFormat(FORMAT_B8G8R8A8_SRGB, COLOR_SPACE_SRGB_NONLINEAR)
      && GetImageFormat(formats) !in formats
  {
    var formats := [SurfaceFormat(FORMAT_B8G8R8A8_SRGB, space), SurfaceFormat(other, COLOR_SPACE_SRGB_NONLINEAR)];
    assert formats[0].format == FORMAT_B8G8R8A8_SRGB;
    assert formats[1].colorSpace == COLOR_SPACE_SRGB_NONLINEAR;
  }

  // ---------------------------------------------------------------------------
  // The whole negotiation

  /**
   * The decisions of CreateVulkanSwapchain, in the order it makes them:
   * capabilities query, present mode, image count, extent, usage check,
   * transform, surface format. Creating the swapchain object is not modelled.
   */
  method NegotiateSwapchain(q: SurfaceQueries) returns (r: Result<SwapchainConfig, SwapchainError>)
    requires (q.capabilities.Some? && q.presentModes.Some? && q.formats.Some?
              && Supported(IMAGE_USAGE_COLOR_ATTACHMENT_BIT, q.capabilities.value.supportedUsageFlags)) ==>
      |q.formats.value| > 0
    ensures q.capabilities.None? ==> r == Failure(CapabilitiesQueryFailed)
    ensures q.capabilities.Some? && q.presentModes.None? ==> r == Failure(PresentModesQueryFailed)
    ensures (q.capabilities.Some? && q.presentModes.Some?
             && !Supported(IMAGE_USAGE_COLOR_ATTACHMENT_BIT, q.capabilities.value.supportedUsageFlags)) ==>
      r == Failure(UnsupportedUsage(IMAGE_USAGE_COLOR_ATTACHMENT_BIT))
    ensures (q.capabilities.Some? && q.presentModes.Some?
             && Supported(IMAGE_USAGE_COLOR_ATTACHMENT_BIT, q.capabilities.value.supportedUsageFlags)
             && q.formats.None?) ==>
      r == Failure(FormatsQueryFailed)
    ensures r.Success? <==>
      (q.capabilities.Some? && q.presentModes.Some? && q.formats.Some?
       && Supported(IMAGE_USAGE_COLOR_ATTACHMENT_BIT, q.capabilities.value.supportedUsageFlags))
    ensures r.Success? ==>
      var caps := q.capabilities.value;
      r.value == SwapchainConfig(
        SwapImageCount(caps),
        GetImageFormat(q.formats.value),
        SwapExtent(caps),
        IMAGE_USAGE_COLOR_ATTACHMENT_BIT,
        PreTransform(caps),
        GetPresentationMode(q.presentModes.value, PREFERRED_PRESENT_MODE))
  {
    if q.capabilities.None? {
      return Failure(CapabilitiesQueryFailed);
    }
    var caps := q.capabilities.value;
    if q.presentModes.None? {
      return Failure(PresentModesQueryFailed);
    }
    var presentMode := GetPresentationMode(q.presentModes.value, PREFERRED_PRESENT_MODE);
    var imageCount := SwapImageCount(caps);
    var extent := SwapExtent(caps);
    var usage := ResolveUsageFlags(REQUESTED_USAGES, caps.supportedUsageFlags);
    if usage.Failure? {
      return Failure(usage.error);
    }
    assert OrAll(REQUESTED_USAGES) == IMAGE_USAGE_COLOR_ATTACHMENT_BIT by {
      assert REQUESTED_USAGES[..0] == [];
    }
    var transform := PreTransform(caps);
    if q.formats.None? {
      return Failure(FormatsQueryFailed);
    }
    var format := GetImageFormat(q.formats.value);
    return Success(SwapchainConfig(imageCount, format, extent, usage.value, transform, presentMode));
  }

  /** The scenario of a {2, 3} image-count surface with a fixed 800x600 extent and no FIFO_RELAXED. */
  lemma ScenarioFixedExtentNoRelaxed(caps: SurfaceCapabilities, modes: seq<PresentMode>)
    requires caps.minImageCount == 2 && caps.maxImageCount == 3 && caps.currentExtent == Extent2D(800, 600)
    requires PRESENT_MODE_FIFO_RELAXED !in modes
    ensures SwapImageCount(caps) == 3
    ensures SwapExtent(caps) == Extent2D(800, 600)
    ensures GetPresentationMode(modes, PREFERRED_PRESENT_MODE) == PRESENT_MODE_FIFO
  {
  }

  /** With maxImageCount 0 (no upper bound) the count stays at minImageCount; it is not raised to min + 1. */
  lemma UnboundedKeepsMinimum(caps: SurfaceCapabilities)
    requires caps.maxImageCount == 0 && caps.minImageCount == 2
    ensures SwapImageCount(caps) == 2
  {
  }
}
