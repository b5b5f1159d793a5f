/**
 * Device bring-up decisions: the queue-family scan, the choice of physical
 * device, the layer and extension filters, and the queue create-infos of the
 * logical device. Driver answers are inputs; a query that does not return
 * VK_SUCCESS is None.
 */
module DeviceSelection {
  import opened Wrappers
  import opened Vk

  /** The errors thrown on the way to a logical device. */
  datatype DeviceError =
    | NoPhysicalDevice          // the enumeration reports no device
    | NoCompatibleDevice        // no device has both a graphics and a present family
    | MissingQueueFamily        // std::optional::value() on an empty index
    | ExtensionQueryFailed      // vkEnumerateDeviceExtensionProperties failed

  /** QueueFamilyIndices: the two optional family indices. */
  datatype QueueFamilyIndices = QueueFamilyIndices(graphicsFamily: Option<nat>, presentFamily: Option<nat>)
  {
    predicate IsComplete()
    {
      graphicsFamily.Some? && presentFamily.Some?
    }
  }

  /** VkDeviceQueueCreateInfo: one queue (priority 1.0) of one family. */
  datatype QueueCreateInfo = QueueCreateInfo(queueFamilyIndex: nat, queueCount: nat)

  /** The negotiated parts of VkDeviceCreateInfo, plus the families the two queues are fetched from. */
  datatype DeviceCreateInfo = DeviceCreateInfo(
    queueCreateInfos: seq<QueueCreateInfo>,
    enabledLayers: seq<string>,
    enabledExtensions: seq<string>,
    graphicsFamily: nat,
    presentFamily: nat)

  /** The layers GetVulkanLayerSupport asks for. */
  const REQUESTED_LAYERS: seq<string> := ["VK_LAYER_KHRONOS_validation"]

  /** The device extensions CreateVulkanLogicalDevice asks for. */
  const REQUESTED_DEVICE_EXTENSIONS: seq<string> := ["VK_KHR_swapchain"]

  // ---------------------------------------------------------------------------
  // Queue families

  datatype QueueKind = Graphics | Present

  /** A family serves graphics when it has a queue and the graphics bit; presentation when the surface query said so. */
  predicate Supports(f: QueueFamily, kind: QueueKind)
  {
    match kind
    case Graphics => f.queueCount > 0 && f.queueFlags & QUEUE_GRAPHICS_BIT != 0
    case Present => f.presentSupport
  }

  /** Some family of the list serves `kind`. */
  predicate HasFamily(fs: seq<QueueFamily>, kind: QueueKind)
  {
    exists i :: 0 <= i < |fs| && Supports(fs[i], kind)
  }

  /** Some family among the first n serves `kind`. */
  predicate HasFamilyBefore(fs: seq<QueueFamily>, n: nat, kind: QueueKind)
    requires n <= |fs|
  {
    exists i :: 0 <= i < n && Supports(fs[i], kind)
  }

  /** Both kinds have been seen among the families up to and including position k. */
  predicate BothSeenBy(fs: seq<QueueFamily>, k: nat)
    requires k < |fs|
  {
    HasFamilyBefore(fs, k + 1, Graphics) && HasFamilyBefore(fs, k + 1, Present)
  }

  /** A device is compatible when it has a graphics family and a present family. */
  predicate IsCompatible(d: PhysicalDevice)
  {
    HasFamily(d.queueFamilies, Graphics) && HasFamily(d.queueFamilies, Present)
  }

  function Max(a: nat, b: nat): nat
  {
    if a < b then b else a
  }

  /** The first family that serves `kind`. */
  function FirstFamily(fs: seq<QueueFamily>, kind: QueueKind): (r: Option<nat>)
    ensures r.Some? ==> (r.value < |fs| && Supports(fs[r.value], kind)
      && forall k :: 0 <= k < r.value ==> !Supports(fs[k], kind))
    ensures r.None? ==> !HasFamily(fs, kind)
  {
    if |fs| == 0 then None
    else if Supports(fs[0], kind) then Some(0)
    else match FirstFamily(fs[1..], kind)
      case None => (assert forall k :: 1 <= k < |fs| ==> fs[1..][k - 1] == fs[k]; None)
      case Some(k) => (assert forall j :: 1 <= j < k + 1 ==> fs[1..][j - 1] == fs[j]; Some(k + 1))
  }

  /** The last family before position n that serves `kind`. */
  function LastFamilyBefore(fs: seq<QueueFamily>, n: nat, kind: QueueKind): (r: Option<nat>)
    requires n <= |fs|
    ensures r.Some? ==> (r.value < n && Supports(fs[r.value], kind)
      && forall k :: r.value < k < n ==> !Supports(fs[k], kind))
    ensures r.None? ==> forall k :: 0 <= k < n ==> !Supports(fs[k], kind)
    decreases n
  {
    if n == 0 then None
    else if Supports(fs[n - 1], kind) then Some(n - 1)
    else LastFamilyBefore(fs, n - 1, kind)
  }

  /** A family of `kind` lies before n exactly when the first such family does. */
  lemma {:induction false} LastBeforeIffFirstBefore(fs: seq<QueueFamily>, n: nat, kind: QueueKind)
    requires n <= |fs|
    ensures LastFamilyBefore(fs, n, kind).Some? <==> FirstFamily(fs, kind).Some? && FirstFamily(fs, kind).value < n
  {
    var first := FirstFamily(fs, kind);
    var last := LastFamilyBefore(fs, n, kind);
    if last.Some? {
      assert HasFamily(fs, kind) by { assert Supports(fs[last.value], kind); }
      assert first.value <= last.value;
    }
    if first.Some? && first.value < n {
      assert Supports(fs[first.value], kind);
    }
  }

  /**
   * How many families GetVulkanQueueFamilies examines: up to and including
   * the first position by which both kinds have been seen, or all of them.
   */
  function ScanLength(fs: seq<QueueFamily>): (n: nat)
    ensures n <= |fs|
  {
    var g := FirstFamily(fs, Graphics);
    var p := FirstFamily(fs, Present);
    if g.Some? && p.Some? then Max(g.value, p.value) + 1 else |fs|
  }

  /**
   * What the scan returns: for each kind, the last family of that kind among
   * the families examined (a later family overwrites an earlier index).
   */
  function QueueFamiliesOf(fs: seq<QueueFamily>): (r: QueueFamilyIndices)
    ensures r.graphicsFamily.Some? ==> r.graphicsFamily.value < |fs| && Supports(fs[r.graphicsFamily.value], Graphics)
    ensures r.presentFamily.Some? ==> r.presentFamily.value < |fs| && Supports(fs[r.presentFamily.value], Present)
    ensures r.IsComplete() <==> HasFamily(fs, Graphics) && HasFamily(fs, Present)
  {
    var n := ScanLength(fs);
    var r := QueueFamilyIndices(LastFamilyBefore(fs, n, Graphics), LastFamilyBefore(fs, n, Present));
    LastBeforeIffFirstBefore(fs, n, Graphics);
    LastBeforeIffFirstBefore(fs, n, Present);
    r
  }

  /**
   * The scan stops at the first position m where both kinds have been seen:
   * the indices it returns have m as their maximum, no earlier position had
   * both, and each index is the last family of its kind up to m.
   */
  lemma {:induction false} QueueFamilyScanStopsEarly(fs: seq<QueueFamily>)
    requires QueueFamiliesOf(fs).IsComplete()
    ensures var r := QueueFamiliesOf(fs);
      var g, p := r.graphicsFamily.value, r.presentFamily.value;
      var m := Max(g, p);
      && (forall k :: 0 <= k < m ==> !BothSeenBy(fs, k))
      && (forall k :: g < k <= m ==> !Supports(fs[k], Graphics))
      && (forall k :: p < k <= m ==> !Supports(fs[k], Present))
  {
    var r := QueueFamiliesOf(fs);
    var g, p := r.graphicsFamily.value, r.presentFamily.value;
    var fg, fp := FirstFamily(fs, Graphics), FirstFamily(fs, Present);
    var n := ScanLength(fs);
    LastBeforeIffFirstBefore(fs, n, Graphics);
    LastBeforeIffFirstBefore(fs, n, Present);
    assert n == Max(fg.value, fp.value) + 1;
    assert Supports(fs[fg.value], Graphics) && Supports(fs[fp.value], Present);
    assert fg.value <= g && fp.value <= p;
    assert Max(g, p) == n - 1;
    forall k | 0 <= k < Max(g, p)
      ensures !BothSeenBy(fs, k)
    {
      if HasFamilyBefore(fs, k + 1, Graphics) {
        var i :| 0 <= i < k + 1 && Supports(fs[i], Graphics);
        assert fg.value <= i;
      }
      if HasFamilyBefore(fs, k + 1, Present) {
        var i :| 0 <= i < k + 1 && Supports(fs[i], Present);
        assert fp.value <= i;
      }
    }
  }

  /**
   * GetVulkanQueueFamilies: for each family in turn, record it as the
   * graphics family if it qualifies, then as the present family if it
   * qualifies, and stop once both are recorded.
   */
  method GetQueueFamilies(fs: seq<QueueFamily>) returns (indices: QueueFamilyIndices)
    ensures indices == QueueFamiliesOf(fs)
  {
    indices := QueueFamilyIndices(None, None);
    var i := 0;
    while i < |fs|
      invariant 0 <= i <= |fs|
      invariant indices.graphicsFamily == LastFamilyBefore(fs, i, Graphics)
      invariant indices.presentFamily == LastFamilyBefore(fs, i, Present)
      invariant !indices.IsComplete()
    {
      if fs[i].queueCount > 0 && fs[i].queueFlags & QUEUE_GRAPHICS_BIT != 0 {
        indices := indices.(graphicsFamily := Some(i));
      }
      if fs[i].presentSupport {
        indices := indices.(presentFamily := Some(i));
      }
      if indices.IsComplete() {
        ScanStopsHere(fs, i);
        break;
      }
      i := i + 1;
    }
    if i == |fs| {
      LastBeforeIffFirstBefore(fs, |fs|, Graphics);
      LastBeforeIffFirstBefore(fs, |fs|, Present);
    }
  }

  /** If both kinds are first seen together by position i, the scan length is i + 1. */
  lemma ScanStopsHere(fs: seq<QueueFamily>, i: nat)
    requires i < |fs|
    requires !(LastFamilyBefore(fs, i, Graphics).Some? && LastFamilyBefore(fs, i, Present).Some?)
    requires LastFamilyBefore(fs, i + 1, Graphics).Some? && LastFamilyBefore(fs, i + 1, Present).Some?
    ensures ScanLength(fs) == i + 1
    ensures QueueFamiliesOf(fs) == QueueFamilyIndices(LastFamilyBefore(fs, i + 1, Graphics), LastFamilyBefore(fs, i + 1, Present))
  {
    LastBeforeIffFirstBefore(fs, i, Graphics);
    LastBeforeIffFirstBefore(fs, i, Present);
    LastBeforeIffFirstBefore(fs, i + 1, Graphics);
    LastBeforeIffFirstBefore(fs, i + 1, Present);
  }

  /** IsVulkanDeviceCompatible: the scan finds both families. */
  method IsDeviceCompatible(d: PhysicalDevice) returns (ok: bool)
    ensures ok <==> IsCompatible(d)
  {
    var indices := GetQueueFamilies(d.queueFamilies);
    ok := indices.IsComplete();
  }

  // ---------------------------------------------------------------------------
  // Physical device

  /**
   * GetVulkanPhysicalDevice: an empty enumeration is an error; otherwise the
   * first compatible device in enumeration order, or an error when there is
   * none. The result is the device's position in the enumeration.
   */
  method GetPhysicalDevice(devices: seq<PhysicalDevice>) returns (r: Result<nat, DeviceError>)
    ensures r == Failure(NoPhysicalDevice) <==> |devices| == 0
    ensures r == Failure(NoCompatibleDevice) <==>
      |devices| > 0 && forall k :: 0 <= k < |devices| ==> !IsCompatible(devices[k])
    ensures r.Success? ==> (r.value < |devices| && IsCompatible(devices[r.value])
      && forall k :: 0 <= k < r.value ==> !IsCompatible(devices[k]))
    ensures r.Failure? ==> r.error == NoPhysicalDevice || r.error == NoCompatibleDevice
  {
    if |devices| == 0 {
      return Failure(NoPhysicalDevice);
    }
    var i := 0;
    while i < |devices|
      invariant 0 <= i <= |devices|
      invariant forall k :: 0 <= k < i ==> !IsCompatible(devices[k])
    {
      var compatible := IsDeviceCompatible(devices[i]);
      if compatible {
        return Success(i);
      }
      i := i + 1;
    }
    return Failure(NoCompatibleDevice);
  }

  // ---------------------------------------------------------------------------
  // Layer and extension filters

  /** The available entries that were requested, in the order and with the repetitions of `available`. */
  function KeepRequested<T(==)>(available: seq<T>, requested: seq<T>): seq<T>
  {
    if |available| == 0 then []
    else
      var last := available[|available| - 1];
      KeepRequested(available[..|available| - 1], requested) + (if last in requested then [last] else [])
  }

  /** Exactly the requested entries are kept, each as often as it is available. */
  lemma {:induction false} KeepRequestedCounts<T>(available: seq<T>, requested: seq<T>, x: T)
    ensures multiset(KeepRequested(available, requested))[x] == if x in requested then multiset(available)[x] else 0
  {
    if |available| > 0 {
      var n := |available| - 1;
      assert available == available[..n] + [available[n]];
      KeepRequestedCounts(available[..n], requested, x);
    }
  }

  /** An entry is kept exactly when it is available and requested. */
  lemma KeepRequestedMembers<T>(available: seq<T>, requested: seq<T>, x: T)
    ensures x in KeepRequested(available, requested) <==> x in available && x in requested
  {
    KeepRequestedCounts(available, requested, x);
    assert x in KeepRequested(available, requested) <==> multiset(KeepRequested(available, requested))[x] > 0;
    assert x in available <==> multiset(available)[x] > 0;
  }

  /** The filter loop: walk the available entries and append each one that was requested. */
  method FilterRequested<T(==)>(available: seq<T>, requested: seq<T>) returns (kept: seq<T>)
    ensures kept == KeepRequested(available, requested)
  {
    kept := [];
    var i := 0;
    while i < |available|
      invariant 0 <= i <= |available|
      invariant kept == KeepRequested(available[..i], requested)
    {
      assert available[..i + 1][..i] == available[..i];
      if available[i] in requested {
        kept := kept + [available[i]];
      }
      i := i + 1;
    }
    assert available[..i] == available;
  }

  /**
   * GetVulkanLayerSupport: the available instance layers that were requested.
   * A requested layer that is missing is only reported, never an error.
   */
  method GetLayerSupport(availableLayers: seq<string>) returns (enabled: seq<string>)
    ensures forall x :: x in enabled <==> x in availableLayers && x in REQUESTED_LAYERS
    ensures enabled == KeepRequested(availableLayers, REQUESTED_LAYERS)
  {
    enabled := FilterRequested(availableLayers, REQUESTED_LAYERS);
    forall x ensures x in enabled <==> x in availableLayers && x in REQUESTED_LAYERS {
      KeepRequestedMembers(availableLayers, REQUESTED_LAYERS, x);
    }
  }

  // ---------------------------------------------------------------------------
  // Logical device

  /** The families of a list of queue create-infos. */
  function Families(infos: seq<QueueCreateInfo>): set<nat>
  {
    set i | 0 <= i < |infos| :: infos[i].queueFamilyIndex
  }

  /**
   * One create-info per element of std::set{graphics, present}, visited in
   * ascending order, each asking for one queue.
   */
  method BuildQueueCreateInfos(graphics: nat, present: nat) returns (infos: seq<QueueCreateInfo>)
    ensures Families(infos) == {graphics, present}
    ensures |infos| == |{graphics, present}|
    ensures forall i, j :: 0 <= i < j < |infos| ==> infos[i].queueFamilyIndex < infos[j].queueFamilyIndex
    ensures forall i :: 0 <= i < |infos| ==> infos[i].queueCount == 1
  {
    var uniqueFamilies: seq<nat> :=
      if graphics == present then [graphics]
      else if graphics < present then [graphics, present]
      else [present, graphics];
    infos := [];
    var i := 0;
    while i < |uniqueFamilies|
      invariant 0 <= i <= |uniqueFamilies|
      invariant |infos| == i
      invariant forall k :: 0 <= k < i ==> infos[k] == QueueCreateInfo(uniqueFamilies[k], 1)
    {
      infos := infos + [QueueCreateInfo(uniqueFamilies[i], 1)];
      i := i + 1;
    }
    assert forall k :: 0 <= k < |infos| ==> infos[k].queueFamilyIndex == uniqueFamilies[k];
    assert Families(infos) == {graphics, present} by {
      if graphics == present {
        assert infos[0].queueFamilyIndex == graphics;
      } else {
        assert infos[0].queueFamilyIndex in Families(infos);
        assert infos[1].queueFamilyIndex in Families(infos);
      }
    }
  }

  /**
   * The configuration CreateVulkanLogicalDevice hands to vkCreateDevice.
   * Both family indices must be present; the device extensions are queried
   * (a failed query throws) and filtered; a missing requested extension is
   * only reported; the layers are passed through.
   */
  method CreateLogicalDevice(device: PhysicalDevice, extensionQuery: Option<seq<string>>, layers: seq<string>)
    returns (r: Result<DeviceCreateInfo, DeviceError>)
    ensures !IsCompatible(device) <==> r == Failure(MissingQueueFamily)
    ensures IsCompatible(device) && extensionQuery.None? <==> r == Failure(ExtensionQueryFailed)
    ensures r.Success? <==> IsCompatible(device) && extensionQuery.Some?
    ensures r.Success? ==>
      var info := r.value;
      var indices := QueueFamiliesOf(device.queueFamilies);
      && info.graphicsFamily == indices.graphicsFamily.value
      && info.presentFamily == indices.presentFamily.value
      && Families(info.queueCreateInfos) == {info.graphicsFamily, info.presentFamily}
      && |info.queueCreateInfos| == |{info.graphicsFamily, info.presentFamily}|
      && (forall i :: 0 <= i < |info.queueCreateInfos| ==> info.queueCreateInfos[i].queueCount == 1)
      && info.enabledLayers == layers
      && info.enabledExtensions == KeepRequested(extensionQuery.value, REQUESTED_DEVICE_EXTENSIONS)
  {
    var indices := GetQueueFamilies(device.queueFamilies);
    if !indices.IsComplete() {
      return Failure(MissingQueueFamily);
    }
    var graphics, present := indices.graphicsFamily.value, indices.presentFamily.value;
    if extensionQuery.None? {
      return Failure(ExtensionQueryFailed);
    }
    var enabledExtensions := FilterRequested(extensionQuery.value, REQUESTED_DEVICE_EXTENSIONS);
    var infos := BuildQueueCreateInfos(graphics, present);
    return Success(DeviceCreateInfo(infos, layers, enabledExtensions, graphics, present));
  }
}
