/** The name the demo prints for the API version the loader reports. */
module VulkanVersion {
  import opened Vk

  /** VK_MAKE_API_VERSION: variant in bits 29-31, major 22-28, minor 12-21, patch 0-11. */
  function MakeApiVersion(variant: nat, major: nat, minor: nat, patch: nat): int
  {
    variant * 0x2000_0000 + major * 0x40_0000 + minor * 0x1000 + patch
  }

  const API_VERSION_1_0: int := MakeApiVersion(0, 1, 0, 0)
  const API_VERSION_1_1: int := MakeApiVersion(0, 1, 1, 0)
  const API_VERSION_1_2: int := MakeApiVersion(0, 1, 2, 0)

  /** The name of release 1.minor, for the releases the demo knows about (1.0 to 1.2). */
  function ReleaseName(minor: nat): string
    requires minor <= 2
  {
    if minor == 0 then "VK_VERSION_1_0"
    else if minor == 1 then "VK_VERSION_1_1"
    else "VK_VERSION_1_2"
  }

  /** StringifyVulkanVersion as written: each threshold is compared with a strict '>'. */
  function StringifyVulkanVersion(version: U32): (name: string)
    ensures name in {ReleaseName(0), ReleaseName(1), ReleaseName(2), "VK_VERSION_UNKNOWN"}
    ensures name == "VK_VERSION_UNKNOWN" <==> version <= API_VERSION_1_0
  {
    if version > API_VERSION_1_2 then "VK_VERSION_1_2"
    else if version > API_VERSION_1_1 then "VK_VERSION_1_1"
    else if version > API_VERSION_1_0 then "VK_VERSION_1_0"
    else "VK_VERSION_UNKNOWN"
  }

  /** The same classification with '>=', so that a release's own x.y.0 version gets its name. */
  function StringifyVulkanVersionCorrected(version: U32): (name: string)
    ensures name in {ReleaseName(0), ReleaseName(1), ReleaseName(2), "VK_VERSION_UNKNOWN"}
    ensures name == "VK_VERSION_UNKNOWN" <==> version < API_VERSION_1_0
  {
    if version >= API_VERSION_1_2 then "VK_VERSION_1_2"
    else if version >= API_VERSION_1_1 then "VK_VERSION_1_1"
    else if version >= API_VERSION_1_0 then "VK_VERSION_1_0"
    else "VK_VERSION_UNKNOWN"
  }

  /** As written, every patch release 1.minor.patch (patch > 0) of a known release gets that release's name. */
  lemma StringifyNamesPatchReleases(minor: nat, patch: nat)
    requires minor <= 2 && 0 < patch < 0x1000
    ensures StringifyVulkanVersion(MakeApiVersion(0, 1, minor, patch)) == ReleaseName(minor)
  {
  }

  /** As written, the initial release 1.minor.0 is named after the release before it (1.0.0 is "unknown"). */
  lemma StringifyMisnamesInitialReleases()
    ensures StringifyVulkanVersion(API_VERSION_1_2) == "VK_VERSION_1_1" != ReleaseName(2)
    ensures StringifyVulkanVersion(API_VERSION_1_1) == "VK_VERSION_1_0" != ReleaseName(1)
    ensures StringifyVulkanVersion(API_VERSION_1_0) == "VK_VERSION_UNKNOWN" != ReleaseName(0)
  {
  }

  /** Corrected, every version 1.minor.patch of a known release, patch 0 included, gets that release's name. */
  lemma StringifyCorrectedNamesEveryRelease(minor: nat, patch: nat)
    requires minor <= 2 && patch < 0x1000
    ensures StringifyVulkanVersionCorrected(MakeApiVersion(0, 1, minor, patch)) == ReleaseName(minor)
  {
  }

  /** Both variants name every later 1.x release (x > 2) after 1.2, the newest release the demo knows. */
  lemma StringifyNewerReleasesAsLatest(minor: nat, patch: nat)
    requires 2 < minor < 0x400 && patch < 0x1000
    ensures StringifyVulkanVersion(MakeApiVersion(0, 1, minor, patch)) == "VK_VERSION_1_2"
    ensures StringifyVulkanVersionCorrected(MakeApiVersion(0, 1, minor, patch)) == "VK_VERSION_1_2"
  {
  }

  /** Both variants call every version older than 1.0.0 (a 0.x version) unknown. */
  lemma StringifyOlderThanFirstReleaseUnknown(minor: nat, patch: nat)
    requires minor < 0x400 && patch < 0x1000
    ensures StringifyVulkanVersion(MakeApiVersion(0, 0, minor, patch)) == "VK_VERSION_UNKNOWN"
    ensures StringifyVulkanVersionCorrected(MakeApiVersion(0, 0, minor, patch)) == "VK_VERSION_UNKNOWN"
  {
  }

  /** Both variants name any version with a later major number or a non-zero variant after 1.2. */
  lemma StringifyLaterMajorOrVariantAsLatest(variant: nat, major: nat, minor: nat, patch: nat)
    requires variant < 8 && major < 0x80 && minor < 0x400 && patch < 0x1000
    requires variant > 0 || major >= 2
    ensures StringifyVulkanVersion(MakeApiVersion(variant, major, minor, patch)) == "VK_VERSION_1_2"
    ensures StringifyVulkanVersionCorrected(MakeApiVersion(variant, major, minor, patch)) == "VK_VERSION_1_2"
  {
  }
}
