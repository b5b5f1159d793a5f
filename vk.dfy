/**
 * The slice of the Vulkan API that the demo's decision logic reads: enumerant
 * values (as in vulkan_core.h), flag words, and the records the driver fills in.
 * Driver handles are abstract numbers; nothing here calls the driver.
 */
module Vk {

  /** uint32_t. */
  type U32 = x: int | 0 <= x < 0x1_0000_0000

  const UINT32_MAX: U32 := 0xFFFF_FFFF

  // VkPresentModeKHR
  type PresentMode = int
  const PRESENT_MODE_FIFO: PresentMode := 2
  const PRESENT_MODE_FIFO_RELAXED: PresentMode := 3

  // VkFormat and VkColorSpaceKHR
  type Format = int
  type ColorSpace = int
  const FORMAT_UNDEFINED: Format := 0
  const FORMAT_B8G8R8A8_SRGB: Format := 50
  const COLOR_SPACE_SRGB_NONLINEAR: ColorSpace := 0

  // Flag bits
  const QUEUE_GRAPHICS_BIT: bv32 := 0x1
  const IMAGE_USAGE_COLOR_ATTACHMENT_BIT: bv32 := 0x10
  const SURFACE_TRANSFORM_IDENTITY_BIT: bv32 := 0x1

  /** The window size the demo asks for (the globals WIDTH and HEIGHT). */
  const WIDTH: U32 := 1280
  const HEIGHT: U32 := 720

  /** Number of frame slots (semaphore pair plus fence) used round-robin. */
  const MAX_FRAMES_IN_FLIGHT: nat := 2

  /** VkSurfaceFormatKHR. */
  datatype SurfaceFormat = SurfaceFormat(format: Format, colorSpace: ColorSpace)

  /** VkExtent2D. */
  datatype Extent2D = Extent2D(width: U32, height: U32)

  /** The fields of VkSurfaceCapabilitiesKHR that swapchain negotiation reads. */
  datatype SurfaceCapabilities = SurfaceCapabilities(
    minImageCount: U32,
    maxImageCount: U32,
    currentExtent: Extent2D,
    minImageExtent: Extent2D,
    maxImageExtent: Extent2D,
    supportedTransforms: bv32,
    currentTransform: bv32,
    supportedUsageFlags: bv32)

  /**
   * One queue family of a physical device: its VkQueueFamilyProperties
   * (flags and queue count) together with the answer of
   * vkGetPhysicalDeviceSurfaceSupportKHR for this family and the surface.
   */
  datatype QueueFamily = QueueFamily(queueFlags: bv32, queueCount: U32, presentSupport: bool)

  /** A physical device as the enumeration reports it: an opaque handle and its queue families. */
  datatype PhysicalDevice = PhysicalDevice(handle: nat, queueFamilies: seq<QueueFamily>)
}
