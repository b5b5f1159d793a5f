# AVulkan bring-up and frame loop, in Dafny

AVulkan is a small SDL + Vulkan demo. It brings up an instance, picks a GPU,
creates a logical device and a swapchain, and then runs a render loop. The
loop keeps two frames in flight, guarded by fences and semaphores. This
project models the decisions the demo makes along the way and proves
properties of them:

- **Version name** (`version.dfy`, module `VulkanVersion`): the name printed
  for the loader's API version.
- **Device selection** (`device.dfy`, module `DeviceSelection`): the
  queue-family scan, the compatibility test, the choice of physical device,
  the layer and device-extension filters, and the queue create-infos of the
  logical device.
- **Swapchain negotiation** (`swapchain.dfy`, module `SwapchainNegotiation`):
  `clamp`, the image count, the extent with its sentinel, the usage-flag
  check, the pre-transform, the present mode, the surface format, and their
  order of evaluation and errors in `CreateVulkanSwapchain`.
- **Frame bookkeeping** (`frames.dfy`, module `FrameSync`): a
  `FrameSynchronizer` class with the per-slot fences and semaphores,
  `currentFrame`, and the `imagesInFlight` array, with one method per step of
  a render-loop iteration and a model of the loop itself.
- Shared Vulkan types and constants are in `vk.dfy` (module `Vk`).
  `Option`/`Result` are in `wrappers.dfy`.

Modelling conventions:

- Vulkan enums are integer codes with the values of `vulkan_core.h`.
- Flag words are `bv32`.
- `uint32_t` is the subset type `U32`. Its wrap-around is written out where
  the code relies on it (`minImageCount + 1`).
- A driver query that does not return `VK_SUCCESS` is an input of `None`.
- Fences and semaphores are abstract ids. The GPU finishing a submission is
  an explicit step, `GpuComplete`, which the blocking fence wait takes.
- In `FrameSync`, the ghost field `pending` records which image each slot's
  unfinished submission renders to.
- The ghost fields `submitted` and `presented` record every
  `vkQueueSubmit` and `vkQueuePresentKHR` with the semaphores and fence it
  uses.

Quirks of the code are modelled as written:

- The image count stays at `minImageCount` when `minImageCount + 1 > maxImageCount`.
  This includes `maxImageCount == 0`, which Vulkan uses for "no limit".
  The rule as usually described ("one more than the minimum unless that
  exceeds a set maximum") would give such a surface `min + 1` images. The
  code at AVulkan.cpp:422 gives `min`, and the model follows the code
  (`UnboundedKeepsMinimum`).
- The extent sentinel is the 28-bit literal `0xFFFFFFF`. Vulkan's sentinel
  `0xFFFFFFFF` therefore passes through unchanged
  (`SentinelOfVulkanPassedThrough`).
- The colour-space search runs over the whole format list. The chosen pair
  may therefore be one the surface does not offer (`MixedPairChosen`).
- A missing layer or device extension is only reported. It is never an error.
- The `break` after `SDL_QUIT` leaves the `switch`, not the loop. The frame
  of the quitting iteration is therefore still drawn (`QuitFrameStillDrawn`).
- `GetVulkanQueueFamilies` overwrites an index every time a later family
  qualifies, until both indices are set (`QueueFamiliesOf`,
  `QueueFamilyScanStopsEarly`).

## Model

| member | source | states |
|---|---|---|
| VulkanVersion.StringifyNamesPatchReleases | AVulkan.cpp:51-57 | every patch release 1.m.p with 0 < p of a known release (m ≤ 2) gets that release's name |
| VulkanVersion.StringifyMisnamesInitialReleases | AVulkan.cpp:51-57 | as written, 1.2.0 is named VK_VERSION_1_1, 1.1.0 VK_VERSION_1_0 and 1.0.0 VK_VERSION_UNKNOWN |
| VulkanVersion.StringifyCorrectedNamesEveryRelease | AVulkan.cpp:51-57 | with `>=`, every 1.m.p of a known release, patch 0 included, gets that release's name |
| VulkanVersion.StringifyNewerReleasesAsLatest | AVulkan.cpp:51-57 | any later 1.m release (m > 2) is named VK_VERSION_1_2 by both variants |
| VulkanVersion.StringifyVulkanVersion | AVulkan.cpp:51-57 | the name is one of the three release names or VK_VERSION_UNKNOWN, and it is unknown exactly for versions up to and including 1.0.0 |
| VulkanVersion.StringifyVulkanVersionCorrected | AVulkan.cpp:51-57 | with `>=`: the same four names, unknown exactly for versions below 1.0.0 |
| VulkanVersion.StringifyOlderThanFirstReleaseUnknown | AVulkan.cpp:56 | every 0.m.p version is VK_VERSION_UNKNOWN in both variants |
| VulkanVersion.StringifyLaterMajorOrVariantAsLatest | AVulkan.cpp:53 | every well-formed version with major ≥ 2 or a non-zero variant is named VK_VERSION_1_2 by both variants |
| SwapchainNegotiation.Clamp | AVulkan.cpp:31-34 | result is min, max or the value; when min ≤ max it lies in [min, max], equals the value exactly when the value is in range, and is min below / max above |
| SwapchainNegotiation.ClampIdempotent | AVulkan.cpp:31-34 | clamping a clamped value into the same range changes nothing |
| SwapchainNegotiation.SwapImageCount | AVulkan.cpp:422 | min when min+1 > max, else min+1; never below min; min+1 exactly when min < max; never above max when min < max; min when max is 0; 0 when min+1 wraps |
| SwapchainNegotiation.UnboundedKeepsMinimum | AVulkan.cpp:422 | a surface with maxImageCount 0 and minImageCount 2 gets 2 images, not 3 |
| SwapchainNegotiation.SwapExtent | AVulkan.cpp:424-431 | without the sentinel the current extent exactly; with it, each component is 1280 / 720 when that fits the surface's range, the minimum when it is below the minimum, the maximum when it is above an ordered range, and always within an ordered range |
| SwapchainNegotiation.SentinelOfVulkanPassedThrough | AVulkan.cpp:425 | a current extent of 0xFFFFFFFF x 0xFFFFFFFF is used verbatim, beyond the surface's maximum |
| SwapchainNegotiation.ResolveUsageFlags | AVulkan.cpp:433-446 | succeeds exactly when every requested usage is supported; a failure names the first unsupported one; success gives the OR of all requested usages, and that OR is supported |
| SwapchainNegotiation.PreTransform | AVulkan.cpp:448-455 | identity when the surface supports it, otherwise the current transform |
| SwapchainNegotiation.GetPresentationMode | AVulkan.cpp:365-370 | the preferred mode when it is available, FIFO otherwise; never anything else |
| SwapchainNegotiation.GetImageFormat | AVulkan.cpp:382-410 | a lone UNDEFINED entry gives B8G8R8A8_SRGB/SRGB_NONLINEAR; otherwise, if B8G8R8A8_SRGB is offered, that format with SRGB_NONLINEAR if any entry has it, else entry 0's colour space; otherwise entry 0; the format and the colour space each occur in the list |
| SwapchainNegotiation.MixedPairChosen | AVulkan.cpp:389-401 | B8G8R8A8_SRGB offered only with another colour space and SRGB_NONLINEAR offered only with another format combine into a pair the list does not contain |
| SwapchainNegotiation.NegotiateSwapchain | AVulkan.cpp:415-458 | errors in the code's order (capabilities, present modes, usage, formats); success exactly when all queries succeed and colour attachment is supported; the configuration is the count, format, extent, usage, transform and mode of the functions above |
| SwapchainNegotiation.ScenarioFixedExtentNoRelaxed | AVulkan.cpp:419-431 | a {2, 3}-image surface with a fixed 800x600 extent and no FIFO_RELAXED gets 3 images, 800x600 and FIFO |
| DeviceSelection.QueueFamiliesOf | AVulkan.cpp:228-241 | every index found qualifies for its role; both are found exactly when the device has a graphics family and a present family |
| DeviceSelection.QueueFamilyScanStopsEarly | AVulkan.cpp:239-240 | the scan ends at the first position by which both roles have been seen; each index is the last family of its role up to there |
| DeviceSelection.GetQueueFamilies | AVulkan.cpp:217-244 | the loop with its break returns exactly QueueFamiliesOf of the families |
| DeviceSelection.IsDeviceCompatible | AVulkan.cpp:246-250 | true exactly when the device has both a graphics family and a present family |
| DeviceSelection.GetPhysicalDevice | AVulkan.cpp:252-281 | an empty enumeration fails with NoPhysicalDevice; a non-empty one without a compatible device fails with NoCompatibleDevice; otherwise the first compatible device |
| DeviceSelection.KeepRequestedCounts | AVulkan.cpp:152-157 | the filter keeps each requested entry as often as it is available and drops every other entry |
| DeviceSelection.KeepRequestedMembers | AVulkan.cpp:307-312 | an entry is kept exactly when it is both available and requested |
| DeviceSelection.FilterRequested | AVulkan.cpp:152-157 | the append loop computes KeepRequested of the available and requested entries |
| DeviceSelection.GetLayerSupport | AVulkan.cpp:137-164 | the enabled layers are the available layers that are VK_LAYER_KHRONOS_validation, in enumeration order; a missing layer is not an error |
| DeviceSelection.BuildQueueCreateInfos | AVulkan.cpp:320-327 | one create-info per distinct family of {graphics, present} in ascending order, each with one queue |
| DeviceSelection.CreateLogicalDevice | AVulkan.cpp:283-343 | an incomplete index set fails first, then a failed extension query; otherwise the queue infos of the two families, the given layers and the available VK_KHR_swapchain extension, whether or not it was found |
| FrameSync.NextFrame | AVulkan.cpp:938 | the next slot stays below MAX_FRAMES_IN_FLIGHT and wraps to 0 after the last slot |
| FrameSync.FramesAlternate | AVulkan.cpp:938 | with two slots, consecutive frames use different slots and every other frame the same one |
| FrameSync.LoopOutcomeMeaning | AVulkan.cpp:879-939 | the frames drawn all had accepted submits and none but the last polled quit; the loop ends on quit exactly after a quitting frame, on a failed submit exactly at the first rejected one, and on running out of input otherwise |
| FrameSync.QuitFrameStillDrawn | AVulkan.cpp:882-889 | the iteration that polls SDL_QUIT still draws its frame, and is the last |
| FrameSync.FrameSynchronizer.OneFrameInFlightPerImage | AVulkan.cpp:897-900 | two unfinished submissions never render to the same image |
| FrameSync.FrameSynchronizer.constructor | AVulkan.cpp:778-801 | two slots of semaphores and fences, fences signaled, one empty entry per swapchain image, slot 0; the invariant holds |
| FrameSync.FrameSynchronizer.GpuComplete | AVulkan.cpp:892 | the GPU finishing a slot's submission signals its fence and nothing else |
| FrameSync.FrameSynchronizer.WaitForFence | AVulkan.cpp:892 | afterwards the slot's fence is signaled and its submission finished; other slots are untouched |
| FrameSync.FrameSynchronizer.WaitForImage | AVulkan.cpp:897-899 | afterwards no unfinished submission renders to the image; only the slot whose fence was recorded for it is waited on |
| FrameSync.FrameSynchronizer.Claim | AVulkan.cpp:900 | only the image's entry changes, to the current slot's fence; every entry remains a slot fence |
| FrameSync.FrameSynchronizer.Reset | AVulkan.cpp:918 | needs the slot's fence signaled; it becomes unsignaled and nothing else changes |
| FrameSync.FrameSynchronizer.Submit | AVulkan.cpp:920-922 | needs the slot's fence reset and idle and the image claimed by the slot; an accepted submit records the image's command buffer with the slot's semaphores and fence and makes the slot pending; a rejected one changes nothing |
| FrameSync.FrameSynchronizer.Present | AVulkan.cpp:924-936 | records a presentation of the image that waits on the slot's render-finished semaphore |
| FrameSync.FrameSynchronizer.Advance | AVulkan.cpp:938 | currentFrame becomes NextFrame of itself |
| FrameSync.FrameSynchronizer.DrawFrame | AVulkan.cpp:892-938 | only the acquired image's entry changes, to the slot's fence; the slot's fence ends unsignaled (reset before the submit) and pending exactly when the submit is accepted; the other slot is waited on exactly when its fence was recorded for the image and is otherwise untouched, so no other frame in flight renders to that image; one submission and one presentation are recorded on acceptance; the slot advances on acceptance |
| FrameSync.FrameSynchronizer.RunLoop | AVulkan.cpp:879-939 | frames drawn and exit reason are LoopOutcome of the inputs; the recorded submissions and presentations are exactly LoopSubmissions and LoopPresentations of the frames drawn; the table is TableAfter of every iteration that claimed an image, a rejected one included; currentFrame advances by the frames drawn modulo 2; the invariant holds at the end |
| FrameSync.FrameSynchronizer.DrawLoopFrame | AVulkan.cpp:891-938 | one iteration moves the run's records and table from i iterations to i + 1; a rejected submit still advances the table but not the records or the slot |
| FrameSync.LoopSubmissions | AVulkan.cpp:902-922 | iteration k submits the command buffer of its image with the semaphores and fence of slot (first slot + k) mod 2 |
| FrameSync.LoopPresentations | AVulkan.cpp:924-936 | iteration k presents its image after the render-finished semaphore of slot (first slot + k) mod 2 |
| FrameSync.TableAfterHoldsLastClaim | AVulkan.cpp:900 | after n iterations, each image's entry holds the fence of the slot of the last iteration that acquired it, and is unchanged if none did |

## Left out

- SDL window creation, event polling and the error message box are not modelled. They are UI and I/O. Each iteration's polled event is an input.
- Creating and destroying the instance, surface, device, swapchain, image views, render pass, framebuffers, command pool and command buffers are foreign calls. They are not modelled. The `vkCreate*` failures of the sync objects are also left out, so the fence and semaphore ids are parameters.
- Debug messenger setup and callbacks only log, so they are not modelled.
- Shader loading (`ReadFile`) and pipeline construction are left out. They are file I/O and floating-point API structs.
- Real GPU/CPU concurrency and semaphore ordering are not modelled. This includes completions that happen before anyone waits. The GPU finishes a submission only through the explicit `GpuComplete` step.
- The results of `vkAcquireNextImageKHR` and `vkQueuePresentKHR` are ignored by the code. The acquired image index is an input, and swapchain recreation does not exist in the code.
- The teardown order and the missing device-idle wait before teardown are not modelled.
- The stray `-sd` token at AVulkan.cpp:932 is a typo with no meaning to model.
- Printed messages are left out. This covers the text at AVulkan.cpp:443, where a flag value is added to a string literal's pointer instead of being appended.
- Queue priorities are floating point and are not modelled.
- `vkGetPhysicalDeviceSurfaceSupportKHR`'s return code is ignored by the code. Its answer is the `presentSupport` field of each family.
- The device property listing that only prints names is not modelled. `GetPhysicalDevice` returns the chosen device's position in the enumeration rather than a handle.
- Queue family indices are `nat` rather than `uint32_t`, since a family count never reaches 2^32.
- SwapchainNegotiation.GetImageFormat requires a non-empty list. With an empty list the code reads `foundFormats[0]` out of bounds, which is undefined behaviour with no defined result to model.
- The `SurfaceCapabilities` fields the negotiation never reads (`maxImageArrayLayers` and `supportedCompositeAlpha`) are not modelled.

## Findings

| source | as written | input that shows it | evidently intended | confidence | as-written member | corrected member |
|---|---|---|---|---|---|---|
| AVulkan.cpp:53-55 | each threshold is compared with `>`, so a release's own x.y.0 version falls to the lower name | version 4202496 (1.2.0) gives "VK_VERSION_1_1"; 1.0.0 gives "VK_VERSION_UNKNOWN" | compare with `>=`, so that 1.2.0 is VK_VERSION_1_2 | not executed; medium | VulkanVersion.StringifyMisnamesInitialReleases | VulkanVersion.StringifyCorrectedNamesEveryRelease |
