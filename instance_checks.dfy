/**
 * The name-list checks done while the instance and the device are set up:
 * are the requested validation layers present, are the required device
 * extensions present, and which instance extensions to ask for. Names are
 * strings compared for equality, as `strcmp` and `std::string` compare them.
 */
module InstanceChecks {

  /** The one validation layer the renderer asks for. */
  const VALIDATION_LAYERS: seq<string> := ["VK_LAYER_KHRONOS_validation"]

  /** The one device extension the renderer requires: the swapchain. */
  const DEVICE_EXTENSIONS: seq<string> := ["VK_KHR_swapchain"]

  /** `VK_EXT_DEBUG_UTILS_EXTENSION_NAME` */
  const DEBUG_UTILS_EXTENSION_NAME: string := "VK_EXT_debug_utils"

  /** `checkValidationLayerSupport`: for each requested layer, a scan of the
      available layer names with a found flag and an early exit; the first layer
      not found answers false. True exactly when every requested layer is available. */
  method CheckValidationLayerSupport(validationLayers: seq<string>, availableLayers: seq<string>) returns (ok: bool)
    ensures ok <==> forall k :: 0 <= k < |validationLayers| ==> validationLayers[k] in availableLayers
  {
    var k := 0;
    while k < |validationLayers|
      invariant 0 <= k <= |validationLayers|
      invariant forall m :: 0 <= m < k ==> validationLayers[m] in availableLayers
    {
      var layerFound := false;
      var a := 0;
      while a < |availableLayers|
        invariant 0 <= a <= |availableLayers|
        invariant !layerFound
        invariant forall b :: 0 <= b < a ==> availableLayers[b] != validationLayers[k]
      {
        if validationLayers[k] == availableLayers[a] {
          layerFound := true;
          break;
        }
        a := a + 1;
      }
      if !layerFound {
        assert validationLayers[k] !in availableLayers;
        return false;
      }
      k := k + 1;
    }
    return true;
  }

  /** `checkDeviceExtensionSupport`: start from the set of required names, erase
      every available name from it, and succeed when nothing is left. That is,
      the required names are a subset of the available ones. */
  method CheckDeviceExtensionSupport(deviceExtensions: seq<string>, availableExtensions: seq<string>) returns (ok: bool)
    ensures ok <==> forall e :: e in deviceExtensions ==> e in availableExtensions
  {
    var requiredExtensions: set<string> := set e | e in deviceExtensions;
    var i := 0;
    while i < |availableExtensions|
      invariant 0 <= i <= |availableExtensions|
      invariant requiredExtensions == (set e | e in deviceExtensions) - (set a | a in availableExtensions[..i])
    {
      requiredExtensions := requiredExtensions - {availableExtensions[i]};
      i := i + 1;
    }
    assert availableExtensions[..i] == availableExtensions;
    ok := requiredExtensions == {};
    if ok {
      forall e | e in deviceExtensions ensures e in availableExtensions {
        assert e !in requiredExtensions;
      }
    } else {
      var e :| e in requiredExtensions;
      assert e in deviceExtensions && e !in availableExtensions;
    }
  }

  /** `getRequiredExtensions`: the window system's instance extensions, unchanged and
      in order, followed by the debug-utils extension exactly when validation layers
      are enabled (a build-time switch in the source, a parameter here). */
  method GetRequiredExtensions(glfwExtensions: seq<string>, enableValidationLayers: bool) returns (extensions: seq<string>)
    ensures |extensions| == |glfwExtensions| + (if enableValidationLayers then 1 else 0)
    ensures extensions[..|glfwExtensions|] == glfwExtensions
    ensures enableValidationLayers ==> extensions[|glfwExtensions|] == DEBUG_UTILS_EXTENSION_NAME
  {
    extensions := glfwExtensions;
    if enableValidationLayers {
      extensions := extensions + [DEBUG_UTILS_EXTENSION_NAME];
    }
  }
}
