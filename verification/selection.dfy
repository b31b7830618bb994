/**
  Capability-driven choices made while bringing up Vulkan: the extension and
  layer checks of `create_instance`, device scoring and choice, queue-family
  assignment, the swapchain's image count, format, usage, transform and
  present mode, and the depth-format search (src/initialize.cpp; the older
  copies in src/sigil.cpp are line-for-line the same).

  Capability records are inputs, as the `query::*` functions would fill them
  (include/specs.hpp); enumeration values and flag bits carry the numbers the
  Vulkan headers give them.
*/
module Selection {
  import opened Wrappers

  type Name = string

  /** A value that fits a `uint32_t`. */
  const U32: nat := 0x1_0000_0000
  type U32Val = x: nat | x < U32

  // ---------------------------------------------------------------------------
  // Searching lists

  /** `is_available` (initialize.cpp:165-179): an exact-name linear search. */
  function IsAvailable(available: seq<Name>, n: Name): (r: bool)
    ensures r <==> n in available
  {
    |available| > 0 && (available[0] == n || IsAvailable(available[1..], n))
  }

  /** Index of the first element satisfying `p`, the shape of every `for ... break` search here. */
  function FirstWhere<T>(s: seq<T>, p: T -> bool): (r: Option<nat>)
    ensures r.None? <==> forall j :: 0 <= j < |s| ==> !p(s[j])
    ensures r.Some? ==> r.value < |s| && p(s[r.value])
    ensures r.Some? ==> forall j :: 0 <= j < r.value ==> !p(s[j])
  {
    if |s| == 0 then None
    else if p(s[0]) then Some(0)
    else match FirstWhere(s[1..], p)
      case None => None
      case Some(k) => Some(k + 1)
  }

  // ---------------------------------------------------------------------------
  // Instance creation

  const ValidationLayer: Name := "VK_LAYER_KHRONOS_validation"
  const SwapchainExtension: Name := "VK_KHR_swapchain"

  datatype InstanceCaps = InstanceCaps(extensions: seq<Name>, layers: seq<Name>)

  /** The names handed to `vkCreateInstance`. */
  datatype InstancePlan = InstancePlan(extensions: seq<Name>, layers: seq<Name>)

  datatype InstanceFailure = MissingExtension(name: Name) | MissingValidationLayer | InstanceCreateFailed

  /** What one `vkEnumerateInstance*Properties` pair left behind: the names written and whether it succeeded. */
  datatype Enumeration = Enumeration(names: seq<Name>, ok: bool)

  /**
    `query::instance_specs` (src/framework/query.cpp:6-19) on a fresh
    context: the extension list is resized and filled before its status is
    looked at (query.cpp:132-137), and the layers are only enumerated when
    the extensions were, so a failed extension query leaves them empty. The
    boolean is the reported success.
  */
  function InstanceSpecs(ext: Enumeration, lay: Enumeration): (r: (InstanceCaps, bool))
    ensures r.1 <==> ext.ok && lay.ok
    ensures r.0.extensions == ext.names
    ensures r.0.layers == if ext.ok then lay.names else []
  {
    if !ext.ok then (InstanceCaps(ext.names, []), false)
    else (InstanceCaps(ext.names, lay.names), lay.ok)
  }

  /** The first GLFW-required extension that is not available, checked in order (initialize.cpp:204-209). */
  function FirstMissing(required: seq<Name>, available: seq<Name>): (r: Option<Name>)
    ensures r.None? <==> forall i :: 0 <= i < |required| ==> required[i] in available
    ensures r.Some? ==> exists i :: 0 <= i < |required| && required[i] == r.value
                         && r.value !in available
                         && forall j :: 0 <= j < i ==> required[j] in available
  {
    if |required| == 0 then None
    else if !IsAvailable(available, required[0]) then Some(required[0])
    else match FirstMissing(required[1..], available)
      case None => None
      case Some(n) =>
        assert exists i :: 0 <= i < |required[1..]| && required[1..][i] == n
                 && forall j :: 0 <= j < i ==> required[1..][j] in available;
        var i :| 0 <= i < |required[1..]| && required[1..][i] == n
                 && forall j :: 0 <= j < i ==> required[1..][j] in available;
        assert required[i + 1] == n;
        Some(n)
  }

  /**
    `create_instance` (initialize.cpp:181-235): every required extension must
    be listed; in debug mode the validation layer must be too; then the
    driver's answer decides. `caps` holds the lists as the query left them;
    the query's status `queryOk` is only logged (initialize.cpp:184-186).
  */
  function CreateInstance(caps: InstanceCaps, queryOk: bool, required: seq<Name>, debug: bool, created: bool)
    : (r: Result<InstancePlan, InstanceFailure>)
    ensures r.Ok? <==> (forall i :: 0 <= i < |required| ==> required[i] in caps.extensions)
                       && (debug ==> ValidationLayer in caps.layers)
                       && created
    ensures r.Ok? ==> r.value.extensions == required
    ensures r.Ok? ==> r.value.layers == (if debug then [ValidationLayer] else [])
    ensures r.Err? && r.error.MissingExtension? ==> r.error.name in required && r.error.name !in caps.extensions
    ensures r.Err? && r.error.MissingValidationLayer? ==> debug && ValidationLayer !in caps.layers
  {
    match FirstMissing(required, caps.extensions)
    case Some(n) => Err(MissingExtension(n))
    case None =>
      if debug && !IsAvailable(caps.layers, ValidationLayer) then Err(MissingValidationLayer)
      else if !created then Err(InstanceCreateFailed)
      else Ok(InstancePlan(required, if debug then [ValidationLayer] else []))
  }

  /** The verdict never depends on whether the capability query reported success. */
  lemma FailedQueryOnlyLogged(caps: InstanceCaps, required: seq<Name>, debug: bool, created: bool)
    ensures CreateInstance(caps, false, required, debug, created) == CreateInstance(caps, true, required, debug, created)
  {
  }

  /**
    A failed layer query still leaves the extensions it listed usable: with
    the surface extension listed and required, and no debug mode, creation
    succeeds although the query as a whole failed.
  */
  lemma LayerQueryFailureStillCreates(layers: seq<Name>)
    ensures var (caps, ok) := InstanceSpecs(Enumeration(["VK_KHR_surface"], true), Enumeration(layers, false));
      !ok && CreateInstance(caps, ok, ["VK_KHR_surface"], false, true).Ok?
  {
  }

  /** A failed extension query leaves no layers, so debug mode cannot start. */
  lemma ExtensionQueryFailureBlocksDebug(ext: seq<Name>, lay: Enumeration, required: seq<Name>, created: bool)
    ensures var (caps, ok) := InstanceSpecs(Enumeration(ext, false), lay);
      CreateInstance(caps, ok, required, true, created).Err?
  {
  }

  // ---------------------------------------------------------------------------
  // Physical device choice

  /** One queue family: `queueFlags & VK_QUEUE_GRAPHICS_BIT` and `presentation_support`. */
  datatype QueueFamily = QueueFamily(graphics: bool, present: bool)

  datatype Device = Device(extensions: seq<Name>, maxImageDimension2D: U32Val, families: seq<QueueFamily>)

  /** initialize.cpp:264, 279-282: devices without the swapchain extension score 0. */
  function Score(d: Device): (r: nat)
    ensures r == 0 <==> SwapchainExtension !in d.extensions || d.maxImageDimension2D == 0
    ensures SwapchainExtension in d.extensions ==> r == d.maxImageDimension2D
  {
    (if IsAvailable(d.extensions, SwapchainExtension) then 1 else 0) * d.maxImageDimension2D
  }

  /** An index of a greatest element. */
  function ArgMax(s: seq<nat>): (r: nat)
    requires |s| > 0
    ensures r < |s|
    ensures forall j :: 0 <= j < |s| ==> s[j] <= s[r]
  {
    if |s| == 1 then 0
    else
      var k := ArgMax(s[..|s| - 1]);
      assert forall j :: 0 <= j < |s| - 1 ==> s[..|s| - 1][j] == s[j];
      if s[|s| - 1] > s[k] then |s| - 1 else k
  }

  datatype SelectFailure = EnumerationFailed | NoDevices | DeviceQueryFailed

  function AllQueried(devs: seq<Option<Device>>): bool {
    forall i :: 0 <= i < |devs| ==> devs[i].Some?
  }

  /**
    `select_physical` (initialize.cpp:237-302): fail when enumeration fails,
    when no device is present, or when any device's query fails; otherwise
    choose a device of greatest score. A score of 0 is still chosen.
    An empty device list gives `NoDevices` here; in the program
    `query::available_devices` already reports an empty list as an error
    (src/framework/query.cpp:166-167), so it is the enumeration-failure
    branch that returns false. Both fail; only the log line differs.
  */
  function SelectPhysical(enumerated: Option<seq<Option<Device>>>): (r: Result<nat, SelectFailure>)
    ensures r.Ok? <==> enumerated.Some? && |enumerated.value| > 0 && AllQueried(enumerated.value)
    ensures r == Err(EnumerationFailed) <==> enumerated.None?
    ensures r == Err(NoDevices) <==> enumerated == Some([])
    ensures r.Ok? ==> var devs := enumerated.value;
      && r.value < |devs|
      && forall j :: 0 <= j < |devs| ==> Score(devs[j].value) <= Score(devs[r.value].value)
  {
    match enumerated
    case None => Err(EnumerationFailed)
    case Some(devs) =>
      if |devs| == 0 then Err(NoDevices)
      else if !AllQueried(devs) then Err(DeviceQueryFailed)
      else
        var scores := seq(|devs|, i requires 0 <= i < |devs| => Score(devs[i].value));
        var best := ArgMax(scores);
        assert forall j :: 0 <= j < |devs| ==> scores[j] == Score(devs[j].value);
        Ok(best)
  }

  /**
    A device offering the swapchain extension beats one that lacks it, however
    large the other's image dimension.
  */
  lemma SwapchainDeviceWins(a: Device, b: Device)
    requires SwapchainExtension in a.extensions && a.maxImageDimension2D > 0
    requires SwapchainExtension !in b.extensions
    ensures SelectPhysical(Some([Some(a), Some(b)])) == Ok(0)
    ensures SelectPhysical(Some([Some(b), Some(a)])) == Ok(1)
  {
  }

  /** Devices that all score 0 are not rejected. */
  lemma ZeroScoreAccepted(d: Device)
    requires SwapchainExtension !in d.extensions
    ensures SelectPhysical(Some([Some(d)])) == Ok(0)
  {
  }

  // ---------------------------------------------------------------------------
  // Queue families

  datatype QueueIndices = QueueIndices(present: nat, graphics: nat)

  predicate Both(f: QueueFamily) { f.graphics && f.present }

  /**
    `assign_queue_family_indices` (initialize.cpp:304-333): the first family
    with both capabilities wins for both roles; otherwise each role takes its
    first capable family and keeps its previous value when there is none.
  */
  function AssignQueueFamilies(fams: seq<QueueFamily>, prior: QueueIndices): (r: QueueIndices)
    ensures (exists k :: 0 <= k < |fams| && Both(fams[k])) ==>
      && r.present == r.graphics < |fams| && Both(fams[r.present])
      && forall j :: 0 <= j < r.present ==> !Both(fams[j])
    ensures !(exists k :: 0 <= k < |fams| && Both(fams[k])) ==>
      && ((exists k :: 0 <= k < |fams| && fams[k].present) ==>
            r.present < |fams| && fams[r.present].present
            && forall j :: 0 <= j < r.present ==> !fams[j].present)
      && ((forall k :: 0 <= k < |fams| ==> !fams[k].present) ==> r.present == prior.present)
      && ((exists k :: 0 <= k < |fams| && fams[k].graphics) ==>
            r.graphics < |fams| && fams[r.graphics].graphics
            && forall j :: 0 <= j < r.graphics ==> !fams[j].graphics)
      && ((forall k :: 0 <= k < |fams| ==> !fams[k].graphics) ==> r.graphics == prior.graphics)
  {
    var p := match FirstWhere(fams, (f: QueueFamily) => f.present)
             case Some(i) => i case None => prior.present;
    var g := match FirstWhere(fams, (f: QueueFamily) => f.graphics)
             case Some(i) => i case None => prior.graphics;
    match FirstWhere(fams, Both)
    case Some(i) => QueueIndices(i, i)
    case None => QueueIndices(p, g)
  }

  /** `create_device` (initialize.cpp:354-360): one queue-create info for a shared family, two otherwise. */
  function QueueCreateInfoCount(ix: QueueIndices): (r: nat)
    ensures 1 <= r <= 2
    ensures r == 1 <==> ix.present == ix.graphics
  {
    if ix.present != ix.graphics then 2 else 1
  }

  /** A family that can do both means a single queue is created. */
  lemma SharedFamilyOneQueue(fams: seq<QueueFamily>, prior: QueueIndices, k: nat)
    requires k < |fams| && Both(fams[k])
    ensures QueueCreateInfoCount(AssignQueueFamilies(fams, prior)) == 1
  {
  }

  /** Distinct graphics-only and present-only families give two queue-create infos. */
  lemma SplitFamiliesTwoQueues()
    ensures var fams := [QueueFamily(true, false), QueueFamily(false, true)];
      var ix := AssignQueueFamilies(fams, QueueIndices(0, 0));
      ix == QueueIndices(1, 0) && QueueCreateInfoCount(ix) == 2
  {
    var fams := [QueueFamily(true, false), QueueFamily(false, true)];
    assert !Both(fams[0]) && !Both(fams[1]);
  }

  // ---------------------------------------------------------------------------
  // Swapchain choices

  const FormatB8G8R8A8Unorm: nat := 44
  const PresentModeMailbox: nat := 1
  const PresentModeFifo: nat := 2
  const TransformIdentity: bv32 := 0x1
  const UsageTransferDst: bv32 := 0x2
  const UsageColorAttachment: bv32 := 0x10

  datatype SurfaceFormat = SurfaceFormat(format: nat, colorSpace: nat)

  datatype SurfaceCaps = SurfaceCaps(
    minImageCount: U32Val,
    maxImageCount: U32Val,           // 0 means no limit
    currentTransform: bv32,
    supportedTransforms: bv32,
    supportedUsage: bv32,
    formats: seq<SurfaceFormat>,
    presentModes: seq<nat>)

  /**
    `select_image_count` (initialize.cpp:446-453): one more than the minimum,
    in `uint32_t` arithmetic, clamped to the maximum when one is given.
  */
  function SelectImageCount(caps: SurfaceCaps): (r: U32Val)
    ensures caps.maxImageCount != 0 ==> r <= caps.maxImageCount
    ensures caps.minImageCount + 1 < U32 && (caps.maxImageCount == 0 || caps.minImageCount < caps.maxImageCount)
            ==> r == caps.minImageCount + 1
    ensures caps.minImageCount + 1 == U32 ==> r == 0
    ensures var wanted := (caps.minImageCount + 1) % U32;
      caps.maxImageCount != 0 && wanted > caps.maxImageCount ==> r == caps.maxImageCount
    ensures var wanted := (caps.minImageCount + 1) % U32;
      caps.maxImageCount == 0 || wanted <= caps.maxImageCount ==> r == wanted
  {
    var wanted := (caps.minImageCount + 1) % U32;
    if caps.maxImageCount != 0 && wanted > caps.maxImageCount then caps.maxImageCount else wanted
  }

  /**
    `select_surface_format` (initialize.cpp:455-473): fails on an empty list;
    otherwise the first B8G8R8A8_UNORM entry, or the first entry.
  */
  function SelectSurfaceFormat(formats: seq<SurfaceFormat>): (r: Option<SurfaceFormat>)
    ensures r.None? <==> |formats| == 0
    ensures r.Some? ==> r.value in formats
    ensures r.Some? && (exists k :: 0 <= k < |formats| && formats[k].format == FormatB8G8R8A8Unorm) ==>
      exists i :: 0 <= i < |formats| && formats[i] == r.value && r.value.format == FormatB8G8R8A8Unorm
        && forall j :: 0 <= j < i ==> formats[j].format != FormatB8G8R8A8Unorm
    ensures r.Some? && (forall k :: 0 <= k < |formats| ==> formats[k].format != FormatB8G8R8A8Unorm) ==>
      r.value == formats[0]
  {
    if |formats| == 0 then None
    else match FirstWhere(formats, (f: SurfaceFormat) => f.format == FormatB8G8R8A8Unorm)
      case Some(i) => Some(formats[i])
      case None => Some(formats[0])
  }

  /** initialize.cpp:502-505: MAILBOX when listed, FIFO otherwise. */
  function SelectPresentMode(modes: seq<nat>): (r: nat)
    ensures r == PresentModeMailbox || r == PresentModeFifo
    ensures r == PresentModeMailbox <==> PresentModeMailbox in modes
  {
    if |modes| == 0 then PresentModeFifo
    else if modes[|modes| - 1] == PresentModeMailbox then PresentModeMailbox
    else
      var rest := SelectPresentMode(modes[..|modes| - 1]);
      assert modes == modes[..|modes| - 1] + [modes[|modes| - 1]];
      rest
  }

  /** initialize.cpp:497-500: IDENTITY when supported, else the current transform. */
  function SelectTransform(caps: SurfaceCaps): (r: bv32)
    ensures r == TransformIdentity || r == caps.currentTransform
    ensures caps.supportedTransforms & TransformIdentity != 0 ==> r == TransformIdentity
    ensures caps.supportedTransforms & TransformIdentity == 0 ==> r == caps.currentTransform
  {
    if caps.supportedTransforms & TransformIdentity != 0 then TransformIdentity else caps.currentTransform
  }

  datatype SwapchainPlan = SwapchainPlan(
    imageCount: U32Val, format: SurfaceFormat, usage: bv32, transform: bv32, presentMode: nat)

  datatype SwapchainFailure = NoSurfaceFormat | NoTransferDst | SwapchainCreateFailed | ImagesQueryFailed

  /**
    The choices of `create_swapchain` (initialize.cpp:475-545) in their
    order: format, then transfer-destination usage, then the driver's two
    answers.
  */
  function CreateSwapchain(caps: SurfaceCaps, created: bool, imagesListed: bool)
    : (r: Result<SwapchainPlan, SwapchainFailure>)
    ensures r == Err(NoSurfaceFormat) <==> |caps.formats| == 0
    ensures r == Err(NoTransferDst) <==> |caps.formats| > 0 && caps.supportedUsage & UsageTransferDst == 0
    ensures r.Ok? <==> |caps.formats| > 0 && caps.supportedUsage & UsageTransferDst != 0 && created && imagesListed
    ensures r.Ok? ==> && r.value.format in caps.formats
                      && r.value.usage == UsageColorAttachment | UsageTransferDst
                      && (caps.maxImageCount != 0 ==> r.value.imageCount <= caps.maxImageCount)
                      && (r.value.presentMode == PresentModeMailbox <==> PresentModeMailbox in caps.presentModes)
    ensures r.Ok? ==> && r.value.imageCount == SelectImageCount(caps)
                      && r.value.format == SelectSurfaceFormat(caps.formats).value
                      && r.value.transform == SelectTransform(caps)
                      && r.value.presentMode == SelectPresentMode(caps.presentModes)
  {
    match SelectSurfaceFormat(caps.formats)
    case None => Err(NoSurfaceFormat)
    case Some(f) =>
      if caps.supportedUsage & UsageTransferDst == 0 then Err(NoTransferDst)
      else if !created then Err(SwapchainCreateFailed)
      else if !imagesListed then Err(ImagesQueryFailed)
      else Ok(SwapchainPlan(SelectImageCount(caps), f, UsageColorAttachment | UsageTransferDst,
                            SelectTransform(caps), SelectPresentMode(caps.presentModes)))
  }

  /**
    A surface whose minimum equals its maximum gets exactly that many images,
    not one more (below `0xFFFFFFFF`, where the increment wraps instead).
  */
  lemma FixedCountSurfaceIsClamped(caps: SurfaceCaps)
    requires caps.minImageCount == caps.maxImageCount && caps.maxImageCount != 0
    requires caps.maxImageCount < U32 - 1
    ensures SelectImageCount(caps) == caps.maxImageCount
  {
  }

  /** A minimum of `0xFFFFFFFF` wraps to zero and then asks for no images at all. */
  lemma WrappedMinimumAsksForNone(caps: SurfaceCaps)
    requires caps.minImageCount == U32 - 1
    ensures SelectImageCount(caps) == 0
  {
  }

  /** Three images when the surface asks for at least two and allows any number. */
  lemma UnboundedSurfaceGetsOneExtraImage(caps: SurfaceCaps)
    requires caps.minImageCount == 2 && caps.maxImageCount == 0
    ensures SelectImageCount(caps) == 3
  {
  }

  /**
    A surface with a two-image limit, BGRA listed second, MAILBOX offered and
    IDENTITY supported: two images, the BGRA entry, both usages, IDENTITY and
    MAILBOX.
  */
  lemma SwapchainPlanExample(current: bv32)
    ensures var caps := SurfaceCaps(2, 2, current, TransformIdentity, UsageTransferDst,
                                    [SurfaceFormat(50, 0), SurfaceFormat(FormatB8G8R8A8Unorm, 0)],
                                    [PresentModeFifo, PresentModeMailbox]);
      CreateSwapchain(caps, true, true)
      == Ok(SwapchainPlan(2, SurfaceFormat(FormatB8G8R8A8Unorm, 0), 0x12, TransformIdentity, PresentModeMailbox))
  {
    var formats := [SurfaceFormat(50, 0), SurfaceFormat(FormatB8G8R8A8Unorm, 0)];
    assert formats[1].format == FormatB8G8R8A8Unorm;
    assert SelectSurfaceFormat(formats) == Some(formats[1]);
    assert SelectPresentMode([PresentModeFifo, PresentModeMailbox]) == PresentModeMailbox;
  }

  // ---------------------------------------------------------------------------
  // Depth format search

  datatype Tiling = Linear | Optimal | OtherTiling(code: nat)

  /** `VkFormatProperties`: feature bits per tiling. */
  datatype FormatProps = FormatProps(linear: bv32, optimal: bv32)

  predicate Supports(p: FormatProps, tiling: Tiling, features: bv32) {
    match tiling
    case Linear => p.linear & features == features
    case Optimal => p.optimal & features == features
    case OtherTiling(_) => false
  }

  /**
    `find_supported_format` (initialize.cpp:583-603): the first candidate, in
    list order, whose features for the tiling include every requested bit.
    `props` stands for `vkGetPhysicalDeviceFormatProperties` on the device.
  */
  function FindSupportedFormat(candidates: seq<nat>, props: nat -> FormatProps, tiling: Tiling, features: bv32)
    : (r: Option<nat>)
    ensures r.None? <==> forall i :: 0 <= i < |candidates| ==> !Supports(props(candidates[i]), tiling, features)
    ensures r.Some? ==> exists i :: 0 <= i < |candidates| && candidates[i] == r.value
                         && Supports(props(r.value), tiling, features)
                         && forall j :: 0 <= j < i ==> !Supports(props(candidates[j]), tiling, features)
  {
    match FirstWhere(candidates, (f: nat) => Supports(props(f), tiling, features))
    case None => None
    case Some(i) => Some(candidates[i])
  }

  const FormatD32Sfloat: nat := 126
  const FormatD24UnormS8Uint: nat := 129
  const FormatD32SfloatS8Uint: nat := 130
  const FeatureDepthStencilAttachment: bv32 := 0x200

  /** The candidates of `create_depth_images`, most preferred first (initialize.cpp:607-611). */
  const DepthCandidates := [FormatD32Sfloat, FormatD32SfloatS8Uint, FormatD24UnormS8Uint]

  /** Whether format `f` can be an optimally tiled depth attachment on the device. */
  predicate DepthUsable(props: nat -> FormatProps, f: nat) {
    Supports(props(f), Optimal, FeatureDepthStencilAttachment)
  }

  /**
    The depth format `create_depth_images` asks for (initialize.cpp:605-614):
    the first usable candidate in preference order, and none only when no
    candidate is usable.
  */
  function SelectDepthFormat(props: nat -> FormatProps): (r: Option<nat>)
    ensures r.Some? ==> r.value in DepthCandidates
    ensures r.Some? ==> props(r.value).optimal & FeatureDepthStencilAttachment == FeatureDepthStencilAttachment
    ensures r.None? <==> !DepthUsable(props, FormatD32Sfloat) && !DepthUsable(props, FormatD32SfloatS8Uint)
                         && !DepthUsable(props, FormatD24UnormS8Uint)
    ensures r == Some(FormatD32Sfloat) <==> DepthUsable(props, FormatD32Sfloat)
    ensures r == Some(FormatD32SfloatS8Uint) <==> !DepthUsable(props, FormatD32Sfloat)
                                                  && DepthUsable(props, FormatD32SfloatS8Uint)
    ensures r == Some(FormatD24UnormS8Uint) <==> !DepthUsable(props, FormatD32Sfloat)
                                                 && !DepthUsable(props, FormatD32SfloatS8Uint)
                                                 && DepthUsable(props, FormatD24UnormS8Uint)
  {
    var r := FindSupportedFormat(DepthCandidates, props, Optimal, FeatureDepthStencilAttachment);
    assert DepthCandidates[0] == FormatD32Sfloat && DepthCandidates[1] == FormatD32SfloatS8Uint
           && DepthCandidates[2] == FormatD24UnormS8Uint;
    r
  }

  /** D32 is chosen whenever it supports depth attachments, whatever the others support. */
  lemma DepthPrefersD32(props: nat -> FormatProps)
    requires props(FormatD32Sfloat).optimal & FeatureDepthStencilAttachment != 0
    ensures SelectDepthFormat(props) == Some(FormatD32Sfloat)
  {
  }

  /** With only the packed D24/S8 format usable, that is the one chosen. */
  lemma DepthFallsBackToD24(props: nat -> FormatProps)
    requires !DepthUsable(props, FormatD32Sfloat) && !DepthUsable(props, FormatD32SfloatS8Uint)
    requires DepthUsable(props, FormatD24UnormS8Uint)
    ensures SelectDepthFormat(props) == Some(FormatD24UnormS8Uint)
  {
  }

  /** Linear-tiling features are never consulted for an optimal-tiling request. */
  lemma OptimalIgnoresLinear(candidates: seq<nat>, props: nat -> FormatProps, features: bv32)
    requires forall f :: props(f).optimal == 0
    requires features != 0
    ensures FindSupportedFormat(candidates, props, Optimal, features) == None
  {
  }
}
