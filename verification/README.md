# sigil, modelled in Dafny

sigil is a Vulkan viewer. It reads a square integer matrix from a file and
draws one coloured point per cell, raised by the cell's value. This project
models the program's own logic. Every Vulkan, VMA and GLFW call is replaced
by its answer, given as an input. The model covers:

- **Resource**: the single-owner handle wrapper `raii::resource<T>`. A world
  of live wrappers is paired with a log of every `destroy()` call. The model
  proves that, over every sequence of operations the program issues, a
  handle is destroyed at most once, and that a handle that was adopted and
  never released is destroyed by teardown.
- **Render**: the per-frame `render` tick, for both the current and the older
  renderer. It waits on the frame's fence, acquires an image, resets the
  fence, records, submits and presents, then advances the frame slot modulo
  `concurrent_frames`. A loop over ticks and GPU completions shows that
  nothing is submitted to a slot whose previous batch is still in flight.
- **Update**: the upload path. It covers the grow-only vertex buffer (the
  older `create_vertex_buffer` and the newer `update_buffers`), the vertex
  copy, and the per-slot matrix copy with its descriptor rewrite.
- **Selection**: the choices made at start-up:
  - instance extensions and the validation layer;
  - the physical device, by score;
  - the queue families;
  - the swapchain image count, surface format, present mode and transform;
  - the depth-format search.
- **Startup**: the two initialisation chains. Each is a fixed stage order
  that stops at the first failure.
- **Matrix**: `read_matrix` (integer reader, square test, row-major fill)
  and `normalize_matrix` (one vertex per cell, sorted by value).
- **Spirv**: `shader::read_spirv`. The file is zero-padded to whole 32-bit
  words and read as words in host byte order.
- **Cli**: the bookkeeping that `parse_cli` adds around its grammar.
- **App**: both `main` loops. This covers their exit codes, the 100-slot
  frame-time ring, and the integer mean frame time.

`wrappers.dfy` holds the `Option` and `Result` types and the library's
`common::result` error kinds.

The following are inputs to the model rather than computed by it:

- driver answers (`VkResult` values, query results, whether a buffer
  allocation succeeds);
- file contents;
- the per-frame clock readings;
- the parse tree the command-line grammar produces.

## Model

| member | source | states |
|---|---|---|
| Resource.CallDestroy | include/resource.hpp:44 | `destroy()` logs exactly the wrapper's handle and changes no ownership |
| Resource.DefaultConstruct | include/resource.hpp:36 | a default-constructed wrapper holds the null handle, does not own it, destroys nothing and leaves every other wrapper as it was |
| Resource.ConstructFrom | include/resource.hpp:31-34 | a wrapper built from a handle owns it (the flag's initialiser is true), destroys nothing and leaves every other wrapper as it was |
| Resource.DefaultConstructKeepsInv | include/resource.hpp:36 | default construction of a new wrapper keeps the ownership invariant |
| Resource.ConstructFromKeepsInv | include/resource.hpp:31-34 | wrapping a handle that no wrapper has adopted before keeps the invariant |
| Resource.Release | include/resource.hpp:46-51 | `release()` hands back the held handle and leaves the wrapper empty and non-owning; nothing is destroyed and other wrappers are untouched |
| Resource.MoveAssign | include/resource.hpp:16-27 | self-move is a no-op; otherwise the target destroys its old handle iff it owned it, takes the source's handle and flag, and the source is left empty |
| Resource.MoveConstruct | include/resource.hpp:29 | the move constructor starts from a default-initialised owning wrapper, so it logs one `destroy()` of the null handle, then takes over the source, leaving it empty and every other wrapper as it was |
| Resource.Destruct | include/resource.hpp:37-40 | the destructor destroys the handle exactly when the flag is set, and removes only that wrapper |
| Resource.SetCleanup | include/resource.hpp:42-43 | the setter changes only this wrapper's flag; only clearing an owning flag hands its handle off |
| Resource.SetCleanupKeepsInv | include/resource.hpp:42-43 | clearing the flag, or setting it on an empty wrapper, keeps the invariant |
| Resource.MoveAssignKeepsInv | include/resource.hpp:16-27 | move-assignment keeps the ownership invariant: one owner per real handle, owned handles alive, every destroyed handle adopted and destroyed once |
| Resource.DestructKeepsInv | include/resource.hpp:37-40 | destruction keeps the invariant |
| Resource.ReleaseKeepsInv | include/resource.hpp:46-51 | release keeps the invariant, moving the handle to the relinquished set |
| Resource.MoveConstructKeepsInv | include/resource.hpp:29 | move construction keeps the invariant |
| Resource.StepKeepsInv | include/resource.hpp:12-55 | every single wrapper operation the program issues keeps the invariant |
| Resource.StepExtendsLog | include/resource.hpp:12-55 | the destroy log is append-only: every operation keeps the earlier log as a prefix |
| Resource.RunExtendsLog | include/resource.hpp:12-55 | a whole run of operations keeps the earlier destroy log as a prefix, so no `destroy()` call is ever undone |
| Resource.RunKeepsInv | include/resource.hpp:12-55 | every sequence of wrapper operations the program issues keeps the invariant, and its destroy log never names a real handle twice |
| Resource.AtMostOnceFromStart | include/resource.hpp:12-55 | from an empty world, no run of operations the program issues destroys a real handle twice |
| Resource.TeardownAccountsForAll | include/resource.hpp:37-51 | once every wrapper is gone, an adopted handle has been destroyed iff it was never released |
| Resource.ReplaceViaTemporary | include/resource.hpp:16-40 | `x = resource{h}` leaves `x` owning `h` and destroys exactly `x`'s old handle if it owned one |
| Resource.DefaultDestructsNothing | include/resource.hpp:36-40 | a default-constructed wrapper calls no `destroy()` when it dies |
| Resource.ConstructedDestructsOnce | include/resource.hpp:31-40 | a wrapper built from a handle destroys exactly that handle, once, when it dies |
| Render.Record | src/render.cpp:46-91 | recording resets and begins the frame's command buffer, succeeds iff begin and end succeed, and never submits, presents or touches a fence |
| Render.Tick | src/render.cpp:10-43 | the frame slot stays below `concurrent_frames` and advances iff the frame completed; the tick succeeds iff the fence timed out, the image was not ready, or every step succeeded |
| Render.TimeoutDoesNothing | src/render.cpp:17-19 | a fence still busy ends the tick successfully after the wait, with no other call |
| Render.OnlyTimeoutStopsAtFence | src/render.cpp:17-26 | an image is acquired iff the fence poll did not time out |
| Render.NotReadyKeepsFence | src/render.cpp:21-26 | an image that is not ready yet ends the tick with success after only the wait and the acquire, keeping the slot and the fence |
| Render.FenceResetIffAcquired | src/render.cpp:21-31 | the fence is reset exactly when it had signalled and an image was acquired |
| Render.AcquireErrorFails | src/render.cpp:22-29 | an acquire error other than NOT_READY fails the tick without resetting the fence |
| Render.RecordOrSubmitFailureStops | src/render.cpp:33-37 | a failed record or submit fails the tick before presenting and keeps the slot |
| Render.SubmitAndPresentShareSlot | src/render.cpp:93-124 | submit waits on the slot's image-available semaphore and signals its fence; present waits on the same slot's rendering-done semaphore |
| Render.CompletedTickDrawsAllVertices | src/render.cpp:72-82 | a completed frame draws every vertex; only the newer renderer binds the slot's descriptor set |
| Render.TickEffect | src/render.cpp:10-43 | a tick leaves the slot's fence unsignalled iff it reset it and marks the slot in flight iff it submitted |
| Render.Loop | src/sigil.cpp:54-73 | across any run of ticks and completions the frame slot stays below `concurrent_frames` |
| Render.NoSubmitWhileInFlight | src/sigil.cpp:54-73 | over any run of the loop, no tick submits to a slot whose previous batch the GPU has not finished, provided each fence poll answers time-out exactly while its fence is unsignalled |
| Update.Replace | src/update.cpp:222 | replacing the vertex buffer leaves the context owning the new buffer and destroys only the old one, if owned |
| Update.Grow | src/update.cpp:192-224 | growth is a no-op while the list fits; otherwise the recorded capacity becomes the list's size whether or not the allocation succeeds, and only a success replaces the buffer |
| Update.CopySlots | src/update.cpp:28-48 | the matrix loop succeeds iff every slot's copy succeeds, and on success rewrites every slot's descriptor set |
| Update.Tick | src/update.cpp:15-59 | work happens iff the buffers are dirty or party mode is on, and begins with a device-wide wait; the update succeeds iff it has no work or the vertex copy and every slot's matrix copy succeed; the capacity then covers the list; success clears the dirty flag unless a key re-marks it; a failure keeps it |
| Update.LegacyTick | src/sigil.cpp:90-107 | the older update works iff the flag is set, clears it iff the copy succeeds, and fails only when the copy fails |
| Update.GrowIsIdempotent | src/update.cpp:198-201 | after growing for n vertices, growing for at most n does nothing |
| Update.CapacityMonotone | src/update.cpp:198-205 | across any sequence of growths the capacity never shrinks and covers every list size seen |
| Update.BarrierBeforeRealloc | src/update.cpp:17-19 | a buffer is never created before the device-wide wait |
| Update.AllocFailureIgnored | src/update.cpp:17-26 | a failed allocation still counts as a successful update that raises the capacity |
| Update.CopyLengthIsCapacity | src/update.cpp:20-22 | the vertex copy asks for the recorded capacity, not for the bytes the list occupies |
| Update.AsWrittenCopyOverruns | src/update.cpp:17-26 | see Findings: the copy asks for more bytes than the buffer has |
| Update.TickChecked | src/update.cpp:15-59 | corrected update: the recorded capacity always equals the held buffer's size; it succeeds iff it has no work, or the list fits or the allocation succeeds and every copy succeeds; a failed allocation fails it with nothing copied |
| Update.CheckedAllocFailureFails | src/update.cpp:17-26 | corrected update: the failed allocation that the program ignores fails the update, leaves the buffers unchanged and copies no vertices |
| Update.GrowChecked | src/update.cpp:17-26 | corrected growth: a failed allocation changes nothing; otherwise the capacity never shrinks, covers the request, and stays equal to the held buffer's size |
| Update.CheckedCopyFits | src/update.cpp:17-26 | corrected update: no vertex copy exceeds the held buffer, and every copy covers the whole list |
| Selection.IsAvailable | src/initialize.cpp:165-179 | a name is available iff it is listed |
| Selection.FirstMissing | src/initialize.cpp:204-209 | reports the first required extension, in order, that is not available, and none iff all are |
| Selection.InstanceSpecs | src/framework/query.cpp:6-19 | the extension list is kept even when its enumeration fails; layers are listed only after a successful extension query; the status is success iff both enumerations succeed |
| Selection.CreateInstance | src/initialize.cpp:181-235 | instance creation succeeds iff every required extension is available, the validation layer is present when debugging, and the driver creates it; the layer list is the validation layer exactly in debug mode; a reported missing name is really missing |
| Selection.FailedQueryOnlyLogged | src/initialize.cpp:184-186 | the verdict is the same whether the capability query reported success or not |
| Selection.LayerQueryFailureStillCreates | src/framework/query.cpp:14-16 | a failed layer query leaves the listed extensions usable, so creation without debug mode still succeeds |
| Selection.ExtensionQueryFailureBlocksDebug | src/framework/query.cpp:10-12 | after a failed extension query no layer is listed, so debug-mode creation fails |
| Selection.Score | src/initialize.cpp:264-282 | a device scores its largest 2D image dimension, or 0 without the swapchain extension |
| Selection.SelectPhysical | src/initialize.cpp:237-302 | selection fails iff enumeration fails, no device exists, or a device query fails; otherwise it picks a device of maximal score |
| Selection.ZeroScoreAccepted | src/initialize.cpp:264-302 | a lone device without the swapchain extension scores zero and is still selected |
| Selection.SwapchainDeviceWins | src/initialize.cpp:279-282 | a device with the swapchain extension beats one without, in either order |
| Selection.AssignQueueFamilies | src/initialize.cpp:304-333 | the first family with both graphics and presentation serves both; otherwise each index is the first family with that capability, or stays unchanged |
| Selection.QueueCreateInfoCount | src/initialize.cpp:354-360 | one queue is requested iff both indices are equal, two otherwise |
| Selection.SharedFamilyOneQueue | src/initialize.cpp:304-360 | when some family supports both graphics and presentation, a single queue is requested |
| Selection.SplitFamiliesTwoQueues | src/initialize.cpp:304-360 | a graphics-only family followed by a present-only family gives graphics index 0, present index 1 and two queue requests |
| Selection.SelectImageCount | src/initialize.cpp:446-453 | one image more than the minimum, clamped to a non-zero maximum, with 32-bit wrap-around: exactly the wrapped increment when no maximum forbids it, and the maximum otherwise |
| Selection.UnboundedSurfaceGetsOneExtraImage | src/initialize.cpp:446-453 | with minimum 2 and no maximum, three images are requested |
| Selection.FixedCountSurfaceIsClamped | src/initialize.cpp:449-450 | a surface whose minimum equals its maximum gets that many images |
| Selection.WrappedMinimumAsksForNone | src/initialize.cpp:448 | a minimum of 0xFFFFFFFF wraps to a request for zero images |
| Selection.SelectSurfaceFormat | src/initialize.cpp:455-473 | fails iff no format is listed; picks the first B8G8R8A8_UNORM format, or else the first format |
| Selection.SelectPresentMode | src/initialize.cpp:502-505 | MAILBOX iff listed, otherwise FIFO |
| Selection.SelectTransform | src/initialize.cpp:497-500 | IDENTITY when supported, otherwise the current transform |
| Selection.CreateSwapchain | src/initialize.cpp:475-545 | fails without formats or without TRANSFER_DST usage, then on the driver's two answers; on success uses the selected count, format, transform and present mode with colour-attachment and transfer-destination usage |
| Selection.SwapchainPlanExample | src/initialize.cpp:475-545 | a two-image surface listing BGRA second, offering MAILBOX and supporting IDENTITY gets two BGRA images, both usages, IDENTITY and MAILBOX |
| Selection.FindSupportedFormat | src/initialize.cpp:583-603 | returns the first candidate whose features for the requested tiling include all requested bits, and none iff no candidate has them |
| Selection.OptimalIgnoresLinear | src/initialize.cpp:583-603 | for optimal tiling only the optimal features count: a format whose optimal features are empty is never chosen for a non-empty request |
| Selection.SelectDepthFormat | src/initialize.cpp:605-614 | the depth format is the first of D32_SFLOAT, D32_SFLOAT_S8_UINT, D24_UNORM_S8_UINT that supports depth-stencil attachment with optimal tiling, and none iff none of them does |
| Selection.DepthFallsBackToD24 | src/initialize.cpp:607-611 | D24_UNORM_S8_UINT is chosen when it is the only usable candidate |
| Selection.DepthPrefersD32 | src/initialize.cpp:607-611 | D32_SFLOAT is chosen whenever it supports depth-stencil attachment |
| Startup.RunChain | src/initialize.cpp:35-142 | stages run in order until the first failure; the chain succeeds iff every stage does, and the last stage run is the one that failed |
| Startup.ModernInitialize | src/initialize.cpp:35-142 | start-up succeeds iff a matrix path was given and every other stage succeeds |
| Startup.LegacyInitialize | src/sigil.cpp:239-325 | the older start-up succeeds iff every stage does, leaving three seed vertices and a dirty flag |
| Startup.ModernStageOrder | src/initialize.cpp:39-139 | the newer order has twenty stages, none twice, from the command line to the vertex set-up |
| Startup.LegacyStageOrder | src/sigil.cpp:244-318 | the older order has fifteen stages, none twice, from the command line to the command buffers |
| Startup.EmptyMatrixPathFailsEarly | src/initialize.cpp:46-49 | an empty matrix path stops start-up right after the command line is parsed |
| Startup.NothingAfterFailure | src/initialize.cpp:35-142 | no stage after a failing one runs |
| Startup.RanOnlyAfterSuccesses | src/initialize.cpp:35-142 | every stage before a stage that ran succeeded |
| Startup.LegacyOmitsNewerStages | src/sigil.cpp:244-318 | the older order has no depth images, descriptor pool, matrix check or vertex configuration, which the current order has |
| Startup.DeviceBeforeSwapchain | src/initialize.cpp:66-93 | in both chains the device is created before the swapchain, and the swapchain before its image views |
| Matrix.ISqrt | src/initialize.cpp:1225-1226 | the truncated root is the floor of the square root: its square is at most n and the next square exceeds n |
| Matrix.ISqrtDecidesSquare | src/initialize.cpp:1225-1228 | the truncated-root test accepts exactly the perfect squares |
| Matrix.TokensRead | src/initialize.cpp:1213-1220 | the read loop keeps a prefix of the integers, all of them only when the file ends in whitespace |
| Matrix.ReadMatrix | src/initialize.cpp:1205-1243 | reading succeeds iff there is an output, the file opens, no read error occurs, and the kept count is a perfect square; the result is the row-major square of the kept integers |
| Matrix.ReadMatrixAcceptsSquares | src/initialize.cpp:1222-1228 | the success condition, stated with perfect squares |
| Matrix.Fill | src/initialize.cpp:1230-1241 | the fill gives n rows of n entries, entry (i, j) being integer i*n+j |
| Matrix.SquareMatrix | src/initialize.cpp:1225-1241 | a square count of integers becomes the row-major square, any other count is refused |
| Matrix.ReadThenFlatten | src/initialize.cpp:1230-1241 | flattening the read matrix row by row gives back the kept integers |
| Matrix.Cells | src/initialize.cpp:1254-1257 | the cell list holds exactly the matrix's cells with their coordinates |
| Matrix.SortByValue | src/initialize.cpp:1259-1260 | the sort gives a non-decreasing permutation |
| Matrix.DepthMax | src/initialize.cpp:1265-1268 | the depth maximum is the largest value, or 0 when none is positive |
| Matrix.DepthMaxOrderFree | src/initialize.cpp:1259-1268 | the depth maximum is the same for any order of the same cells, so sorting first does not change it |
| Matrix.NormalizeMatrix | src/initialize.cpp:1245-1278 | one vertex per cell, a permutation of the cells in non-decreasing value order, colour (r, g, b, 1), flat in compress mode, otherwise scaled from the cell's value by the depth maximum of the whole matrix |
| Matrix.OneVertexPerCell | src/initialize.cpp:1280-1288 | the vertex count equals the number of integers read |
| Matrix.NonPositiveCellsZeroScale | src/initialize.cpp:1265-1274 | with no positive cell the depth scale is 0 |
| Matrix.AsWrittenDropsLastInteger | src/initialize.cpp:1215-1220 | see Findings: the last integer is dropped without trailing whitespace |
| Matrix.ReadMatrixAll | src/initialize.cpp:1205-1243 | corrected reader: succeeds iff there is an output, the file opens, no read error occurs and the full integer count is square; the result is the row-major square of every integer |
| Matrix.ReadMatrixAllKeepsEveryInteger | src/initialize.cpp:1205-1243 | corrected reader: succeeds iff the integer count is a perfect square and flattens back to every integer |
| Matrix.TrailingSpaceReadsAgree | src/initialize.cpp:1215-1220 | with trailing whitespace both readers agree |
| Matrix.AsWrittenRead | src/initialize.cpp:1215-1220 | the read loop as written ends only from a state without the fail bit |
| Matrix.FailedNeverEnds | src/initialize.cpp:1215-1220 | once the fail bit is set, no number of passes ends the loop |
| Matrix.AsWrittenLoopsOnJunk | src/initialize.cpp:1215-1220 | see Findings: a word that is not an integer keeps the loop running forever |
| Matrix.AsWrittenOneJunkWord | src/initialize.cpp:1215-1220 | see Findings: the file `1 x` is still being read after a million passes |
| Matrix.AsWrittenReadsIntegers | src/initialize.cpp:1215-1220 | on integers only the loop ends after one pass per word plus one and keeps every integer in order |
| Matrix.ReadTokens | src/initialize.cpp:1215-1223 | corrected reader: accepts exactly the files made of integers and yields them in order |
| Matrix.ReadTokensAgreesOnIntegers | src/initialize.cpp:1215-1220 | the corrected reader agrees with the loop as written on every file the latter finishes |
| Spirv.PaddedSize | src/framework/shader.cpp:15-17 | the padded size is the least multiple of four not below the file size |
| Spirv.AlignedFileNotPadded | src/framework/shader.cpp:15-29 | a file whose size is a multiple of four is read back byte for byte, with no padding |
| Spirv.Padded | src/framework/shader.cpp:21-25 | the buffer holds the file followed by zero bytes |
| Spirv.Pack | src/framework/shader.cpp:27-29 | word i is bytes 4i to 4i+3 in host byte order |
| Spirv.UnpackPack | src/framework/shader.cpp:27-29 | laying the words back out in memory gives back the buffer |
| Spirv.ReadSpirv | src/framework/shader.cpp:7-32 | null output is a domain error, an unopenable file an access error; otherwise ceil(size/4) words |
| Spirv.ReadSpirvRoundTrip | src/framework/shader.cpp:7-32 | the words laid out in memory are the file followed by zero padding |
| Spirv.MagicNumberLittleEndian | src/framework/shader.cpp:27-29 | the SPIR-V magic number stored least significant byte first reads as 0x07230203 on a little-endian host |
| Cli.Count | src/sigil.cpp:1210-1231 | an option's count is zero iff no action of its kind ran, and at most one iff no two actions of its kind ran |
| Cli.Perform | src/sigil.cpp:1212-1231 | each action sets its own field (verbose sets every log level) and leaves the others unchanged |
| Cli.ParseCli | src/sigil.cpp:1190-1279 | no arguments keeps the defaults; a rejected parse fails; otherwise success iff verbose, debug, width and height each ran at most once |
| Cli.WidthFromSingleAction | src/sigil.cpp:1223-1226 | with at most one width option, the width is that option's value, or unchanged without one |
| Cli.DebugIffAction | src/sigil.cpp:1218-1221 | debug mode is on iff a debug flag ran |
| Cli.RepeatedWidthRejected | src/sigil.cpp:1267-1269 | a repeated width option is rejected |
| Cli.AcceptedWidth | src/sigil.cpp:1223-1226 | a single width option is accepted and changes only the width |
| App.FirstFailure | src/sigil.cpp:54-65 | the first frame whose update or render failed, and none iff every frame succeeded |
| App.LegacyMain | src/sigil.cpp:40-82 | exit 1 iff start-up fails, 2 iff a frame fails, 0 otherwise; the ring index stays below 100, and each slot holds the last duration recorded there |
| App.LegacyCode | src/sigil.cpp:40-82 | the older main's exit code: 1 iff start-up fails, 2 iff a frame fails, 0 otherwise |
| App.LegacyMainCode | src/sigil.cpp:40-82 | the imperative loop with its timing ring exits with the code the reference definition `LegacyCode` gives |
| App.SumBounds | src/sigil.cpp:75-78 | a sum of values between lo and hi lies between count*lo and count*hi |
| App.AverageNanos | src/sigil.cpp:75-78 | the integer mean of the middle ninety slots: ninety times it is at most their sum, which is below ninety times one more |
| App.AverageWithinBounds | src/sigil.cpp:75-78 | the integer mean of the middle ninety slots lies between their least and greatest value |
| App.AverageIgnoresEdges | src/sigil.cpp:75-77 | the five slots at each end never affect the mean |
| App.ModernLoop | src/main.cpp:24-45 | the current loop exits 1 when the first failing frame failed in update, 2 when it failed in render, 0 otherwise |
| App.ModernMain | src/main.cpp:12-46 | the current main exits 1 on start-up failure or when the first failing frame failed in its update, 2 iff a frame's render fails after its update succeeded, and 0 when every frame succeeds |
| App.MainsDifferOnlyOnUpdateFailure | src/main.cpp:36-39 | the two mains return different codes exactly when an update fails |

## Left out

- Resource.RunKeepsInv: the runs are those the program issues, not all
  that C++ allows. Two operations are excluded: `cleanup(true)` on a
  wrapper whose handle is not null (the program's only such call is on the
  always-empty GLFW guard), and building a wrapper from a handle some
  wrapper already adopted (every handle comes fresh from a create call).
  Resource.AtMostOnceFromStart has the same scope.
- Vulkan, VMA and GLFW calls are not modelled. Their results are inputs.
  The configuration structs in `conf_*`, the `query` helpers other than
  `instance_specs` and the adapter
  policies are out of scope.
- The command-line grammar (`cli.cpp`'s tokenizer and CYK parser) is out of
  scope. `Cli.ParseCli` takes its verdict as the sequence of actions.
- Cli.ParseCli: the action sequence is not constrained by the grammar. The
  model accepts sequences the grammar never produces, such as `[Help, Help]`
  or `[Help, Verbose]` (help is only a whole command line of its own), so
  its acceptance of such inputs says nothing about the program.
- Cli.ParseCli: the size token is at most four digits, so the uint32
  truncation of `std::stoull` cannot happen and is not modelled. On a
  rejected parse the context may already have been changed by earlier
  actions; the model returns only the failure.
- Floating point is out of scope: vertex x/y positions, the depth formula
  `value / (depth_max / 4) - 3.5`, colours divided by 255, the view and
  projection matrices, and the frames-per-second figure. Matrix.NormalizeMatrix
  states the depth as its inputs (the cell's value and the whole matrix's
  depth maximum), not as the float result.
- Party mode's random colours, the keyboard transforms in `update_input`,
  the rate limiter's sleep in the newer `main`, and logging are out of scope.
- The `std::sort` tie order is left out, because the sort is not stable.
  Matrix.SortByValue states order and permutation only. Selection.SelectPhysical
  states only that the chosen device has maximal score.
- Matrix.ReadMatrix: the file is a list of integers plus two flags. A word
  that is not an integer is modelled separately, by Matrix.AsWrittenRead
  (see Findings).
- Matrix.AsWrittenRead: an out-of-range integer also sets the fail bit and
  loops forever, but stores the clamped value rather than 0; the model
  treats it as any other non-integer word.
- Spirv.ReadSpirv: the result of `file.read` is not checked
  (src/framework/shader.cpp:25), so a short read would leave the missing
  bytes zero and still succeed. The model takes the file as read in full.
- Selection.AssignQueueFamilies: indices are unbounded naturals; the
  truncation of `size_t` to `uint32_t` is not modelled.
- Update.Grow: the allocation's usage flags (which differ between the two
  VMA variants) are not modelled; only sizes and ownership are.
- Update.Required: `size_t` overflow of `count * sizeof(vertex)` is not
  modelled.
- Render.Loop: its own contract is only the frame-slot bound. The property
  about it is Render.NoSubmitWhileInFlight, which assumes the fence poll
  answers time-out exactly while a fence is unsignalled; a poll that fails
  (for example with a lost device) on a pending fence is outside it.

## Findings

| source | as written | input that shows it | evidently intended | confidence | as-written member | corrected member |
|---|---|---|---|---|---|---|
| src/update.cpp:17-26 and src/update.cpp:198-220 (also src/sigil.cpp:93-103 and src/sigil.cpp:333-355) | The buffer-creation result is ignored. The recorded size is raised before `vmaCreateBuffer`, so after a failed allocation the vertex copy uses the new size against the old, smaller buffer. | dirty buffers, no buffer yet, 3 vertices, allocation fails, copies succeed: `update` returns true after copying 84 bytes into no buffer | fail the update, and raise the recorded size only with a successful allocation | not executed | Update.AsWrittenCopyOverruns | Update.TickChecked, Update.CheckedCopyFits, Update.CheckedAllocFailureFails |
| src/initialize.cpp:1215-1220 | The loop tests `eof()` after extraction and before keeping the value, so when the file does not end in whitespace the last integer is read but discarded. | file `1 2 3 4` without a trailing newline: rejected as non-square; `1 2 3 4 5` is accepted as [[1,2],[3,4]] | keep every extracted integer (test the extraction's success, not eof) | not executed | Matrix.AsWrittenDropsLastInteger | Matrix.ReadMatrixAll, Matrix.ReadMatrixAllKeepsEveryInteger |
| src/initialize.cpp:1215-1220 | A failed extraction sets the fail bit but neither eof nor bad, so the loop does not stop; it pushes `entry` and every later extraction fails the same way. | file `1 x`: the loop never ends and the vector grows without bound | stop on a failed extraction and refuse the file | not executed | Matrix.AsWrittenRead, Matrix.AsWrittenLoopsOnJunk, Matrix.AsWrittenOneJunkWord | Matrix.ReadTokens, Matrix.ReadTokensAgreesOnIntegers |
