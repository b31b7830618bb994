/**
  The startup stage chains: `initialize` in src/initialize.cpp (lines 35-142)
  and its older counterpart in src/sigil.cpp (lines 239-325). Each stage
  either succeeds or ends start-up; no later stage runs after a failure.

  What each stage does to the GPU is outside this model. A stage's outcome
  is an input, except for the matrix-path check, whose outcome follows from
  the parsed command line.
*/
module Startup {

  datatype Stage =
    | ParseCli
    | CheckMatrixFile
    | InitGlfw
    | CreateInstance
    | SelectPhysical
    | CreateDevice
    | CreateAllocator
    | CreateWindow
    | CreateSurface
    | CreateSwapchain
    | CreateImageViews
    | CreateDepthImages
    | CreateRenderPass
    | CreateFramebuffers
    | CreateDescriptorPool
    | CreatePipelineLayout
    | CreatePipeline
    | CreateSemaphores
    | CreateBuffers
    | CreateCommandBuffers
    | ConfigureVertices

  /** The order of src/initialize.cpp:39-139. */
  const ModernStages := [
    ParseCli, CheckMatrixFile, InitGlfw, CreateInstance, SelectPhysical, CreateDevice,
    CreateAllocator, CreateWindow, CreateSurface, CreateSwapchain, CreateImageViews,
    CreateDepthImages, CreateRenderPass, CreateFramebuffers, CreateDescriptorPool,
    CreatePipelineLayout, CreatePipeline, CreateSemaphores, CreateBuffers, ConfigureVertices]

  /** The order of src/sigil.cpp:244-318: no matrix, depth or descriptor stages. */
  const LegacyStages := [
    ParseCli, InitGlfw, CreateInstance, SelectPhysical, CreateDevice, CreateAllocator,
    CreateWindow, CreateSurface, CreateSwapchain, CreateImageViews, CreateRenderPass,
    CreateFramebuffers, CreatePipeline, CreateSemaphores, CreateCommandBuffers]

  /** The stages that ran, the last being the one that failed when `ok` is false. */
  datatype Chain = Chain(ok: bool, ran: seq<Stage>)

  /** Run `stages` in order, stopping at the first whose outcome is false. */
  function RunChain(stages: seq<Stage>, outcome: Stage -> bool): (r: Chain)
    ensures r.ran <= stages
    ensures r.ok <==> forall s :: s in stages ==> outcome(s)
    ensures r.ok ==> r.ran == stages
    ensures !r.ok ==> |r.ran| > 0 && !outcome(r.ran[|r.ran| - 1])
    ensures forall i :: 0 <= i < |r.ran| - 1 ==> outcome(r.ran[i])
  {
    if |stages| == 0 then Chain(true, [])
    else if !outcome(stages[0]) then Chain(false, [stages[0]])
    else
      var rest := RunChain(stages[1..], outcome);
      assert forall i :: 1 <= i < |stages| ==> stages[i] == stages[1..][i - 1];
      Chain(rest.ok, [stages[0]] + rest.ran)
  }

  /** Outcomes of the stages whose work is not modelled here. */
  datatype Answers = Answers(stage: Stage -> bool)

  /** src/initialize.cpp:46-49: the matrix path must be non-empty. */
  function ModernOutcome(matrixFile: string, a: Answers): Stage -> bool {
    (s: Stage) => if s == CheckMatrixFile then |matrixFile| > 0 else a.stage(s)
  }

  function ModernInitialize(matrixFile: string, a: Answers): (r: Chain)
    ensures r.ran <= ModernStages
    ensures r.ok <==> |matrixFile| > 0 && forall s :: s in ModernStages && s != CheckMatrixFile ==> a.stage(s)
  {
    assert ModernStages[1] == CheckMatrixFile;
    RunChain(ModernStages, ModernOutcome(matrixFile, a))
  }

  /** What the older `initialize` leaves behind: three seed vertices and a dirty flag (sigil.cpp:320-323). */
  datatype LegacyResult = LegacyResult(chain: Chain, vertexCount: nat, dirty: bool)

  function LegacyInitialize(a: Answers): (r: LegacyResult)
    ensures r.chain.ran <= LegacyStages
    ensures r.chain.ok <==> forall s :: s in LegacyStages ==> a.stage(s)
    ensures r.chain.ok ==> r.vertexCount == 3 && r.dirty
    ensures !r.chain.ok ==> r.vertexCount == 0 && !r.dirty
  {
    var c := RunChain(LegacyStages, a.stage);
    if c.ok then LegacyResult(c, 3, true) else LegacyResult(c, 0, false)
  }

  // ---------------------------------------------------------------------------
  // Properties

  /** An empty matrix path fails right after the command line is parsed, before GLFW is touched. */
  lemma EmptyMatrixPathFailsEarly(a: Answers)
    requires a.stage(ParseCli)
    ensures ModernInitialize("", a) == Chain(false, [ParseCli, CheckMatrixFile])
  {
    var o := ModernOutcome("", a);
    assert o(ParseCli) && !o(CheckMatrixFile);
    assert ModernStages[1..][1..] == ModernStages[2..];
  }

  /** A failing stage means no later stage in the list ran. */
  lemma {:induction false} NothingAfterFailure(stages: seq<Stage>, outcome: Stage -> bool, i: nat)
    requires i < |stages| && !outcome(stages[i])
    ensures |RunChain(stages, outcome).ran| <= i + 1
    ensures !RunChain(stages, outcome).ok
    decreases i
  {
    if i > 0 && outcome(stages[0]) {
      NothingAfterFailure(stages[1..], outcome, i - 1);
    }
  }

  /** A stage runs only if every stage listed before it succeeded. */
  lemma RanOnlyAfterSuccesses(stages: seq<Stage>, outcome: Stage -> bool, k: nat)
    requires k < |RunChain(stages, outcome).ran|
    ensures forall i :: 0 <= i < k ==> outcome(stages[i])
  {
    var r := RunChain(stages, outcome);
    assert forall i :: 0 <= i < |r.ran| ==> r.ran[i] == stages[i];
  }

  /** The newer order: twenty stages, none listed twice, from the command line to the vertex set-up. */
  lemma ModernStageOrder()
    ensures |ModernStages| == 20
    ensures ModernStages[0] == ParseCli && ModernStages[|ModernStages| - 1] == ConfigureVertices
    ensures forall i, j :: 0 <= i < j < |ModernStages| ==> ModernStages[i] != ModernStages[j]
  {
  }

  /** The older order: fifteen stages, none listed twice, from the command line to the command buffers. */
  lemma LegacyStageOrder()
    ensures |LegacyStages| == 15
    ensures LegacyStages[0] == ParseCli && LegacyStages[|LegacyStages| - 1] == CreateCommandBuffers
    ensures forall i, j :: 0 <= i < j < |LegacyStages| ==> LegacyStages[i] != LegacyStages[j]
  {
  }

  /** The older chain has no depth-format, descriptor or matrix stage. */
  lemma LegacyOmitsNewerStages()
    ensures CreateDepthImages !in LegacyStages && CreateDescriptorPool !in LegacyStages
    ensures CheckMatrixFile !in LegacyStages && ConfigureVertices !in LegacyStages
    ensures CreateDepthImages in ModernStages && CreateDescriptorPool in ModernStages
  {
  }

  /** In both chains the device exists before the swapchain, and the swapchain before its views. */
  lemma DeviceBeforeSwapchain(stages: seq<Stage>)
    requires stages == ModernStages || stages == LegacyStages
    ensures exists i, j, k ::
      && 0 <= i < j < k < |stages|
      && stages[i] == CreateDevice && stages[j] == CreateSwapchain && stages[k] == CreateImageViews
  {
    if stages == ModernStages {
      assert stages[5] == CreateDevice && stages[9] == CreateSwapchain && stages[10] == CreateImageViews;
    } else {
      assert stages[4] == CreateDevice && stages[8] == CreateSwapchain && stages[9] == CreateImageViews;
    }
  }
}
