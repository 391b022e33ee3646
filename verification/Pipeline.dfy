/** The pipeline: four canonical stages in a task graph, and the inference loop over
    a context scope. */
module Pipelines {
  import opened Common
  import opened StageDag
  import opened StreamPool
  import opened StageGraph
  import opened TaskGraphs
  import opened ContextScopes

  const PREPROCESS := StageName("preprocess")
  const TRAIN := StageName("train")
  const INFER := StageName("infer")
  const POSTPROCESS := StageName("postprocess")

  const PREPROCESS_STAGE := StageContract(PREPROCESS, "nexusrt.kernels.tokenize", "tokenize_bpe_u8", 8192, 32, 256, [])
  const TRAIN_STAGE :=
    StageContract(TRAIN, "nexusrt.kernels.train", "transformer_fwd_bwd", 8192, 128, 32768, [PREPROCESS])
  const INFER_STAGE := StageContract(INFER, "nexusrt.kernels.infer", "decode_step", 4096, 64, 16384, [PREPROCESS])
  const POSTPROCESS_STAGE :=
    StageContract(POSTPROCESS, "nexusrt.kernels.postprocess", "detokenize_format", 1024, 16, 64, [INFER])

  ghost const CANONICAL: Nodes := map[
    PREPROCESS := NewNode(PREPROCESS_STAGE),
    TRAIN := NewNode(TRAIN_STAGE),
    INFER := NewNode(INFER_STAGE),
    POSTPROCESS := NewNode(POSTPROCESS_STAGE)]

  lemma NamesDiffer()
    ensures Distinct([PREPROCESS, TRAIN, INFER, POSTPROCESS])
  {
  }

  /** The canonical graph is accepted exactly by devices with at least 128 kilobytes
      of shared memory per multiprocessor. */
  lemma CanonicalVerdict(smemBytes: nat)
    ensures Verdict(CANONICAL, smemBytes) == if smemBytes >= 131072 then Ok else ContractViolation
  {
    NamesDiffer();
    var deps := DepsOf(CANONICAL);
    var order := [PREPROCESS, TRAIN, INFER, POSTPROCESS];
    assert order[0] == PREPROCESS && order[2] == INFER;
    assert deps[PREPROCESS] == [] && deps[TRAIN] == [PREPROCESS];
    assert deps[INFER] == [PREPROCESS] && deps[POSTPROCESS] == [INFER];
    forall i | 0 <= i < 4 ensures DepsBefore(deps, order, i) {
      assert i > 0 ==> order[..i][0] == PREPROCESS;
      assert i > 2 ==> order[..i][2] == INFER;
    }
    assert Topological(deps, order);
    assert deps.Keys <= Elems(order);
    TopologicalHasNoCycle(deps, order);
    assert Acceptable(deps);
    assert CANONICAL[TRAIN].contract.smFootprintMb == 128;
  }

  /** What the four stages ask for in all: tokens, megabytes as the contracts call them of
      shared and of device memory, and per stage no more shared memory than training. */
  lemma CanonicalTotals()
    ensures PREPROCESS_STAGE.tokenBudget + TRAIN_STAGE.tokenBudget + INFER_STAGE.tokenBudget
            + POSTPROCESS_STAGE.tokenBudget == 21504
    ensures PREPROCESS_STAGE.memFootprintMb + TRAIN_STAGE.memFootprintMb + INFER_STAGE.memFootprintMb
            + POSTPROCESS_STAGE.memFootprintMb == 49472
    ensures PREPROCESS_STAGE.smFootprintMb == 2 * POSTPROCESS_STAGE.smFootprintMb == 32
    ensures TRAIN_STAGE.smFootprintMb == 2 * INFER_STAGE.smFootprintMb == 128
  {
  }

  lemma DmaHasLetter(m: string)
    ensures NamesDma(m) ==> exists i :: 0 <= i < |m| && (m[i] == 'd' || m[i] == 'g')
  {
    if a, b :| m == a + "dma" + b {
      assert m[|a|] == 'd';
    }
    if a, b :| m == a + "gds" + b {
      assert m[|a|] == 'g';
    }
  }

  lemma PlainNames()
    ensures !NamesDma(PREPROCESS_STAGE.kernelModule) && !NamesDma(TRAIN_STAGE.kernelModule)
  {
    DmaHasLetter("nexusrt.kernels.tokenize");
    DmaHasLetter("nexusrt.kernels.train");
  }

  lemma MorePlainNames()
    ensures !NamesDma(INFER_STAGE.kernelModule) && !NamesDma(POSTPROCESS_STAGE.kernelModule)
  {
    DmaHasLetter("nexusrt.kernels.infer");
    DmaHasLetter("nexusrt.kernels.postprocess");
  }

  /** None of the canonical stages is named for DMA: all run on compute streams. */
  lemma CanonicalAreCompute()
    ensures ClassFor(PREPROCESS_STAGE) == ClassFor(TRAIN_STAGE) == Compute
    ensures ClassFor(INFER_STAGE) == ClassFor(POSTPROCESS_STAGE) == Compute
  {
    PlainNames();
    MorePlainNames();
    ClassForIff(PREPROCESS_STAGE);
    ClassForIff(TRAIN_STAGE);
    ClassForIff(INFER_STAGE);
    ClassForIff(POSTPROCESS_STAGE);
  }

  ghost predicate SameContracts(a: Nodes, b: Nodes) {
    && a.Keys == b.Keys
    && forall k | k in a :: b[k].contract == a[k].contract
  }

  /** Both are in the log, and `a` was started before `b`. */
  ghost predicate StartedBefore(g: GraphState, a: StageName, b: StageName) {
    exists i :: 0 <= i < |g.started| && g.started[i] == b && a in g.started[..i]
  }

  lemma DirectDependencyFirst(g: GraphState, a: StageName, b: StageName)
    requires LoggedOnce(g) && InOrder(g) && b in g.nodes && g.nodes[b].state != Pending
    requires a in g.nodes[b].contract.dependsOn
    ensures StartedBefore(g, a, b)
  {
    assert b in g.started;
    var i :| 0 <= i < |g.started| && g.started[i] == b;
    assert DepsRanBefore(g, i);
    assert RanBefore(g, i, a);
  }

  /** `n` as a 32-bit signed integer. */
  function AsInt32(n: nat): int {
    (n + 0x8000_0000) % U32 - 0x8000_0000
  }

  /** It is the number itself below 2^31, and in general the signed one of 32 bits that is
      the same modulo 2^32. */
  lemma AsInt32Signed(n: nat)
    ensures n < 0x8000_0000 ==> AsInt32(n) == n
    ensures -0x8000_0000 <= AsInt32(n) < 0x8000_0000 && (n - AsInt32(n)) % 0x1_0000_0000 == 0
  {
  }

  class Pipeline {
    const graph: TaskGraph
    const scope: ContextScope
    const dryRun: bool
    var built: bool

    /** The graph belongs to the pipeline: it is empty until the first build, and once
        built it stays validated and canonical. */
    ghost predicate Valid()
      reads this, graph, graph.kernel
    {
      && graph.Valid() && scope.Valid()
      && (graph.nodes == map[] || PREPROCESS in graph.nodes)
      && (built ==> graph.validated && HoldsCanonical())
    }

    /** The stages are the canonical ones, in whatever state. */
    ghost predicate HoldsCanonical()
      reads graph
    {
      SameContracts(CANONICAL, graph.nodes)
    }

    constructor (graph: TaskGraph, scope: ContextScope, dryRun: bool)
      requires graph.Valid() && scope.Valid() && graph.nodes == map[]
      ensures Valid() && !built
      ensures this.graph == graph && this.scope == scope && this.dryRun == dryRun
    {
      this.graph, this.scope, this.dryRun, built := graph, scope, dryRun, false;
    }

    /** Add the four stages, stopping at the first refusal. */
    method AddCanonicalStages() returns (s: Status)
      requires Valid()
      modifies graph
      ensures graph.Valid() && graph.started == old(graph.started)
      ensures old(graph.nodes) == map[] ==> s == Ok && graph.nodes == CANONICAL
      ensures PREPROCESS in old(graph.nodes) ==> s == InvalidArgument && graph.State() == old(graph.State())
    {
      NamesDiffer();
      ghost var names := [PREPROCESS, TRAIN, INFER, POSTPROCESS];
      assert names[0] != names[1] && names[0] != names[2] && names[0] != names[3];
      assert names[1] != names[2] && names[1] != names[3] && names[2] != names[3];
      s := graph.AddStage(PREPROCESS_STAGE);
      if !s.Ok? { return; }
      s := graph.AddStage(TRAIN_STAGE);
      if !s.Ok? { return; }
      s := graph.AddStage(INFER_STAGE);
      if !s.Ok? { return; }
      s := graph.AddStage(POSTPROCESS_STAGE);
    }

    /** On an empty graph: the canonical stages, built if the device is large enough.
        A second attempt is refused, the first stage being there already. */
    method Build() returns (s: Status)
      requires Valid()
      modifies this, graph
      ensures Valid()
      ensures old(graph.nodes) == map[] ==>
                && graph.nodes == CANONICAL && graph.started == old(graph.started)
                && s == (if graph.smemPerSmBytes >= 131072 then Ok else ContractViolation)
                && built == (old(built) || s.Ok?) && (s.Ok? ==> graph.validated)
      ensures PREPROCESS in old(graph.nodes) ==>
                s == InvalidArgument && graph.State() == old(graph.State()) && built == old(built)
    {
      s := AddCanonicalStages();
      if !s.Ok? { return; }
      CanonicalVerdict(graph.smemPerSmBytes);
      s := graph.Validate();
      if !s.Ok? { return; }
      built := true;
    }

    /** A first run of an empty pipeline, or any run of a built one: when it answers Ok,
        other than dry, every stage is completed exactly when none had failed before,
        preprocessing first and inference before postprocessing. */
    method Run() returns (s: Status)
      requires Valid()
      modifies this, graph, graph.kernel
      ensures Valid() && graph.kernel.State() == old(graph.kernel.State())
      ensures !old(built) && PREPROCESS in old(graph.nodes) ==>
                s == InvalidArgument && graph.State() == old(graph.State())
      ensures (old(built) || old(graph.nodes) == map[]) && s.Ok? && !dryRun ==>
                && built && (AllCompleted() <==> NoneFailed(old(graph.nodes)))
                && (AllCompleted() ==> RanInOrder())
      ensures old(built) && dryRun ==> s == Ok && graph.State() == old(graph.State())
      ensures old(graph.nodes) == map[] && !old(built) && graph.smemPerSmBytes < 131072 ==> s == ContractViolation
    {
      if !built {
        s := Build();
        if !s.Ok? { return; }
      }
      if dryRun { return Ok; }
      ghost var before := graph.State();
      ghost var path;
      s, path := graph.Run();
      RunKeepsCanonical(before, path, s);
      if s.Ok? && HoldsCanonical() {
        RunCompletes(before, path);
      }
    }

    ghost predicate AllCompleted()
      reads graph
    {
      forall k | k in graph.nodes :: graph.nodes[k].state == Completed
    }

    ghost predicate RanInOrder()
      reads graph
    {
      && StartedBefore(graph.State(), PREPROCESS, TRAIN)
      && StartedBefore(graph.State(), PREPROCESS, INFER)
      && StartedBefore(graph.State(), INFER, POSTPROCESS)
    }

    lemma RunKeepsCanonical(before: GraphState, path: seq<GraphState>, s: Status)
      requires |path| > 0 && path[0] == before.(validated := true) && path[|path| - 1] == graph.State()
      requires RunOutcome(path, s, graph.kernel.State().pool)
      ensures SameContracts(before.nodes, graph.nodes)
    {
      var n := |path|;
      if AllLaunchedOk(path) {
        OkRunFailsNothing(path, n - 1);
      } else {
        OkRunFailsNothing(path[..n - 1], n - 2);
        var k :| LaunchStep(path[n - 2], k, path[n - 1], s);
      }
    }

    lemma RunCompletes(before: GraphState, path: seq<GraphState>)
      requires graph.Valid() && HoldsCanonical() && graph.validated && NothingReady(graph.nodes)
      requires AllLaunchedOk(path) && path[0] == before.(validated := true) && path[|path| - 1] == graph.State()
      ensures AllCompleted() <==> NoneFailed(before.nodes)
      ensures AllCompleted() ==> RanInOrder()
    {
      NamesDiffer();
      OkRunFailsNothing(path, |path| - 1);
      RestIsCompletion(graph.State());
      if AllCompleted() {
        DirectDependencyFirst(graph.State(), PREPROCESS, TRAIN);
        DirectDependencyFirst(graph.State(), PREPROCESS, INFER);
        DirectDependencyFirst(graph.State(), INFER, POSTPROCESS);
      }
    }

    /** The prompt, then one token per step, each the length of the output before it;
        the spill ledger makes exactly as many steps. */
    method RunInfer(prompt: seq<int>, maxNewTokens: nat) returns (s: Status, out: seq<int>)
      requires Valid()
      modifies scope.layers
      ensures s == Ok
      ensures |out| == |prompt| + maxNewTokens && out[..|prompt|] == prompt
      ensures forall j | |prompt| <= j < |out| :: out[j] == AsInt32(j)
      ensures forall j | |prompt| <= j < |out| && j < 0x8000_0000 :: out[j] == j
      ensures var layers := old(scope.layers[..]);
              scope.layers[..] == WithLedger(layers, Steps(LedgerOf(layers), layers[4].maxTokens, maxNewTokens))
    {
      ghost var layers := scope.layers[..];
      out := prompt;
      ghost var u, m := LedgerOf(layers), layers[4].maxTokens;
      LedgerOfWith(layers, u, u);
      for i := 0 to maxNewTokens
        invariant |out| == |prompt| + i && out[..|prompt|] == prompt
        invariant forall j | |prompt| <= j < |out| :: out[j] == AsInt32(j)
        invariant scope.layers[..] == WithLedger(layers, Steps(u, m, i))
      {
        LedgerOfWith(layers, Steps(u, m, i), Steps(u, m, i + 1));
        var stepStatus := scope.Step();
        var next := AsInt32(|out|);
        out := out + [next];
      }
      s := Ok;
    }
  }
}
