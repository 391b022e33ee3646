/** The task graph as a value: its stages, the steps that change them, and what
    holds over every history of such steps. */
module StageGraph {
  import opened Common
  import opened StageDag
  import opened StreamPool

  datatype StageName = StageName(text: string)

  datatype StageState = Pending | Ready | Running | Completed | Failed

  datatype StageContract = StageContract(
    name: StageName,
    kernelModule: string,
    entry: string,
    tokenBudget: nat,
    smFootprintMb: nat,
    memFootprintMb: nat,
    dependsOn: seq<StageName>)

  /** `stream` is the raw stream pointer last used; 0 is null. */
  datatype StageNode = StageNode(
    contract: StageContract,
    state: StageState,
    stream: nat,
    submitTs: nat,
    completeTs: nat,
    lastStatus: Status)

  type Nodes = map<StageName, StageNode>

  /** `started` logs, in order, every stage handed to the device. */
  datatype GraphState = GraphState(nodes: Nodes, validated: bool, started: seq<StageName>, now: nat)

  const EMPTY_GRAPH := GraphState(map[], false, [], 0)

  function NewNode(c: StageContract): StageNode {
    StageNode(c, Pending, 0, 0, 0, Ok)
  }

  function DepsOf(nodes: Nodes): Deps<StageName> {
    map k | k in nodes :: nodes[k].contract.dependsOn
  }

  predicate OccursAt(s: string, t: string, i: nat) {
    i + |t| <= |s| && s[i..i + |t|] == t
  }

  predicate Contains(s: string, t: string) {
    exists i | 0 <= i <= |s| :: OccursAt(s, t, i)
  }

  /** DMA-heavy modules get a DMA stream, all others a compute stream. */
  function ClassFor(c: StageContract): StreamClass {
    if Contains(c.kernelModule, "dma") || Contains(c.kernelModule, "gds") then Dma else Compute
  }

  /** Occurring is being in the middle. */
  lemma ContainsIff(s: string, t: string)
    ensures Contains(s, t) <==> exists a, b :: s == a + t + b
  {
    if i :| 0 <= i <= |s| && OccursAt(s, t, i) {
      assert s == s[..i] + t + s[i + |t|..];
    }
    if a, b :| s == a + t + b {
      assert OccursAt(s, t, |a|);
    }
  }

  ghost predicate NamesDma(m: string) {
    (exists a, b :: m == a + "dma" + b) || exists a, b :: m == a + "gds" + b
  }

  /** A stage runs on a DMA stream if and only if its module name has "dma" or "gds" in it,
      and otherwise on a compute stream. */
  lemma ClassForIff(c: StageContract)
    ensures NamesDma(c.kernelModule) <==> ClassFor(c) == Dma
    ensures !NamesDma(c.kernelModule) <==> ClassFor(c) == Compute
  {
    ContainsIff(c.kernelModule, "dma");
    ContainsIff(c.kernelModule, "gds");
  }

  ghost predicate IsReady(nodes: Nodes, k: StageName) {
    && k in nodes && nodes[k].state == Pending
    && forall d | d in nodes[k].contract.dependsOn :: d in nodes && nodes[d].state == Completed
  }

  ghost predicate NothingReady(nodes: Nodes) {
    forall k | k in nodes :: !IsReady(nodes, k)
  }

  /** Footprints are compared with the device's shared memory in kilobytes. */
  ghost predicate FootprintsFit(nodes: Nodes, smemBytes: nat) {
    forall k | k in nodes :: nodes[k].contract.smFootprintMb <= smemBytes / 1024
  }

  ghost predicate Acceptable(deps: Deps<StageName>) {
    AllDepsExist(deps) && Unrepeated(deps) && !HasCycle(deps)
  }

  /** What `validate` answers. */
  ghost function Verdict(nodes: Nodes, smemBytes: nat): Status {
    if !Acceptable(DepsOf(nodes)) then InvalidArgument
    else if !FootprintsFit(nodes, smemBytes) then ContractViolation
    else Ok
  }

  // ---- Steps ----------------------------------------------------------------

  ghost predicate AddStep(g: GraphState, c: StageContract, g': GraphState, s: Status) {
    if c.name.text == "" || c.name in g.nodes then g' == g && s == InvalidArgument
    else g' == g.(nodes := g.nodes[c.name := NewNode(c)], validated := false) && s == Ok
  }

  ghost predicate ValidateStep(g: GraphState, smemBytes: nat, g': GraphState, s: Status) {
    && s == Verdict(g.nodes, smemBytes)
    && g' == g.(validated := g.validated || s.Ok?)
  }

  /** Stage `k` was pending and ready, and ran: `s` is the first failing status of
      its launch and its synchronisation, or Ok. The sweep that launches does not look
      at the validated flag; only `run` does, earlier and outside the sweep's lock. */
  ghost predicate LaunchStep(g: GraphState, k: StageName, g': GraphState, s: Status) {
    && IsReady(g.nodes, k)
    && k in g'.nodes
    && var n, n' := g.nodes[k], g'.nodes[k];
       && g' == GraphState(g.nodes[k := n'], g.validated, g.started + [k], g'.now)
       && n'.contract == n.contract
       && g.now <= n'.submitTs <= g'.now
       && n'.state == (if s.Ok? then Completed else Failed)
       && n'.lastStatus == (if s.Ok? then n.lastStatus else s)
       && (n'.submitTs <= n'.completeTs <= g'.now || (!s.Ok? && n'.completeTs == n.completeTs))
  }

  // ---- The invariant --------------------------------------------------------

  ghost predicate WellNamed(nodes: Nodes) {
    forall k | k in nodes :: k == nodes[k].contract.name && k.text != ""
  }

  /** Between calls a stage is pending or done. */
  ghost predicate Settled(nodes: Nodes) {
    forall k | k in nodes :: nodes[k].state in {Pending, Completed, Failed}
  }

  ghost predicate LoggedOnce(g: GraphState) {
    && Distinct(g.started)
    && (forall k :: k in g.started <==> k in g.nodes && g.nodes[k].state != Pending)
  }

  /** Dependency `d` of the `i`-th started stage exists, completed, started earlier,
      and had finished by the time the stage was submitted. */
  ghost predicate RanBefore(g: GraphState, i: nat, d: StageName)
    requires i < |g.started| && g.started[i] in g.nodes
  {
    && d in g.nodes && g.nodes[d].state == Completed
    && d in g.started[..i]
    && g.nodes[d].completeTs <= g.nodes[g.started[i]].submitTs
  }

  ghost predicate DepsRanBefore(g: GraphState, i: nat)
    requires i < |g.started|
  {
    && g.started[i] in g.nodes
    && forall d | d in g.nodes[g.started[i]].contract.dependsOn :: RanBefore(g, i, d)
  }

  ghost predicate InOrder(g: GraphState) {
    forall i | 0 <= i < |g.started| :: DepsRanBefore(g, i)
  }

  ghost predicate Clocked(g: GraphState) {
    forall k | k in g.nodes && g.nodes[k].state == Completed :: g.nodes[k].completeTs <= g.now
  }

  ghost predicate Inv(g: GraphState, smemBytes: nat) {
    && WellNamed(g.nodes)
    && Settled(g.nodes)
    && LoggedOnce(g)
    && InOrder(g)
    && Clocked(g)
    && (g.validated ==> Verdict(g.nodes, smemBytes).Ok?)
  }

  lemma EmptyInv(smemBytes: nat)
    ensures Inv(EMPTY_GRAPH, smemBytes)
  {
  }

  /** A step that keeps every logged stage and its dependencies keeps the order. */
  lemma OrderKept(g: GraphState, g': GraphState, i: nat)
    requires InOrder(g) && g.started <= g'.started && i < |g.started|
    requires forall k | k in g.started :: k in g.nodes && k in g'.nodes && g'.nodes[k] == g.nodes[k]
    ensures DepsRanBefore(g', i)
  {
    assert DepsRanBefore(g, i);
    var k := g.started[i];
    assert g'.started[i] == k && k in g.started;
    forall d | d in g'.nodes[k].contract.dependsOn ensures RanBefore(g', i, d) {
      assert RanBefore(g, i, d);
      assert g'.started[..i] == g.started[..i];
    }
  }

  lemma AddKeepsInv(g: GraphState, smemBytes: nat, c: StageContract, g': GraphState, s: Status)
    requires Inv(g, smemBytes) && AddStep(g, c, g', s)
    ensures Inv(g', smemBytes)
  {
    if s.Ok? {
      forall i | 0 <= i < |g'.started| ensures DepsRanBefore(g', i) {
        OrderKept(g, g', i);
      }
    }
  }

  lemma ValidateKeepsInv(g: GraphState, smemBytes: nat, g': GraphState, s: Status)
    requires Inv(g, smemBytes) && ValidateStep(g, smemBytes, g', s)
    ensures Inv(g', smemBytes)
  {
    forall i | 0 <= i < |g'.started| ensures DepsRanBefore(g', i) {
      OrderKept(g, g', i);
    }
  }

  lemma LaunchKeepsInv(g: GraphState, smemBytes: nat, k: StageName, g': GraphState, s: Status)
    requires Inv(g, smemBytes) && LaunchStep(g, k, g', s)
    ensures Inv(g', smemBytes)
  {
    assert k !in g.started;
    LaunchKeepsOrder(g, k, g', s);
    LaunchKeepsContracts(g, k, g', s);
  }

  lemma LaunchKeepsContracts(g: GraphState, k: StageName, g': GraphState, s: Status)
    requires LaunchStep(g, k, g', s)
    ensures DepsOf(g'.nodes) == DepsOf(g.nodes)
    ensures forall smemBytes :: Verdict(g'.nodes, smemBytes) == Verdict(g.nodes, smemBytes)
  {
    forall smemBytes ensures FootprintsFit(g'.nodes, smemBytes) <==> FootprintsFit(g.nodes, smemBytes) {
      assert g'.nodes.Keys == g.nodes.Keys;
      assert forall j | j in g.nodes :: g'.nodes[j].contract == g.nodes[j].contract;
    }
  }

  lemma LaunchKeepsOrder(g: GraphState, k: StageName, g': GraphState, s: Status)
    requires LoggedOnce(g) && InOrder(g) && Clocked(g) && LaunchStep(g, k, g', s)
    ensures LoggedOnce(g') && InOrder(g') && Clocked(g')
  {
    assert k !in g.started;
    var last := |g.started|;
    forall i | 0 <= i < |g'.started| ensures DepsRanBefore(g', i) {
      if i < last {
        OrderKept(g, g', i);
      } else {
        assert g'.started[..i] == g.started;
        forall d | d in g'.nodes[k].contract.dependsOn ensures RanBefore(g', i, d) {
          assert d in g.nodes && g.nodes[d].state == Completed;
        }
      }
    }
  }

  // ---- Histories ------------------------------------------------------------

  ghost predicate Launches(g: GraphState, g': GraphState) {
    exists k, s :: LaunchStep(g, k, g', s)
  }

  /** `add_stage`, `validate`, or one launch by `run`; any order, any number. */
  ghost predicate GraphStep(g: GraphState, smemBytes: nat, g': GraphState) {
    || (exists c, s :: AddStep(g, c, g', s))
    || (exists s :: ValidateStep(g, smemBytes, g', s))
    || Launches(g, g')
  }

  ghost predicate IsHistory(h: seq<GraphState>, smemBytes: nat) {
    && |h| > 0 && h[0] == EMPTY_GRAPH
    && forall i | 0 < i < |h| :: StepTo(h, smemBytes, i)
  }

  ghost predicate StepTo(h: seq<GraphState>, smemBytes: nat, i: nat)
    requires 0 < i < |h|
  {
    GraphStep(h[i - 1], smemBytes, h[i])
  }

  /** What no step takes back. */
  ghost predicate Later(g: GraphState, g': GraphState) {
    && g.nodes.Keys <= g'.nodes.Keys
    && g.started <= g'.started
    && (forall k | k in g.nodes :: g'.nodes[k].contract == g.nodes[k].contract)
    && (forall k | k in g.nodes && g.nodes[k].state != Pending :: g'.nodes[k] == g.nodes[k])
  }

  lemma StepKeepsInv(g: GraphState, smemBytes: nat, g': GraphState)
    requires Inv(g, smemBytes) && GraphStep(g, smemBytes, g')
    ensures Inv(g', smemBytes) && Later(g, g')
  {
    if c, s :| AddStep(g, c, g', s) {
      AddKeepsInv(g, smemBytes, c, g', s);
    } else if s :| ValidateStep(g, smemBytes, g', s) {
      ValidateKeepsInv(g, smemBytes, g', s);
    } else {
      var k, s :| LaunchStep(g, k, g', s);
      LaunchKeepsInv(g, smemBytes, k, g', s);
    }
  }

  lemma {:induction false} HistoryInv(h: seq<GraphState>, smemBytes: nat, i: nat)
    requires IsHistory(h, smemBytes) && i < |h|
    ensures Inv(h[i], smemBytes)
  {
    if i == 0 {
      EmptyInv(smemBytes);
    } else {
      HistoryInv(h, smemBytes, i - 1);
      assert StepTo(h, smemBytes, i);
      StepKeepsInv(h[i - 1], smemBytes, h[i]);
    }
  }

  lemma HistoryStep(h: seq<GraphState>, smemBytes: nat, j: nat)
    requires IsHistory(h, smemBytes) && 0 < j < |h|
    ensures Later(h[j - 1], h[j])
  {
    HistoryInv(h, smemBytes, j - 1);
    assert StepTo(h, smemBytes, j);
    StepKeepsInv(h[j - 1], smemBytes, h[j]);
  }

  lemma LaterTrans(g1: GraphState, g2: GraphState, g3: GraphState)
    requires Later(g1, g2) && Later(g2, g3)
    ensures Later(g1, g3)
  {
  }

  lemma {:induction false} HistoryLater(h: seq<GraphState>, smemBytes: nat, i: nat, j: nat)
    requires IsHistory(h, smemBytes) && i <= j < |h|
    ensures Later(h[i], h[j])
    decreases j
  {
    if i < j {
      HistoryLater(h, smemBytes, i, j - 1);
      HistoryStep(h, smemBytes, j);
      LaterTrans(h[i], h[j - 1], h[j]);
    }
  }

  /** Dependency safety: over any history every stage starts at most once, and each
      started stage found all its dependencies existing, completed and finished,
      started strictly before it. */
  lemma DependencySafety(h: seq<GraphState>, smemBytes: nat, i: nat, a: nat, b: nat)
    requires IsHistory(h, smemBytes) && i < |h| && a < |h[i].started|
    ensures b < |h[i].started| && h[i].started[b] == h[i].started[a] ==> b == a
    ensures h[i].started[a] in h[i].nodes
    ensures var g := h[i];
            forall d | d in g.nodes[g.started[a]].contract.dependsOn ::
              && d in g.nodes && g.nodes[d].state == Completed && d in g.started[..a]
              && g.nodes[d].completeTs <= g.nodes[g.started[a]].submitTs
  {
    HistoryInv(h, smemBytes, i);
    assert DepsRanBefore(h[i], a);
    assert forall d | d in h[i].nodes[h[i].started[a]].contract.dependsOn :: RanBefore(h[i], a, d);
  }

  // ---- Failed and missing dependencies --------------------------------------

  /** Everything a stage that has started depends on exists and has completed. */
  lemma {:induction false} StartedReachesCompleted(g: GraphState, k: StageName, p: seq<StageName>)
    requires LoggedOnce(g) && InOrder(g) && k in g.started
    requires Chain(DepsOf(g.nodes), p) && p[0] == k && |p| >= 2
    ensures p[|p| - 1] in g.nodes && g.nodes[p[|p| - 1]].state == Completed
    decreases |p|
  {
    ChainTail(DepsOf(g.nodes), p);
    var i :| 0 <= i < |g.started| && g.started[i] == k;
    assert DepsRanBefore(g, i);
    assert RanBefore(g, i, p[1]);
    if |p| > 2 {
      assert p[1] in g.started;
      StartedReachesCompleted(g, p[1], p[1..]);
    }
  }

  lemma {:induction false} ChainKept(g: GraphState, g': GraphState, p: seq<StageName>)
    requires Later(g, g') && Chain(DepsOf(g.nodes), p)
    ensures Chain(DepsOf(g'.nodes), p)
  {
    forall i | 0 <= i < |p| - 1 ensures Link(DepsOf(g'.nodes), p, i) {
      assert Link(DepsOf(g.nodes), p, i);
    }
  }

  /** A stage that depends, directly or not, on a failed stage stays pending forever. */
  lemma FailurePoisons(h: seq<GraphState>, smemBytes: nat, i: nat, j: nat, k: StageName, f: StageName)
    requires IsHistory(h, smemBytes) && i <= j < |h|
    requires f in h[i].nodes && h[i].nodes[f].state == Failed
    requires k in h[i].nodes && k != f && Reaches(DepsOf(h[i].nodes), k, f)
    ensures k in h[j].nodes && h[j].nodes[k].state == Pending && k !in h[j].started
  {
    HistoryLater(h, smemBytes, i, j);
    HistoryInv(h, smemBytes, j);
    var p :| ChainFromTo(DepsOf(h[i].nodes), p, k, f);
    ChainKept(h[i], h[j], p);
    if k in h[j].started {
      StartedReachesCompleted(h[j], k, p);
      assert false;
    }
  }

  /** No stage that leads to a missing name has ever started; and while there is one
      the graph is not validated, so that a run which validates is refused. */
  lemma MissingBlocks(g: GraphState, smemBytes: nat, k: StageName, m: StageName)
    requires Inv(g, smemBytes)
    requires k in g.nodes && m !in g.nodes && Reaches(DepsOf(g.nodes), k, m)
    ensures g.nodes[k].state == Pending && k !in g.started
    ensures !g.validated && Verdict(g.nodes, smemBytes) == InvalidArgument
  {
    var deps := DepsOf(g.nodes);
    var p :| ChainFromTo(deps, p, k, m);
    if k in g.started {
      StartedReachesCompleted(g, k, p);
      assert false;
    }
    MissingLink(deps, p);
  }

  lemma {:induction false} MissingLink(deps: Deps<StageName>, p: seq<StageName>)
    requires Chain(deps, p) && p[0] in deps && p[|p| - 1] !in deps
    ensures !AllDepsExist(deps)
  {
    ChainTail(deps, p);
    if p[1] in deps {
      MissingLink(deps, p[1..]);
    } else {
      var i :| 0 <= i < |deps[p[0]]| && deps[p[0]][i] == p[1];
    }
  }

  // ---- Progress -------------------------------------------------------------

  ghost predicate LeadsToFailed(nodes: Nodes, k: StageName) {
    exists f :: f in nodes && nodes[f].state == Failed && Reaches(DepsOf(nodes), k, f)
  }

  ghost predicate LeadsToMissing(nodes: Nodes, k: StageName) {
    exists m :: m !in nodes && Reaches(DepsOf(nodes), k, m)
  }

  ghost predicate OnCycle(deps: Deps<StageName>, c: StageName) {
    exists p :: IsCycle(deps, p) && p[0] == c
  }

  ghost predicate LeadsToCycle(nodes: Nodes, k: StageName) {
    exists c :: OnCycle(DepsOf(nodes), c) && Reaches(DepsOf(nodes), k, c)
  }

  /** The stage depends, itself included, on something that keeps it from completing. */
  ghost predicate Blocked(nodes: Nodes, k: StageName) {
    LeadsToFailed(nodes, k) || LeadsToMissing(nodes, k) || LeadsToCycle(nodes, k)
  }

  lemma BlockedBy(nodes: Nodes, k: StageName, d: StageName)
    requires k in nodes && d in nodes[k].contract.dependsOn && Blocked(nodes, d)
    ensures Blocked(nodes, k)
  {
    var deps := DepsOf(nodes);
    assert Edge(deps, k, d);
    if LeadsToFailed(nodes, d) {
      var f :| f in nodes && nodes[f].state == Failed && Reaches(deps, d, f);
      ReachesStep(deps, k, d, f);
    } else if LeadsToMissing(nodes, d) {
      var m :| m !in nodes && Reaches(deps, d, m);
      ReachesStep(deps, k, d, m);
    } else {
      var c :| OnCycle(deps, c) && Reaches(deps, d, c);
      ReachesStep(deps, k, d, c);
    }
  }

  /** A pending stage that is neither ready nor blocked waits for another such stage. */
  lemma WaitsOnUnblocked(nodes: Nodes, k: StageName, stuck: set<StageName>)
    requires Settled(nodes)
    requires stuck == set j | j in nodes && nodes[j].state == Pending && !Blocked(nodes, j)
    requires k in stuck && !IsReady(nodes, k)
    ensures WaitsIn(DepsOf(nodes), k, stuck)
  {
    var d :| d in nodes[k].contract.dependsOn && !(d in nodes && nodes[d].state == Completed);
    assert Edge(DepsOf(nodes), k, d);
    ReachesSelf(DepsOf(nodes), d);
    if Blocked(nodes, d) {
      BlockedBy(nodes, k, d);
      assert false;
    }
  }

  lemma NoneLeftStuck(nodes: Nodes, stuck: set<StageName>)
    requires Settled(nodes) && NothingReady(nodes)
    requires stuck == set j | j in nodes && nodes[j].state == Pending && !Blocked(nodes, j)
    ensures stuck == {}
  {
    forall k | k in stuck ensures WaitsIn(DepsOf(nodes), k, stuck) {
      WaitsOnUnblocked(nodes, k, stuck);
    }
    if stuck != {} {
      var c := StuckSetHasCycle(DepsOf(nodes), stuck);
      assert OnCycle(DepsOf(nodes), c[0]);
      ReachesSelf(DepsOf(nodes), c[0]);
      assert false;
    }
  }

  /** The log of started stages is a topological order. */
  lemma StartedIsTopological(g: GraphState)
    requires InOrder(g)
    ensures Topological(DepsOf(g.nodes), g.started)
  {
    forall i | 0 <= i < |g.started| ensures DepsBefore(DepsOf(g.nodes), g.started, i) {
      assert DepsRanBefore(g, i);
      forall d | d in DepsOf(g.nodes)[g.started[i]] ensures d in g.started[..i] {
        assert RanBefore(g, i, d);
      }
    }
  }

  lemma CompletedIsNotBlocked(g: GraphState, k: StageName)
    requires LoggedOnce(g) && InOrder(g) && k in g.nodes && g.nodes[k].state == Completed
    ensures !Blocked(g.nodes, k)
  {
    var deps := DepsOf(g.nodes);
    assert k in g.started;
    forall x | Reaches(deps, k, x) ensures x in g.nodes && g.nodes[x].state == Completed && x in g.started {
      var p :| ChainFromTo(deps, p, k, x);
      if |p| >= 2 {
        StartedReachesCompleted(g, k, p);
      }
    }
    StartedIsTopological(g);
    forall c | OnCycle(deps, c) ensures c !in g.started {
      var p :| IsCycle(deps, p) && p[0] == c;
      TopologicalOffCycle(deps, g.started, p);
    }
  }

  /** Where a sweep finds nothing ready, whatever was added since the graph was last
      validated: a stage is completed exactly when nothing it depends on, itself
      included, has failed, is missing, or lies on a cycle. */
  lemma RestExactly(g: GraphState)
    requires Settled(g.nodes) && LoggedOnce(g) && InOrder(g) && NothingReady(g.nodes)
    ensures forall k | k in g.nodes :: g.nodes[k].state == Completed <==> !Blocked(g.nodes, k)
  {
    var stuck := set k | k in g.nodes && g.nodes[k].state == Pending && !Blocked(g.nodes, k);
    NoneLeftStuck(g.nodes, stuck);
    forall k | k in g.nodes ensures g.nodes[k].state == Completed <==> !Blocked(g.nodes, k) {
      if g.nodes[k].state == Completed {
        CompletedIsNotBlocked(g, k);
      } else if g.nodes[k].state == Failed {
        ReachesSelf(DepsOf(g.nodes), k);
      } else {
        assert k !in stuck;
      }
    }
  }

  /** In a graph with all its dependencies and no cycle only failures block. */
  lemma OnlyFailuresBlock(nodes: Nodes, k: StageName)
    requires AllDepsExist(DepsOf(nodes)) && !HasCycle(DepsOf(nodes)) && k in nodes
    ensures Blocked(nodes, k) <==> LeadsToFailed(nodes, k)
  {
    var deps := DepsOf(nodes);
    forall m | m !in nodes ensures !Reaches(deps, k, m) {
      forall p | ChainFromTo(deps, p, k, m) ensures false {
        MissingLink(deps, p);
        assert false;
      }
    }
  }

  /** Says outright what a launch does to its stage, and that it does nothing else. */
  lemma LaunchOutcome(g: GraphState, k: StageName, g': GraphState, s: Status)
    requires LaunchStep(g, k, g', s)
    ensures k in g.nodes && k in g'.nodes && g.nodes[k].state == Pending
    ensures g'.nodes[k].state == (if s == Ok then Completed else Failed)
    ensures s != Ok ==> g'.nodes[k].lastStatus == s
    ensures g'.nodes[k].contract == g.nodes[k].contract
    ensures g'.nodes.Keys == g.nodes.Keys && forall j | j in g.nodes && j != k :: g'.nodes[j] == g.nodes[j]
    ensures g'.validated == g.validated && g'.started == g.started + [k]
    ensures s == Ok ==> g.now <= g'.nodes[k].submitTs <= g'.nodes[k].completeTs <= g'.now
  {
  }

  /** The same for a graph still validated: only failures block. */
  lemma StuckSweep(g: GraphState, smemBytes: nat)
    requires Inv(g, smemBytes) && g.validated && NothingReady(g.nodes)
    ensures forall k | k in g.nodes :: g.nodes[k].state == Completed <==> !LeadsToFailed(g.nodes, k)
  {
    RestExactly(g);
    forall k | k in g.nodes ensures g.nodes[k].state == Completed <==> !LeadsToFailed(g.nodes, k) {
      OnlyFailuresBlock(g.nodes, k);
    }
  }

  /** A run that comes to rest, in any interleaving, has completed everything exactly
      when no stage has failed, then or earlier, and by now no dependency is missing
      and none is cyclic. */
  lemma RestIsCompletion(g: GraphState)
    requires Settled(g.nodes) && LoggedOnce(g) && InOrder(g) && NothingReady(g.nodes)
    ensures (forall k | k in g.nodes :: g.nodes[k].state == Completed)
       <==> (forall k | k in g.nodes :: g.nodes[k].state != Failed)
            && AllDepsExist(DepsOf(g.nodes)) && !HasCycle(DepsOf(g.nodes))
  {
    RestExactly(g);
    var deps := DepsOf(g.nodes);
    if forall k | k in g.nodes :: g.nodes[k].state == Completed {
      UnblockedIsSound(g.nodes);
    } else if AllDepsExist(deps) && !HasCycle(deps) {
      var k :| k in g.nodes && g.nodes[k].state != Completed;
      OnlyFailuresBlock(g.nodes, k);
    }
  }

  lemma UnblockedIsSound(nodes: Nodes)
    requires forall k | k in nodes :: !Blocked(nodes, k)
    ensures AllDepsExist(DepsOf(nodes)) && !HasCycle(DepsOf(nodes))
  {
    var deps := DepsOf(nodes);
    forall k, i | k in deps && 0 <= i < |deps[k]| ensures deps[k][i] in deps {
      if deps[k][i] !in deps {
        assert Edge(deps, k, deps[k][i]);
        ReachesSelf(deps, deps[k][i]);
        ReachesStep(deps, k, deps[k][i], deps[k][i]);
        assert false;
      }
    }
    forall p | IsCycle(deps, p) ensures false {
      ChainTail(deps, p);
      assert OnCycle(deps, p[0]);
      ReachesSelf(deps, p[0]);
      assert false;
    }
  }

  /** A graph without cycles is refused all the same when a dependency list repeats
      a name. */
  lemma RepeatedDependencyRefused(a: StageName, b: StageName, smemBytes: nat)
      returns (nodes: Nodes)
    requires a != b
    ensures AllDepsExist(DepsOf(nodes)) && !HasCycle(DepsOf(nodes)) && FootprintsFit(nodes, smemBytes)
    ensures Verdict(nodes, smemBytes) == InvalidArgument
  {
    var base := StageContract(a, "m", "f", 0, 0, 0, []);
    nodes := map[a := NewNode(base), b := NewNode(base.(name := b, dependsOn := [a, a]))];
    var deps := DepsOf(nodes);
    var order := [a, b];
    forall i | 0 <= i < 2 ensures DepsBefore(deps, order, i) {
      assert order[..1] == [a];
    }
    TopologicalHasNoCycle(deps, order);
    assert deps[b][0] == deps[b][1];
    assert !Distinct(deps[b]);
  }
}
