/** The task graph executor: a class whose methods take the steps of `StageGraph`
    on its own stages, borrowing streams from the micro-kernel. */
module TaskGraphs {
  import opened Common
  import opened StageDag
  import opened StreamPool
  import opened MicroKernels
  import opened StageGraph

  ghost predicate LaunchedWith(g: GraphState, g': GraphState, s: Status) {
    exists k :: LaunchStep(g, k, g', s)
  }

  ghost predicate LaunchedOk(g: GraphState, g': GraphState) {
    LaunchedWith(g, g', Ok)
  }

  /** Consecutive states, each one successful launch after the other. */
  ghost predicate AllLaunchedOk(path: seq<GraphState>) {
    |path| > 0 && forall i | 0 < i < |path| :: LaunchedOk(path[i - 1], path[i])
  }

  lemma AllLaunchedOkAppend(path: seq<GraphState>, g: GraphState)
    requires AllLaunchedOk(path) && LaunchedOk(path[|path| - 1], g)
    ensures AllLaunchedOk(path + [g])
  {
  }

  lemma FailedLaunchEnds(path: seq<GraphState>, g: GraphState, s: Status, pool: Pool)
    requires AllLaunchedOk(path) && !s.Ok? && LaunchedWith(path[|path| - 1], g, s)
    ensures RunOutcome(path + [g], s, pool)
  {
    assert (path + [g])[..|path|] == path;
  }

  /** A launch of `k` is refused when the pool has no stream of its class. */
  ghost predicate NoStreamFor(nodes: Nodes, k: StageName, pool: Pool) {
    k in nodes && FreeList(pool, ClassFor(nodes[k].contract)) == []
  }

  ghost predicate Starved(nodes: Nodes, pool: Pool) {
    exists k :: IsReady(nodes, k) && NoStreamFor(nodes, k, pool)
  }

  /** How a run ended. Ok: every launch succeeded and nothing is ready any more.
      Otherwise the last launch failed with that status, or a ready stage found no
      stream and is still pending. */
  ghost predicate RunOutcome(path: seq<GraphState>, s: Status, pool: Pool)
    requires |path| > 0
  {
    var n := |path|;
    if s.Ok? then
      AllLaunchedOk(path) && NothingReady(path[n - 1].nodes)
    else
      || (AllLaunchedOk(path) && s == OutOfMemory && Starved(path[n - 1].nodes, pool))
      || (n > 1 && AllLaunchedOk(path[..n - 1]) && LaunchedWith(path[n - 2], path[n - 1], s))
  }

  ghost function PendingOf(nodes: Nodes): set<StageName> {
    set k | k in nodes && nodes[k].state == Pending
  }

  class TaskGraph {
    const kernel: MicroKernel
    const smemPerSmBytes: nat
    /** The readings of the clock, whatever they are, in order. */
    const ticks: nat -> nat
    var readings: nat
    var nodes: Nodes
    var validated: bool
    var clock: nat
    ghost var started: seq<StageName>

    ghost function State(): GraphState
      reads this
    {
      GraphState(nodes, validated, started, clock)
    }

    ghost predicate Valid()
      reads this, kernel
    {
      Inv(State(), smemPerSmBytes) && kernel.Valid()
    }

    constructor (kernel: MicroKernel, smemPerSmBytes: nat, ticks: nat -> nat)
      requires kernel.Valid()
      ensures Valid() && State() == EMPTY_GRAPH
      ensures this.kernel == kernel && this.smemPerSmBytes == smemPerSmBytes && this.ticks == ticks
    {
      this.kernel := kernel;
      this.ticks, readings := ticks, 0;
      this.smemPerSmBytes := smemPerSmBytes;
      nodes, validated, clock, started := map[], false, 0, [];
      EmptyInv(smemPerSmBytes);
    }

    /** A reading of the monotonic clock. */
    method Now() returns (t: nat)
      modifies this`clock, this`readings
      ensures t == clock == Max(old(clock), ticks(old(readings))) && readings == old(readings) + 1
    {
      clock := Max(clock, ticks(readings));
      readings := readings + 1;
      t := clock;
    }

    method AddStage(c: StageContract) returns (s: Status)
      requires Valid()
      modifies this
      ensures Valid() && AddStep(old(State()), c, State(), s)
      ensures s == if c.name.text == "" || c.name in old(nodes) then InvalidArgument else Ok
      ensures s != Ok ==> State() == old(State())
      ensures s == Ok ==>
                && nodes.Keys == old(nodes.Keys) + {c.name} && (forall k | k in old(nodes) :: nodes[k] == old(nodes)[k])
                && nodes[c.name] == StageNode(c, Pending, 0, 0, 0, Ok) && !validated && started == old(started)
    {
      if c.name.text == "" { return InvalidArgument; }
      if c.name in nodes { return InvalidArgument; }
      nodes := nodes[c.name := NewNode(c)];
      validated := false;
      s := Ok;
      AddKeepsInv(old(State()), smemPerSmBytes, c, State(), s);
    }

    /** Do all named dependencies exist? */
    method CheckDependencies() returns (b: bool)
      ensures b <==> AllDepsExist(DepsOf(nodes))
    {
      var todo := nodes.Keys;
      while todo != {}
        invariant todo <= nodes.Keys
        invariant forall k, d | k in nodes && k !in todo && d in nodes[k].contract.dependsOn :: d in nodes
        decreases todo
      {
        var k :| k in todo;
        todo := todo - {k};
        var list := nodes[k].contract.dependsOn;
        for i := 0 to |list|
          invariant forall j | 0 <= j < i :: list[j] in nodes
        {
          if list[i] !in nodes {
            assert DepsOf(nodes)[k][i] !in DepsOf(nodes);
            return false;
          }
        }
      }
      b := true;
    }

    method CheckFootprints() returns (b: bool)
      ensures b <==> FootprintsFit(nodes, smemPerSmBytes)
    {
      var todo := nodes.Keys;
      while todo != {}
        invariant todo <= nodes.Keys
        invariant forall k | k in nodes && k !in todo :: nodes[k].contract.smFootprintMb <= smemPerSmBytes / 1024
        decreases todo
      {
        var k :| k in todo;
        todo := todo - {k};
        if nodes[k].contract.smFootprintMb > smemPerSmBytes / 1024 {
          return false;
        }
      }
      b := true;
    }

    method Validate() returns (s: Status)
      requires Valid()
      modifies this
      ensures Valid() && ValidateStep(old(State()), smemPerSmBytes, State(), s)
    {
      var present := CheckDependencies();
      if !present { return InvalidArgument; }
      var deps := DepsOf(nodes);
      var visited := KahnVisited(deps);
      assert deps.Keys == nodes.Keys;
      if visited != |nodes.Keys| { return InvalidArgument; }
      var fits := CheckFootprints();
      if !fits { return ContractViolation; }
      validated := true;
      s := Ok;
      ValidateKeepsInv(old(State()), smemPerSmBytes, State(), s);
    }

    method ReadyToRun(k: StageName) returns (b: bool)
      requires k in nodes
      ensures b <==> IsReady(nodes, k)
    {
      if nodes[k].state != Pending { return false; }
      var list := nodes[k].contract.dependsOn;
      for i := 0 to |list|
        invariant forall j | 0 <= j < i :: list[j] in nodes && nodes[list[j]].state == Completed
      {
        if list[i] !in nodes { return false; }
        if nodes[list[i]].state != Completed { return false; }
      }
      b := true;
    }

    /** Submit a ready stage on stream `sh` and wait for it: InvalidArgument where its
        kernel is not loaded, and otherwise the platform's answer to the launch, or, when
        that is Ok, its answer to the wait. */
    method Execute(k: StageName, sh: StreamHandle) returns (s: Status)
      requires IsReady(nodes, k)
      modifies this, kernel`asked
      ensures LaunchStep(old(State()), k, State(), s) && nodes[k].stream == sh.raw
      ensures var c, loaded := nodes[k].contract, kernel.modules;
              if c.kernelModule !in loaded || c.entry !in loaded[c.kernelModule].functions then s == InvalidArgument
              else if kernel.device(old(kernel.asked)).s != Ok then s == kernel.device(old(kernel.asked)).s
              else s == kernel.device(old(kernel.asked) + 1).s
      ensures nodes[k].submitTs == Max(old(clock), ticks(old(readings)))
      ensures kernel.asked == old(kernel.asked) + 2 ==>
                nodes[k].completeTs == Max(nodes[k].submitTs, ticks(old(readings) + 1))
      ensures kernel.asked == old(kernel.asked)
                + if !kernel.Loaded(nodes[k].contract.kernelModule, nodes[k].contract.entry) then 0
                  else if kernel.device(old(kernel.asked)).s != Ok then 1 else 2
    {
      var t := Now();
      nodes := nodes[k := nodes[k].(stream := sh.raw, submitTs := t, state := Running)];
      s := kernel.Launch(nodes[k].contract.kernelModule, nodes[k].contract.entry);
      if !s.Ok? {
        nodes := nodes[k := nodes[k].(state := Failed, lastStatus := s)];
      } else {
        s := kernel.SyncStream();
        t := Now();
        if s.Ok? {
          nodes := nodes[k := nodes[k].(completeTs := t, state := Completed)];
        } else {
          nodes := nodes[k := nodes[k].(completeTs := t, state := Failed, lastStatus := s)];
        }
      }
      started := started + [k];
      assert nodes == old(nodes)[k := nodes[k]];
    }

    /** What running a stage comes to when the platform's next answer is number `asked`. */
    ghost function Answer(c: StageContract, asked: nat): Status
      reads kernel`modules
    {
      if !kernel.Loaded(c.kernelModule, c.entry) then InvalidArgument
      else if kernel.device(asked).s != Ok then kernel.device(asked).s
      else kernel.device(asked + 1).s
    }

    /** Launch one ready stage on the last free stream of a class and wait for it. The pool
        ends as it began on every path; without such a stream the stage stays as it was. */
    method LaunchOn(k: StageName, klass: StreamClass) returns (s: Status)
      requires Valid() && IsReady(nodes, k)
      modifies this, kernel
      ensures Valid() && validated == old(validated)
      ensures kernel.State() == old(kernel.State()) && kernel.modules == old(kernel.modules)
      ensures var l := FreeList(old(kernel.State()).pool, klass);
              if l == [] then s == OutOfMemory && State() == old(State())
              else
                && LaunchStep(old(State()), k, State(), s)
                && nodes[k].stream == l[|l| - 1].raw
                && s == Answer(old(nodes)[k].contract, old(kernel.asked))
    {
      var sh := kernel.AcquireStream(klass);
      if sh.id == 0 { return OutOfMemory; }
      s := RunAndRelease(k, klass, sh, old(kernel.State()));
    }

    /** With the stream in hand. */
    method RunAndRelease(k: StageName, klass: StreamClass, sh: StreamHandle, ghost before: PoolState)
        returns (s: Status)
      requires Valid() && IsReady(nodes, k)
      requires Conserved(before) && AcquireStep(before, klass, kernel.State(), sh)
      modifies this, kernel
      ensures Valid() && validated == old(validated)
      ensures kernel.State() == before && kernel.modules == old(kernel.modules)
      ensures LaunchStep(old(State()), k, State(), s) && nodes[k].stream == sh.raw
      ensures s == Answer(old(nodes)[k].contract, old(kernel.asked))
    {
      ghost var taken := kernel.State();
      s := Execute(k, sh);
      LaunchKeepsInv(old(State()), smemPerSmBytes, k, State(), s);
      kernel.ReleaseStream(sh);
      AcquireThenRelease(before, klass, taken, sh, kernel.State());
    }

    /** A stage goes to the last free DMA stream if its module is named for DMA and
        otherwise to the last free compute stream. */
    method Launch(k: StageName) returns (s: Status)
      requires Valid() && IsReady(nodes, k)
      modifies this, kernel
      ensures Valid() && validated == old(validated)
      ensures kernel.State() == old(kernel.State()) && kernel.modules == old(kernel.modules)
      ensures var m := old(nodes)[k].contract.kernelModule;
              var l := if NamesDma(m) then old(kernel.freeDma) else old(kernel.freeCompute);
              if l == [] then s == OutOfMemory && State() == old(State())
              else
                && k in nodes && nodes[k].stream == l[|l| - 1].raw
                && s == Answer(old(nodes)[k].contract, old(kernel.asked))
      ensures if NoStreamFor(old(nodes), k, old(kernel.State()).pool)
              then s == OutOfMemory && State() == old(State())
              else LaunchStep(old(State()), k, State(), s)
    {
      var klass := ClassFor(nodes[k].contract);
      ClassForIff(nodes[k].contract);
      s := LaunchOn(k, klass);
    }

    /** The launches so far all succeeded and lead from `path[0]` to the present. */
    ghost predicate Extends(path: seq<GraphState>)
      reads this
    {
      AllLaunchedOk(path) && path[|path| - 1] == State()
    }

    /** The turn of stage `k` in a sweep: launch it if it is ready. */
    method TakeTurn(k: StageName, ghost path0: seq<GraphState>)
        returns (launched: bool, s: Status, ghost path: seq<GraphState>)
      requires Valid() && Extends(path0) && k in nodes
      modifies this, kernel
      ensures Valid() && validated == old(validated) && kernel.State() == old(kernel.State())
      ensures path0 <= path && path[|path| - 1] == State() && nodes.Keys == old(nodes.Keys)
      ensures !launched ==> s.Ok? && path == path0 && State() == old(State()) && !IsReady(nodes, k)
      ensures launched && s.Ok? ==> Extends(path) && |PendingOf(nodes)| < |PendingOf(old(nodes))|
      ensures !s.Ok? ==> RunOutcome(path, s, kernel.State().pool)
    {
      path, launched, s := path0, false, Ok;
      var r := ReadyToRun(k);
      if r {
        launched := true;
        s, path := TakeReady(k, path0);
      }
    }

    method TakeReady(k: StageName, ghost path0: seq<GraphState>) returns (s: Status, ghost path: seq<GraphState>)
      requires Valid() && Extends(path0) && IsReady(nodes, k)
      modifies this, kernel
      ensures Valid() && validated == old(validated) && kernel.State() == old(kernel.State())
      ensures path0 <= path && path[|path| - 1] == State() && nodes.Keys == old(nodes.Keys)
      ensures s.Ok? ==> Extends(path) && |PendingOf(nodes)| < |PendingOf(old(nodes))|
      ensures !s.Ok? ==> RunOutcome(path, s, kernel.State().pool)
    {
      ghost var g := State();
      path := path0;
      s := Launch(k);
      if s.Ok? {
        assert LaunchedWith(g, State(), Ok);
        AllLaunchedOkAppend(path, State());
        path := path + [State()];
        FewerPending(g, k, State());
      } else if !NoStreamFor(g.nodes, k, kernel.State().pool) {
        assert LaunchedWith(g, State(), s);
        path := path0 + [State()];
        FailedLaunchEnds(path0, State(), s, kernel.State().pool);
      }
    }

    /** One pass over all stages in any order; it stops at the first launch that
        does not succeed. */
    method Sweep(ghost path0: seq<GraphState>)
        returns (progress: bool, s: Status, ghost path: seq<GraphState>)
      requires Valid() && Extends(path0)
      modifies this, kernel
      ensures Valid() && validated == old(validated) && kernel.State() == old(kernel.State())
      ensures path0 <= path && path[|path| - 1] == State()
      ensures s.Ok? ==> Extends(path)
      ensures s.Ok? && !progress ==> path == path0 && NothingReady(nodes)
      ensures s.Ok? && progress ==> |PendingOf(nodes)| < |PendingOf(old(nodes))|
      ensures !s.Ok? ==> RunOutcome(path, s, kernel.State().pool)
    {
      path, progress, s := path0, false, Ok;
      var todo := nodes.Keys;
      while todo != {}
        invariant Valid() && validated == old(validated) && todo <= nodes.Keys
        invariant kernel.State() == old(kernel.State())
        invariant path0 <= path && Extends(path) && s.Ok?
        invariant !progress ==> path == path0 && nodes == old(nodes)
        invariant !progress ==> forall k | k in nodes && k !in todo :: !IsReady(nodes, k)
        invariant progress ==> |PendingOf(nodes)| < |PendingOf(old(nodes))|
        decreases todo
      {
        var k :| k in todo;
        todo := todo - {k};
        var launched;
        launched, s, path := TakeTurn(k, path);
        if launched {
          progress := true;
          if !s.Ok? { return; }
        }
      }
    }

    /** The locked part of `run`: sweep until a sweep launches nothing or a launch
        does not succeed. It does not look at the validated flag. */
    method RunSweeps() returns (s: Status, ghost path: seq<GraphState>)
      requires Valid()
      modifies this, kernel
      ensures Valid() && validated == old(validated) && kernel.State() == old(kernel.State())
      ensures |path| > 0 && path[0] == old(State()) && path[|path| - 1] == State()
      ensures RunOutcome(path, s, kernel.State().pool)
    {
      path := [State()];
      ghost var start := State();
      var progress := true;
      while progress
        invariant Valid() && validated == old(validated)
        invariant kernel.State() == old(kernel.State())
        invariant Extends(path) && path[0] == start
        invariant !progress ==> NothingReady(nodes)
        decreases |PendingOf(nodes)|, progress
      {
        progress, s, path := Sweep(path);
        if !s.Ok? { return; }
      }
      s := Ok;
    }

    /** A run with no other client between its steps: test the flag, validate if it is
        not set, then sweep. */
    method Run() returns (s: Status, ghost path: seq<GraphState>)
      requires Valid()
      modifies this, kernel
      ensures Valid()
      ensures kernel.State() == old(kernel.State())
      ensures !old(validated) && !Verdict(old(nodes), smemPerSmBytes).Ok? ==>
                s == Verdict(old(nodes), smemPerSmBytes) && State() == old(State())
      ensures old(validated) || Verdict(old(nodes), smemPerSmBytes).Ok? ==>
                && validated
                && |path| > 0 && path[0] == old(State()).(validated := true) && path[|path| - 1] == State()
                && RunOutcome(path, s, kernel.State().pool)
    {
      path := [];
      if !validated {
        s := Validate();
        if !s.Ok? { return; }
      }
      s, path := RunSweeps();
    }

    lemma FewerPending(g: GraphState, k: StageName, g': GraphState)
      requires LaunchStep(g, k, g', Ok)
      ensures |PendingOf(g'.nodes)| < |PendingOf(g.nodes)|
    {
      assert PendingOf(g'.nodes) == PendingOf(g.nodes) - {k};
    }

    method Wait(name: StageName) returns (s: Status)
      ensures s == if name !in nodes then InvalidArgument
                   else if nodes[name].state == Completed then Ok
                   else if nodes[name].state == Failed then Aborted
                   else Timeout
    {
      if name !in nodes { return InvalidArgument; }
      var n := nodes[name];
      if n.state == Completed { return Ok; }
      if n.state == Failed { return Aborted; }
      s := Timeout;
    }

    method WaitAll() returns (s: Status)
      ensures s.Ok? <==> forall k | k in nodes :: nodes[k].state == Completed
      ensures s == Aborted ==> exists k :: k in nodes && nodes[k].state == Failed
      ensures s == Timeout ==> exists k :: k in nodes && nodes[k].state !in {Completed, Failed}
      ensures s in {Ok, Aborted, Timeout}
    {
      var todo := nodes.Keys;
      while todo != {}
        invariant todo <= nodes.Keys
        invariant forall k | k in nodes && k !in todo :: nodes[k].state == Completed
        decreases todo
      {
        var k :| k in todo;
        todo := todo - {k};
        s := Wait(k);
        if !s.Ok? { return; }
      }
      s := Ok;
    }

    /** The destructor hands back every stream pointer left in a stage under id 0,
        which the pool ignores: nothing changes. */
    method Destroy()
      modifies kernel
      ensures kernel.State() == old(kernel.State())
    {
      var todo := nodes.Keys;
      while todo != {}
        invariant todo <= nodes.Keys && kernel.State() == old(kernel.State())
        decreases todo
      {
        var k :| k in todo;
        todo := todo - {k};
        if nodes[k].stream != 0 {
          kernel.ReleaseStream(StreamHandle(0, nodes[k].stream, Compute, 0));
        }
      }
    }
  }

  /** A call another client may make. */
  datatype ClientCall = Add(c: StageContract) | Check | RunAll

  method OtherCall(t: TaskGraph, call: ClientCall)
    requires t.Valid()
    modifies t, t.kernel
    ensures t.Valid() && t.kernel.State() == old(t.kernel.State())
    ensures Later(old(t.State()), t.State())
    ensures !call.RunAll? ==> (NoneFailed(t.nodes) <==> NoneFailed(old(t.nodes)))
  {
    match call {
      case Add(c) =>
        var added := t.AddStage(c);
      case Check =>
        var verdict := t.Validate();
      case RunAll =>
        ghost var path;
        var ran;
        ran, path := t.Run();
        if path != [] && t.validated {
          OutcomeLater(path, ran, t.kernel.State().pool);
        }
    }
  }

  method OtherCalls(t: TaskGraph, calls: seq<ClientCall>)
    requires t.Valid()
    modifies t, t.kernel
    ensures t.Valid() && t.kernel.State() == old(t.kernel.State())
    ensures Later(old(t.State()), t.State())
    ensures (forall i | 0 <= i < |calls| :: !calls[i].RunAll?) ==> (NoneFailed(t.nodes) <==> NoneFailed(old(t.nodes)))
    ensures calls == [] ==> t.State() == old(t.State())
  {
    for i := 0 to |calls|
      invariant t.Valid() && t.kernel.State() == old(t.kernel.State())
      invariant Later(old(t.State()), t.State())
      invariant (forall j | 0 <= j < i :: !calls[j].RunAll?) ==> (NoneFailed(t.nodes) <==> NoneFailed(old(t.nodes)))
      invariant i == 0 ==> t.State() == old(t.State())
    {
      ghost var before := t.State();
      OtherCall(t, calls[i]);
      LaterTrans(old(t.State()), before, t.State());
    }
  }

  /** One client runs and waits, while others make any calls after the flag was tested
      and before the sweeps lock the graph, which is then `swept`. After an Ok run the
      wait succeeds exactly when that graph had no failed stage, all its dependencies and
      no cycle; and without other runs, no failed stage means none at the start. */
  method RunThenWait(t: TaskGraph, gap: seq<ClientCall>) returns (s: Status, w: Status, ghost swept: GraphState)
    requires t.Valid()
    modifies t, t.kernel
    ensures t.Valid() && t.kernel.State() == old(t.kernel.State())
    ensures Later(old(t.State()), swept)
    ensures (forall i | 0 <= i < |gap| :: !gap[i].RunAll?) ==>
              (NoneFailed(swept.nodes) <==> NoneFailed(old(t.nodes)))
    ensures s.Ok? ==> WaitsRight(t.nodes, swept.nodes, w)
    ensures s.Ok? && gap == [] ==> (w.Ok? <==> NoneFailed(old(t.nodes)))
  {
    swept, w := t.State(), Ok;
    if !t.validated {
      s := t.Validate();
      if !s.Ok? { return; }
    }
    OtherCalls(t, gap);
    swept := t.State();
    ghost var path;
    s, path := t.RunSweeps();
    w := t.WaitAll();
    if s.Ok? {
      OkRunRests(path, t.kernel.State().pool, w);
    }
  }

  /** What a wait answers for the graph `nodes` that a run left of `swept`. */
  ghost predicate WaitsRight(nodes: Nodes, swept: Nodes, w: Status) {
    && (forall k | k in nodes :: nodes[k].state == Completed <==> !Blocked(nodes, k))
    && (w.Ok? <==> NoneFailed(swept) && AllDepsExist(DepsOf(swept)) && !HasCycle(DepsOf(swept)))
  }

  lemma OkRunRests(path: seq<GraphState>, pool: Pool, w: Status)
    requires |path| > 0 && RunOutcome(path, Ok, pool)
    requires var g := path[|path| - 1];
             && Settled(g.nodes) && LoggedOnce(g) && InOrder(g)
             && (w.Ok? <==> forall k | k in g.nodes :: g.nodes[k].state == Completed)
    ensures WaitsRight(path[|path| - 1].nodes, path[0].nodes, w)
  {
    var g := path[|path| - 1];
    OkRunFailsNothing(path, |path| - 1);
    assert DepsOf(g.nodes) == DepsOf(path[0].nodes);
    assert NoneFailed(g.nodes) <==> NoneFailed(path[0].nodes);
    RestExactly(g);
    RestIsCompletion(g);
  }

  ghost predicate NewlyFailed(path: seq<GraphState>, k: StageName)
    requires |path| > 0
  {
    var first, last := path[0].nodes, path[|path| - 1].nodes;
    k in first && first[k].state != Failed && k in last && last[k].state == Failed
  }

  /** An Ok run fails no stage; any other stops at the first stage that fails, whose status
      it answers, or at a ready stage for which there is no stream. */
  lemma RunStopsAtFailure(path: seq<GraphState>, s: Status, pool: Pool)
    requires |path| > 0 && RunOutcome(path, s, pool)
    ensures s == Ok ==> forall k :: !NewlyFailed(path, k)
    ensures forall j, k | NewlyFailed(path, j) && NewlyFailed(path, k) :: j == k
    ensures forall k | NewlyFailed(path, k) :: path[|path| - 1].nodes[k].lastStatus == s
    ensures s != Ok && (forall k :: !NewlyFailed(path, k)) ==>
              s == OutOfMemory && Starved(path[|path| - 1].nodes, pool)
  {
    var n := |path|;
    if AllLaunchedOk(path) {
      OkRunFailsNothing(path, n - 1);
    } else {
      OkRunFailsNothing(path[..n - 1], n - 2);
      var k :| LaunchStep(path[n - 2], k, path[n - 1], s);
      LaunchOutcome(path[n - 2], k, path[n - 1], s);
      assert NewlyFailed(path, k);
    }
  }

  lemma OutcomeLater(path: seq<GraphState>, s: Status, pool: Pool)
    requires |path| > 0 && RunOutcome(path, s, pool)
    ensures Later(path[0], path[|path| - 1])
  {
    var n := |path|;
    if AllLaunchedOk(path) {
      OkRunLater(path, n - 1);
    } else {
      OkRunLater(path[..n - 1], n - 2);
      LaunchLater(path[n - 2], path[n - 1], s);
      LaterTrans(path[0], path[n - 2], path[n - 1]);
    }
  }

  lemma LaunchLater(g: GraphState, g': GraphState, s: Status)
    requires LaunchedWith(g, g', s)
    ensures Later(g, g')
  {
  }

  lemma {:induction false} OkRunLater(path: seq<GraphState>, i: nat)
    requires i < |path| && AllLaunchedOk(path)
    ensures Later(path[0], path[i])
  {
    if i > 0 {
      OkRunLater(path, i - 1);
      assert LaunchedOk(path[i - 1], path[i]);
      LaunchLater(path[i - 1], path[i], Ok);
      LaterTrans(path[0], path[i - 1], path[i]);
    }
  }

  ghost predicate NoneFailed(nodes: Nodes) {
    forall k | k in nodes :: nodes[k].state != Failed
  }

  lemma {:induction false} OkRunFailsNothing(path: seq<GraphState>, i: nat)
    requires i < |path|
    requires AllLaunchedOk(path)
    ensures path[i].nodes.Keys == path[0].nodes.Keys
    ensures forall k | k in path[0].nodes :: path[i].nodes[k].contract == path[0].nodes[k].contract
    ensures forall k | k in path[0].nodes :: path[i].nodes[k].state == Failed <==> path[0].nodes[k].state == Failed
  {
    if i > 0 {
      OkRunFailsNothing(path, i - 1);
      assert LaunchedOk(path[i - 1], path[i]);
      var k :| LaunchStep(path[i - 1], k, path[i], Ok);
    }
  }
}
