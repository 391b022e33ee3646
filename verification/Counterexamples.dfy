/** Concrete runs in which the code does not do what it promises; the conditions that
    tell exactly when are with the state each one is about. First, task graph runs. */
module SchedulerCounterexamples {
  import opened Common
  import opened StageDag
  import opened StreamPool
  import opened StageGraph
  import opened TaskGraphs

  const A := StageName("a")
  const B := StageName("b")
  const C := StageName("c")

  function Stage(name: StageName, deps: seq<StageName>): StageContract {
    StageContract(name, "m", "f", 0, 0, 0, deps)
  }

  ghost function Added(g: GraphState, c: StageContract): GraphState {
    g.(nodes := g.nodes[c.name := NewNode(c)], validated := false)
  }

  /** Stage `k` launched at time 0, with status `s`. */
  ghost function Launched(g: GraphState, k: StageName, s: Status): GraphState
    requires k in g.nodes
  {
    var n := g.nodes[k];
    g.(nodes := g.nodes[k := if s.Ok? then n.(state := Completed) else n.(state := Failed, lastStatus := s)],
       started := g.started + [k])
  }

  /** A run over a graph at rest launches nothing and answers Ok. */
  lemma RestRunIsOk(path: seq<GraphState>, s: Status, pool: Pool)
    requires |path| > 0 && NothingReady(path[0].nodes) && RunOutcome(path, s, pool)
    ensures s == Ok && path == [path[0]]
  {
    if |path| > 1 {
      RestLaunchesNothing(path[0], path[1], Ok);
      RestLaunchesNothing(path[0], path[1], s);
      assert false;
    }
  }

  lemma RestLaunchesNothing(g: GraphState, g': GraphState, s: Status)
    requires NothingReady(g.nodes)
    ensures !LaunchedWith(g, g', s)
  {
  }

  lemma AddedIsStep(g: GraphState, c: StageContract, smemBytes: nat)
    requires c.name.text != "" && c.name !in g.nodes
    ensures GraphStep(g, smemBytes, Added(g, c))
  {
    assert AddStep(g, c, Added(g, c), Ok);
  }

  lemma LaunchedIsStep(g: GraphState, k: StageName, s: Status, smemBytes: nat)
    requires IsReady(g.nodes, k) && g.now == 0 && g.nodes[k].submitTs == 0 && g.nodes[k].completeTs == 0
    ensures LaunchStep(g, k, Launched(g, k, s), s) && GraphStep(g, smemBytes, Launched(g, k, s))
  {
    assert LaunchStep(g, k, Launched(g, k, s), s);
    assert Launches(g, Launched(g, k, s));
  }

  /** Stage a alone, or with a stage b depending on it, is validated. */
  lemma SmallIsAccepted(nodes: Nodes, smemBytes: nat)
    requires nodes == map[A := NewNode(Stage(A, []))]
          || nodes == map[A := NewNode(Stage(A, [])), B := NewNode(Stage(B, [A]))]
    ensures Verdict(nodes, smemBytes) == Ok
  {
    var deps, order := DepsOf(nodes), [A, B];
    if B in nodes {
      forall i | 0 <= i < 2 ensures DepsBefore(deps, order, i) {
        assert order[..1] == [A];
      }
      TopologicalHasNoCycle(deps, order);
    } else {
      assert DepsBefore(deps, [A], 0);
      TopologicalHasNoCycle(deps, [A]);
    }
  }

  lemma ValidatedIsStep(g: GraphState, smemBytes: nat)
    requires Verdict(g.nodes, smemBytes) == Ok
    ensures GraphStep(g, smemBytes, g.(validated := true))
  {
    assert ValidateStep(g, smemBytes, g.(validated := true), Ok);
  }

  /** Stage b depends on a, and the launch of a fails in the first run. The second run
      launches nothing and answers Ok with neither stage completed. */
  lemma SecondRunAnswersOk(smemBytes: nat) returns (h: seq<GraphState>)
    ensures IsHistory(h, smemBytes) && |h| == 5 && h[4].validated
    ensures LaunchStep(h[3], A, h[4], DriverError)
    ensures forall path, s, pool | |path| > 0 && path[0] == h[4] && RunOutcome(path, s, pool) ::
              s == Ok && path == [h[4]]
    ensures h[4].nodes.Keys == {A, B} && forall k | k in h[4].nodes :: h[4].nodes[k].state != Completed
  {
    var g1 := Added(EMPTY_GRAPH, Stage(A, []));
    var g2 := Added(g1, Stage(B, [A]));
    var g3 := g2.(validated := true);
    var g4 := Launched(g3, A, DriverError);
    h := [EMPTY_GRAPH, g1, g2, g3, g4];
    AddedIsStep(EMPTY_GRAPH, Stage(A, []), smemBytes);
    AddedIsStep(g1, Stage(B, [A]), smemBytes);
    SmallIsAccepted(g2.nodes, smemBytes);
    ValidatedIsStep(g2, smemBytes);
    LaunchedIsStep(g3, A, DriverError, smemBytes);
    FiveSteps(h, smemBytes);
    WaitsForFailed(g4.nodes);
    forall path, s, pool | |path| > 0 && path[0] == h[4] && RunOutcome(path, s, pool)
      ensures s == Ok && path == [h[4]]
    {
      RestRunIsOk(path, s, pool);
    }
  }

  lemma WaitsForFailed(nodes: Nodes)
    requires nodes.Keys == {A, B} && nodes[A].state == Failed && nodes[B].contract.dependsOn == [A]
    ensures NothingReady(nodes)
  {
    assert nodes[B].contract.dependsOn[0] == A;
  }

  lemma FiveSteps(h: seq<GraphState>, smemBytes: nat)
    requires |h| == 5 && h[0] == EMPTY_GRAPH
    requires GraphStep(h[0], smemBytes, h[1]) && GraphStep(h[1], smemBytes, h[2])
    requires GraphStep(h[2], smemBytes, h[3]) && GraphStep(h[3], smemBytes, h[4])
    ensures IsHistory(h, smemBytes)
  {
  }

  /** A run finds the flag set; before it sweeps, another client adds a stage with a
      missing dependency. The run answers Ok, nothing has failed, and that stage is
      still pending. */
  lemma GapRunAnswersOk(smemBytes: nat) returns (h: seq<GraphState>)
    ensures IsHistory(h, smemBytes) && |h| == 5 && h[2].validated && !h[3].validated
    ensures forall pool :: RunOutcome(h[3..], Ok, pool)
    ensures forall k | k in h[4].nodes :: h[4].nodes[k].state != Failed
    ensures B in h[4].nodes && h[4].nodes[B].state == Pending
  {
    var g1 := Added(EMPTY_GRAPH, Stage(A, []));
    var g2 := g1.(validated := true);
    var g3 := Added(g2, Stage(B, [C]));
    var g4 := Launched(g3, A, Ok);
    h := [EMPTY_GRAPH, g1, g2, g3, g4];
    AddedIsStep(EMPTY_GRAPH, Stage(A, []), smemBytes);
    SmallIsAccepted(g1.nodes, smemBytes);
    ValidatedIsStep(g1, smemBytes);
    AddedIsStep(g2, Stage(B, [C]), smemBytes);
    LaunchedIsStep(g3, A, Ok, smemBytes);
    FiveSteps(h, smemBytes);
    assert h[3..] == [g3, g4] && LaunchedOk(g3, g4);
    assert A.text[0] != C.text[0] && B.text[0] != C.text[0];
    assert g4.nodes[B].contract.dependsOn[0] == C && C !in g4.nodes;
  }
}

/** Calls of the page table that map too much, too little, or askew, and a hint that
    does not keep its page. */
module PageTableCounterexamples {
  import opened Common
  import opened PageTables
  import opened PinHistory

  /** Mapping the topmost page maps nothing. */
  lemma TopPageUnmapped(t: Table, phys: Word, t': Table)
    requires MapStep(t, U64 - 65536, 65536, Hbm, phys, 64, t')
    ensures U64 - 65536 in Meeting(U64 - 65536, 65536, 64)
    ensures t' == t
  {
    var top := U64 - 65536;
    assert IsPage(top, 64);
    assert Covered(top, 65536, 64) == {};
  }

  /** Mapping nothing at address 1 maps the page at 0. */
  lemma EmptyRangeMaps(t: Table, phys: Word, t': Table)
    requires MapStep(t, 1, 0, Hbm, phys, 64, t')
    ensures Meeting(1, 0, 64) == {} && 0 in t' && t'[0].residency == Hbm
  {
    assert 0 in Covered(1, 0, 64);
  }

  /** One byte mapped at address 1 to backing address 0 is found at 1. */
  lemma UnalignedIsOff(t: Table, t': Table)
    requires MapStep(t, 1, 1, Hbm, 0, 64, t')
    ensures Translate(t', 1, 64) == Some(1)
  {
    assert 0 in Covered(1, 1, 64);
  }

  ghost function Page(res: Residency, fetches: nat): Table {
    map[0 := PageEntry(0, 0, 64, 0, res, 0, fetches)]
  }

  /** A page allocated under the read-mostly hint, which maps it twice, is spilled by the
      next eviction from full. */
  lemma HintedPageSpilled() returns (tables: seq<Table>, events: seq<PtEvent>)
    ensures IsHistory(tables, events, 64) && |events| == 3
    ensures events[0].op == events[1].op == MapRange(0, 65536, Hbm, 0) && events[2].op == EvictUntil(0, 0, Lru)
    ensures tables[2] == Page(Hbm, 1) && tables[3] == Page(Spilled, 2)
  {
    var maps, evicts := PtEvent(MapRange(0, 65536, Hbm, 0), Ok, 0, 0), PtEvent(EvictUntil(0, 0, Lru), Ok, 0, 0);
    var t1, t3 := Page(Hbm, 1), Page(Spilled, 2);
    tables, events := [map[], t1, t1, t3], [maps, maps, evicts];
    HintSteps(maps);
    SpillStep(evicts);
    ThreeEvents(map[], t1, t1, t3, maps, maps, evicts);
  }

  lemma HintSteps(e: PtEvent)
    requires e == PtEvent(MapRange(0, 65536, Hbm, 0), Ok, 0, 0)
    ensures PtStep(map[], 64, e, Page(Hbm, 1)) && PtStep(Page(Hbm, 1), 64, e, Page(Hbm, 1))
  {
    assert Covered(0, 65536, 64) == {0};
  }

  lemma SpillStep(e: PtEvent)
    requires e == PtEvent(EvictUntil(0, 0, Lru), Ok, 0, 0)
    ensures PtStep(Page(Hbm, 1), 64, e, Page(Spilled, 2))
  {
    assert Unpinned(Page(Hbm, 1)) == {0};
    EvictAll(Page(Hbm, 1));
    assert Spill(Page(Hbm, 1), {0}) == Page(Spilled, 2);
  }

  lemma ThreeEvents(t0: Table, t1: Table, t2: Table, t3: Table, e0: PtEvent, e1: PtEvent, e2: PtEvent)
    requires t0 == map[] && PtStep(t0, 64, e0, t1) && PtStep(t1, 64, e1, t2) && PtStep(t2, 64, e2, t3)
    requires e0.now <= e1.from && e1.now <= e2.from && e0.now <= e2.from
    ensures IsHistory([t0, t1, t2, t3], [e0, e1, e2], 64)
  {
  }
}

/** Runs of the memory manager after which its books disagree. */
module MemoryCounterexamples {
  import opened Common
  import opened PageTables
  import opened PinHistory
  import opened MemoryLedger

  const NO_HINTS := AllocHints(false, false, false, false, false)
  const NO_RECORD := Allocation(0, 0, NO_HINTS, 0, false)

  /** A manager with nothing allocated. */
  ghost function EmptyMem(compressing: bool): Mem {
    Mem(map[], map[], 0, Ilc(compressing, compressing, {}))
  }

  /** The allocation of one 64 KB page at address 64 KB. */
  ghost function OnePage(hints: AllocHints, tagged: bool): Allocation {
    Allocation(65536, 65536, hints, 65536, tagged)
  }

  ghost function PageTable(refcount: nat): Table {
    map[65536 := PageEntry(65536, 65536, 64, refcount, Hbm, 0, 1)]
  }

  lemma OnePageCovered()
    ensures Covered(65536, 65536, 64) == {65536}
    ensures forall hints, tagged :: PagesOf(OnePage(hints, tagged), 64) == {65536}
  {
  }

  /** What allocating that page on an empty manager leads to. */
  ghost function WithPage(compressing: bool, hints: AllocHints, tagged: bool): Mem {
    Mem(PageTable(0), map[65536 := OnePage(hints, tagged)], 65536,
        Ilc(compressing, compressing, if compressing && hints.ilc && tagged then {65536} else {}))
  }

  lemma AllocPage(compressing: bool, hints: AllocHints, out0: Allocation, tagged: bool)
    requires !(compressing && hints.ilc) ==> tagged == out0.ilcTagged
    ensures AllocOkStep(EmptyMem(compressing), 65536, hints, out0, 64,
                        WithPage(compressing, hints, tagged), OnePage(hints, tagged))
  {
    OnePageCovered();
  }

  /** The first call of the runs below. */
  ghost function First(hints: AllocHints, tagged: bool): MemOp {
    Alloc(65536, hints, NO_RECORD, OnePage(hints, tagged))
  }

  lemma FirstAgrees(compressing: bool, hints: AllocHints, tagged: bool)
    requires !(compressing && hints.ilc) ==> !tagged
    ensures MemStep(EmptyMem(compressing), 64, First(hints, tagged), WithPage(compressing, hints, tagged))
    ensures Agree(EmptyMem(compressing), 64) && Agree(WithPage(compressing, hints, tagged), 64)
  {
    EmptyAgrees(EmptyMem(compressing), 64);
    AllocPage(compressing, hints, NO_RECORD, tagged);
    AllocAgreesIff(EmptyMem(compressing), 65536, hints, NO_RECORD, 64,
                   WithPage(compressing, hints, tagged), OnePage(hints, tagged));
  }

  lemma TwoCalls(m0: Mem, op0: MemOp, m1: Mem, op1: MemOp, m2: Mem)
    requires Match(m0, 64) && MemStep(m0, 64, op0, m1) && MemStep(m1, 64, op1, m2)
    ensures IsMemRun([m0, m1, m2], [op0, op1], 64)
  {
  }

  lemma ThreeCalls(m0: Mem, op0: MemOp, m1: Mem, op1: MemOp, m2: Mem, op2: MemOp, m3: Mem)
    requires Match(m0, 64) && MemStep(m0, 64, op0, m1) && MemStep(m1, 64, op1, m2) && MemStep(m2, 64, op2, m3)
    ensures IsMemRun([m0, m1, m2, m3], [op0, op1, op2], 64)
  {
  }

  /** An allocation pinned by `incref` and then freed by its own record: `free` answers
      Ok, and the page stays mapped with no live allocation to own it. */
  lemma FreeOfPinned() returns (m: seq<Mem>, ops: seq<MemOp>)
    ensures IsMemRun(m, ops, 64) && Agree(m[0], 64) && m[0].table == map[]
    ensures ops == [First(NO_HINTS, false), Pages(PtEvent(Incref(65536), Ok, 0, 0)), Free(OnePage(NO_HINTS, false), Ok)]
    ensures Agree(m[2], 64) && !Match(m[3], 64) && m[3].live == map[] && m[3].table != map[]
  {
    var m0, m1 := EmptyMem(false), WithPage(false, NO_HINTS, false);
    m := [m0, m1, PinnedMem(), OrphanMem()];
    ops := [First(NO_HINTS, false), Pages(PtEvent(Incref(65536), Ok, 0, 0)), Free(OnePage(NO_HINTS, false), Ok)];
    PinnedSteps();
    ThreeCalls(m0, ops[0], m1, ops[1], PinnedMem(), ops[2], OrphanMem());
  }

  ghost function PinnedMem(): Mem {
    WithPage(false, NO_HINTS, false).(table := PageTable(1))
  }

  ghost function OrphanMem(): Mem {
    PinnedMem().(live := map[], bytes := 0)
  }

  lemma PinnedSteps()
    ensures Agree(EmptyMem(false), 64) && Agree(PinnedMem(), 64) && !Match(OrphanMem(), 64)
    ensures MemStep(EmptyMem(false), 64, First(NO_HINTS, false), WithPage(false, NO_HINTS, false))
    ensures MemStep(WithPage(false, NO_HINTS, false), 64, Pages(PtEvent(Incref(65536), Ok, 0, 0)), PinnedMem())
    ensures MemStep(PinnedMem(), 64, Free(OnePage(NO_HINTS, false), Ok), OrphanMem())
  {
    FirstAgrees(false, NO_HINTS, false);
    PinPage(WithPage(false, NO_HINTS, false), PinnedMem());
    FreePinned(PinnedMem(), OrphanMem(), OnePage(NO_HINTS, false));
  }

  lemma PinPage(m: Mem, m': Mem)
    requires Agree(m, 64) && m.table == PageTable(0) && m' == m.(table := PageTable(1))
    ensures Agree(m', 64) && MemStep(m, 64, Pages(PtEvent(Incref(65536), Ok, 0, 0)), m')
  {
    PagesMatchIff(m, 64, PtEvent(Incref(65536), Ok, 0, 0), m');
  }

  lemma FreePinned(m: Mem, m': Mem, a: Allocation)
    requires Agree(m, 64) && m.table == PageTable(1) && m.bytes == 65536
    requires a == OnePage(NO_HINTS, false) && m.live == map[65536 := a]
    requires m' == m.(live := map[], bytes := 0)
    ensures FreeStep(m, a, 64, m', Ok) && !Match(m', 64)
  {
    OnePageCovered();
    PinnedUnmap();
    assert m.live - {65536} == map[];
    FreeAgreesIff(m, a, 64, m');
    assert Unshared(m', 64);
  }

  lemma PinnedUnmap()
    ensures PinnedIn(PageTable(1), {65536}) == {65536}
    ensures UnmapStep(PageTable(1), 65536, 65536, 64, PageTable(1), ContractViolation)
  {
    OnePageCovered();
    assert PinnedIn(PageTable(1), {65536}) == {65536};
    assert Removable(PageTable(1), {65536}) == {};
  }

  lemma PlainUnmap()
    ensures UnmapStep(PageTable(0), 65536, 65536, 64, map[], Ok)
  {
    OnePageCovered();
    assert PinnedIn(PageTable(0), {65536}) == {};
    assert PageTable(0) - Removable(PageTable(0), {65536}) == map[];
  }

  /** The device refuses a free: the allocation is live, and its page is gone. */
  lemma RefusedFree() returns (m: seq<Mem>, ops: seq<MemOp>)
    ensures IsMemRun(m, ops, 64) && Agree(m[0], 64) && m[0].table == map[]
    ensures ops == [First(NO_HINTS, false), Free(OnePage(NO_HINTS, false), DriverError)]
    ensures Agree(m[1], 64) && !Match(m[2], 64) && 65536 in m[2].live && m[2].table == map[]
  {
    var a := OnePage(NO_HINTS, false);
    var m0, m1 := EmptyMem(false), WithPage(false, NO_HINTS, false);
    var m2 := m1.(table := map[]);
    m, ops := [m0, m1, m2], [First(NO_HINTS, false), Free(a, DriverError)];
    FirstAgrees(false, NO_HINTS, false);
    PlainUnmap();
    OnePageCovered();
    assert LiveOwns(m2, 64, 65536, 65536);
    TwoCalls(m0, First(NO_HINTS, false), m1, Free(a, DriverError), m2);
  }

  /** The record the C wrapper builds holds the pointer and size zero: the free answers
      Ok, the bytes stay counted and the page stays mapped. */
  lemma FreeBySizeZero() returns (m: seq<Mem>, ops: seq<MemOp>)
    ensures IsMemRun(m, ops, 64) && Agree(m[0], 64) && m[0].table == map[]
    ensures ops == [First(NO_HINTS, false), Free(OnePage(NO_HINTS, false).(bytes := 0), Ok)]
    ensures Agree(m[1], 64) && !Match(m[2], 64) && m[2].live == map[] && m[2].bytes == 65536 && m[2].table != map[]
  {
    var m0, m1 := EmptyMem(false), WithPage(false, NO_HINTS, false);
    var m2, free := m1.(live := map[]), Free(OnePage(NO_HINTS, false).(bytes := 0), Ok);
    m, ops := [m0, m1, m2], [First(NO_HINTS, false), free];
    FirstAgrees(false, NO_HINTS, false);
    SizeZeroStep(m1, m2);
    TwoCalls(m0, First(NO_HINTS, false), m1, free, m2);
  }

  lemma SizeZeroStep(m: Mem, m': Mem)
    requires Match(m, 64) && m == WithPage(false, NO_HINTS, false) && m' == m.(live := map[])
    ensures MemStep(m, 64, Free(OnePage(NO_HINTS, false).(bytes := 0), Ok), m') && !Match(m', 64)
  {
    NothingUnmapped(m.table);
    assert m.live - {65536} == map[];
    WrongSizeDisagrees(m, OnePage(NO_HINTS, false).(bytes := 0), 64, m');
  }

  lemma NothingUnmapped(t: Table)
    ensures UnmapStep(t, 65536, 0, 64, t, Ok)
  {
    assert Covered(65536, 0, 64) == {};
    assert t - Removable(t, {}) == t;
  }

  /** Compression is disabled under a compressed allocation: its record still says it is
      tagged. */
  lemma DisabledUnderTag() returns (m: seq<Mem>, ops: seq<MemOp>)
    ensures IsMemRun(m, ops, 64) && Agree(m[0], 64) && m[0].table == map[]
    ensures ops == [First(NO_HINTS.(ilc := true), true), Disable]
    ensures Agree(m[1], 64) && !Match(m[2], 64)
    ensures 65536 in m[2].live && m[2].live[65536].ilcTagged && m[2].ilc.tagged == {}
  {
    var hints := NO_HINTS.(ilc := true);
    var m0, m1 := EmptyMem(true), WithPage(true, hints, true);
    var m2 := m1.(ilc := Ilc(true, false, {}));
    m, ops := [m0, m1, m2], [First(hints, true), Disable];
    FirstAgrees(true, hints, true);
    DisableMatchesIff(m1, 64, m2);
    TwoCalls(m0, First(hints, true), m1, Disable, m2);
  }

  /** A compressed allocation is freed and its record reused for one that asks for no
      compression: the new record says it is tagged, and nothing is. */
  lemma ReusedRecord() returns (m: seq<Mem>, ops: seq<MemOp>)
    ensures IsMemRun(m, ops, 64) && Agree(m[0], 64) && m[0].table == map[]
    ensures var hints := NO_HINTS.(ilc := true);
            var a := OnePage(hints, true);
            ops == [First(hints, true), Free(a, Ok), Alloc(65536, NO_HINTS, a, OnePage(NO_HINTS, true))]
    ensures Agree(m[2], 64) && !Match(m[3], 64)
    ensures 65536 in m[3].live && m[3].live[65536].ilcTagged && m[3].ilc.tagged == {}
  {
    var hints := NO_HINTS.(ilc := true);
    var a1, a2 := OnePage(hints, true), OnePage(NO_HINTS, true);
    var m0, m1, m3 := EmptyMem(true), WithPage(true, hints, true), WithPage(true, NO_HINTS, true);
    var last := Alloc(65536, NO_HINTS, a1, a2);
    m, ops := [m0, m1, m0, m3], [First(hints, true), Free(a1, Ok), last];
    FirstAgrees(true, hints, true);
    PlainUnmap();
    assert m1.live - {65536} == map[] && m1.ilc.tagged - {65536} == {};
    AllocPage(true, NO_HINTS, a1, true);
    AllocMatchesIff(m0, 65536, NO_HINTS, a1, 64, m3, a2);
    ThreeCalls(m0, First(hints, true), m1, Free(a1, Ok), m0, last, m3);
  }

  // ---- Two allocations on one page ------------------------------------------

  /** 256 bytes at `p`. */
  ghost function Small(p: Word): Allocation {
    Allocation(p, 256, NO_HINTS, p, false)
  }

  ghost function SmallAlloc(p: Word): MemOp {
    Alloc(256, NO_HINTS, NO_RECORD, Small(p))
  }

  lemma SmallCovered()
    ensures PagesOf(Small(65536), 64) == {65536} && PagesOf(Small(65792), 64) == {65536}
  {
  }

  /** The page as the later of the two allocations maps it. */
  ghost function SharedTable(phys: Word): Table {
    map[65536 := PageEntry(65536, phys, 64, 0, Hbm, 0, 1)]
  }

  ghost function OneSmall(): Mem {
    Mem(SharedTable(65536), map[65536 := Small(65536)], 256, Ilc(false, false, {}))
  }

  ghost function TwoSmall(): Mem {
    Mem(SharedTable(65792), map[65536 := Small(65536), 65792 := Small(65792)], 512, Ilc(false, false, {}))
  }

  lemma SmallSteps()
    ensures MemStep(EmptyMem(false), 64, SmallAlloc(65536), OneSmall())
    ensures MemStep(OneSmall(), 64, SmallAlloc(65792), TwoSmall())
  {
    SmallCovered();
  }

  lemma SmallAllocs()
    ensures MemStep(EmptyMem(false), 64, SmallAlloc(65536), OneSmall())
    ensures MemStep(OneSmall(), 64, SmallAlloc(65792), TwoSmall())
    ensures Agree(EmptyMem(false), 64) && Match(TwoSmall(), 64)
  {
    SmallSteps();
    EmptyAgrees(EmptyMem(false), 64);
    SmallMatches(EmptyMem(false), 65536, OneSmall());
    SmallMatches(OneSmall(), 65792, TwoSmall());
  }

  lemma SmallMatches(m: Mem, p: Word, m': Mem)
    requires Match(m, 64) && p !in m.live && MemStep(m, 64, SmallAlloc(p), m')
    ensures Match(m', 64)
  {
    AllocMatchesIff(m, 256, NO_HINTS, NO_RECORD, 64, m', Small(p));
  }

  lemma FreeOfShared(m: Mem)
    requires m == Mem(map[], map[65792 := Small(65792)], 256, Ilc(false, false, {}))
    ensures MemStep(TwoSmall(), 64, Free(Small(65536), Ok), m)
  {
    SmallCovered();
    assert PinnedIn(SharedTable(65792), {65536}) == {};
    assert SharedTable(65792) - Removable(SharedTable(65792), {65536}) == map[];
    assert UnmapStep(TwoSmall().table, 65536, 256, 64, m.table, Ok);
    assert TwoSmall().live - {65536} == m.live;
  }

  /** Two small allocations lie on one page. Freeing the first by its own record answers
      Ok and unmaps the page under the second. */
  lemma SharedPageUnmapped() returns (m: seq<Mem>, ops: seq<MemOp>)
    ensures IsMemRun(m, ops, 64) && Agree(m[0], 64) && m[0].table == map[]
    ensures ops == [SmallAlloc(65536), SmallAlloc(65792), Free(Small(65536), Ok)]
    ensures Match(m[2], 64) && !Match(m[3], 64)
    ensures m[3].live == map[65792 := Small(65792)] && m[3].table == map[]
  {
    var m3 := Mem(map[], map[65792 := Small(65792)], 256, Ilc(false, false, {}));
    m := [EmptyMem(false), OneSmall(), TwoSmall(), m3];
    ops := [SmallAlloc(65536), SmallAlloc(65792), Free(Small(65536), Ok)];
    SmallAllocs();
    FreeOfShared(m3);
    SmallCovered();
    assert LiveOwns(m3, 64, 65792, 65536);
    ThreeCalls(EmptyMem(false), SmallAlloc(65536), OneSmall(), SmallAlloc(65792), TwoSmall(),
               Free(Small(65536), Ok), m3);
  }
}

/** Compression switched off inside an allocation: a run that no order of whole calls
    explains. */
module TagCounterexamples {
  import opened Common
  import opened PageTables
  import opened PinHistory
  import opened MemoryLedger
  import opened MemoryInterleaving
  import opened MemoryCounterexamples

  /** No whole call leaves tags in a disabled manager. */
  lemma WholeCallKeepsTags(m: Mem, kb: PageKb, op: MemOp, m': Mem)
    requires TagsNeedEnabled(m) && MemStep(m, kb, op, m')
    ensures TagsNeedEnabled(m')
  {
  }

  lemma {:induction false} WholeRunKeepsTags(run: seq<Mem>, ops: seq<MemOp>, kb: PageKb, i: nat)
    requires IsMemRun(run, ops, kb) && i < |run|
    ensures TagsNeedEnabled(run[i])
  {
    if i > 0 {
      WholeRunKeepsTags(run, ops, kb, i - 1);
      assert MemStepAt(run, ops, kb, i - 1);
      WholeCallKeepsTags(run[i - 1], kb, ops[i - 1], run[i]);
    }
  }

  /** The allocation under way, with the manager as `mem`. */
  ghost function Under(mem: Mem, tagged: bool, tagging: Tagging, mapped: bool): Shared {
    Shared(mem, map[65536 := Flight(NO_RECORD, OnePage(NO_HINTS.(ilc := true), tagged), tagging, mapped)], Idle)
  }

  ghost function RaceStates(): seq<Shared> {
    var m0 := EmptyMem(true);
    var off := m0.(ilc := Ilc(true, false, {}));
    var late := off.(ilc := Ilc(true, false, {65536}));
    var mapped := late.(table := PageTable(0));
    var live := mapped.(live := map[65536 := OnePage(NO_HINTS.(ilc := true), true)], bytes := 65536);
    [Shared(m0, map[], Idle),
     Under(m0, false, Untested, false),
     Under(m0, false, Passed(false), false),
     Under(off, false, Passed(false), false),
     Under(late, true, Tested(false), false),
     Under(mapped, true, Tested(false), true),
     Shared(live, map[], Idle)]
  }

  ghost function RaceOps(): seq<FineOp> {
    var hints := NO_HINTS.(ilc := true);
    [Reserve(NO_RECORD, OnePage(hints, false)), TestTag(65536, true), SwitchOff, InsertTag(65536),
     MapPages(65536, PtEvent(MapRange(65536, 65536, Hbm, 65536), Ok, 0, 0)), Commit(65536)]
  }

  ghost predicate RaceStep(i: nat)
    requires i < 6
  {
    RawStep(RaceStates()[i], 64, RaceOps()[i], RaceStates()[i + 1])
  }

  lemma RaceBegins()
    ensures RaceStep(0) && RaceStep(1) && RaceStep(2)
  {
    var x := RaceStates()[0];
    assert LiveOf(x) == map[];
  }

  lemma RaceEnds()
    ensures RaceStep(3) && RaceStep(4) && RaceStep(5)
  {
    OnePageCovered();
    assert RaceStates()[5].flights - {65536} == map[];
  }

  /** An allocation finds compression enabled, the manager is disabled, and then the
      allocation enters its tag. No run of whole calls ends in such a state. */
  lemma LateTag(run: seq<Mem>, ops: seq<MemOp>, kb: PageKb, i: nat)
    requires IsMemRun(run, ops, kb) && i < |run|
    ensures forall j | 0 <= j < 6 :: RaceStep(j)
    ensures Quiet(RaceStates()[0]) && Match(RaceStates()[0].mem, 64) && Quiet(RaceStates()[6])
    ensures RaceStates()[6].mem != run[i]
  {
    RaceBegins();
    RaceEnds();
    EmptyAgrees(EmptyMem(true), 64);
    WholeRunKeepsTags(run, ops, kb, i);
  }
}

/** Runs of the KV cache that leave its capacity or reach its second lock. */
module KvCounterexamples {
  import opened Common
  import Bits
  import opened KvPages

  /** Room for one page of one token; any band. */
  ghost predicate Tiny(cfg: KvConfig) {
    cfg.maxResident == 1 && cfg.pageSizeTokens == 1
  }

  lemma TokenIsPage(cfg: KvConfig, token: nat)
    requires Tiny(cfg) && token < U32
    ensures PageOf(token, cfg.pageSizeTokens) == token
  {
    assert Bits.Pow2(0) == 1;
    PageOfPow2(token, 0);
  }

  ghost function Admitted(kv: Kv, token: nat, w: real): Kv {
    Kv(kv.pages[token := KvPage(token, 0, w, true)], kv.resident + 1)
  }

  /** A touch that finds the page absent and room for it, or nothing to evict. */
  lemma PlainTouch(kv: Kv, cfg: KvConfig, token: nat, w: real)
    requires Tiny(cfg) && token < U32 && token !in kv.pages && w >= 0.0
    requires kv.resident >= 1 ==> Unpinned(kv.pages) == {}
    ensures TouchStep(kv, cfg, token, w, {}, Admitted(kv, token, w))
  {
    TokenIsPage(cfg, token);
    var noted := kv.pages[token := KvPage(token, 0, w, false)];
    assert Unpinned(noted) == Unpinned(kv.pages);
    assert Drop(noted, {}) == noted;
    assert noted[token := KvPage(token, 0, w, true)] == Admitted(kv, token, w).pages;
  }

  lemma TouchIsStep(kv: Kv, cfg: KvConfig, token: nat, w: real, gone: set<nat>, kv': Kv)
    requires TouchStep(kv, cfg, token, w, gone, kv')
    ensures KvStep(kv, cfg, Touch(token, w), kv')
  {
  }

  /** With the inner locking repaired: pinning the one resident page and touching
      another leaves two pages in a cache for one. */
  lemma PinnedOverflow(cfg: KvConfig, p: nat, q: nat) returns (states: seq<Kv>, ops: seq<KvOp>)
    requires Tiny(cfg) && p < U32 && q < U32 && p != q
    ensures IsRun(states, ops, cfg) && ops == [Touch(p, 1.0), Pin(p), Touch(q, 1.0)]
    ensures states[3].resident == 2 > cfg.maxResident
  {
    var one := Admitted(EMPTY_KV, p, 1.0);
    var pinned := Kv(map[p := KvPage(p, 1, 1.0, true)], 1);
    ops := [Touch(p, 1.0), Pin(p), Touch(q, 1.0)];
    states := [EMPTY_KV, one, pinned, Admitted(pinned, q, 1.0)];
    PlainTouch(EMPTY_KV, cfg, p, 1.0);
    TouchIsStep(EMPTY_KV, cfg, p, 1.0, {}, Admitted(EMPTY_KV, p, 1.0));
    TokenIsPage(cfg, p);
    assert KvStep(one, cfg, Pin(p), pinned);
    PlainTouch(pinned, cfg, q, 1.0);
    TouchIsStep(pinned, cfg, q, 1.0, {}, Admitted(pinned, q, 1.0));
    ThreeSteps(states, ops, cfg);
  }

  lemma ThreeSteps(states: seq<Kv>, ops: seq<KvOp>, cfg: KvConfig)
    requires |states| == 4 && |ops| == 3 && states[0] == EMPTY_KV
    requires KvStep(states[0], cfg, ops[0], states[1]) && KvStep(states[1], cfg, ops[1], states[2])
    requires KvStep(states[2], cfg, ops[2], states[3])
    ensures IsRun(states, ops, cfg)
  {
  }

  /** As written, two touches of different pages already bring that cache to the
      second locking of its mutex. */
  lemma SecondLock(cfg: KvConfig, p: nat, q: nat) returns (states: seq<Kv>, ops: seq<KvOp>)
    requires Tiny(cfg) && p < U32 && q < U32 && p != q
    ensures IsRun(states, ops, cfg) && ops == [Touch(p, 1.0)]
    ensures NeedsRoom(states[1], cfg, Touch(q, 1.0))
  {
    ops := [Touch(p, 1.0)];
    states := [EMPTY_KV, Admitted(EMPTY_KV, p, 1.0)];
    PlainTouch(EMPTY_KV, cfg, p, 1.0);
    TouchIsStep(EMPTY_KV, cfg, p, 1.0, {}, Admitted(EMPTY_KV, p, 1.0));
    TokenIsPage(cfg, q);
  }
}
