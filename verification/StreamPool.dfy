/** The micro-kernel's stream pool as a value: the three free lists, the id
    counter, and an account of where every stream ever created now is. */
module StreamPool {
  import opened Common

  datatype StreamClass = Compute | Dma | Fence | Control

  /** `raw` is the platform's stream pointer; 0 is the null pointer. */
  datatype StreamHandle = StreamHandle(id: nat, raw: nat, klass: StreamClass, priority: int)

  /** What `acquire_stream` returns when it has nothing to give. */
  const INVALID_HANDLE := StreamHandle(0, 0, Compute, 0)

  datatype Pool = Pool(
    compute: seq<StreamHandle>,
    dma: seq<StreamHandle>,
    fence: seq<StreamHandle>,
    nextId: nat)

  /** Every stream created, those now with clients, and those destroyed so far. */
  datatype Account = Account(
    spawned: set<StreamHandle>,
    held: multiset<StreamHandle>,
    destroyed: seq<StreamHandle>)

  datatype PoolState = PoolState(pool: Pool, account: Account)

  function FreeList(p: Pool, klass: StreamClass): seq<StreamHandle> {
    match klass
    case Compute => p.compute
    case Dma => p.dma
    case Fence => p.fence
    case Control => []
  }

  function WithFreeList(p: Pool, klass: StreamClass, l: seq<StreamHandle>): Pool {
    match klass
    case Compute => p.(compute := l)
    case Dma => p.(dma := l)
    case Fence => p.(fence := l)
    case Control => p
  }

  function AllFree(p: Pool): seq<StreamHandle> {
    p.compute + p.dma + p.fence
  }

  /** The three places together hold each stream created exactly once. */
  ghost predicate Balanced(s: PoolState) {
    multiset(AllFree(s.pool)) + s.account.held + multiset(s.account.destroyed) == multiset(s.account.spawned)
  }

  /** Ids are non-zero, already issued, and never shared. */
  ghost predicate IdsUnique(spawned: set<StreamHandle>, nextId: nat) {
    && (forall h | h in spawned :: 1 <= h.id < nextId && h.klass != Control)
    && (forall h, g | h in spawned && g in spawned && h.id == g.id :: h == g)
  }

  ghost predicate AllOfClass(l: seq<StreamHandle>, klass: StreamClass) {
    forall h | h in l :: h.klass == klass
  }

  ghost predicate Classified(p: Pool) {
    AllOfClass(p.compute, Compute) && AllOfClass(p.dma, Dma) && AllOfClass(p.fence, Fence)
  }

  /** Each stream created is in exactly one place: on the free list of its class,
      with one client, or destroyed. */
  ghost predicate Conserved(s: PoolState) {
    Balanced(s) && IdsUnique(s.account.spawned, s.pool.nextId) && Classified(s.pool) && s.pool.nextId > 0
  }

  // ---- Steps ----------------------------------------------------------------

  /** Take the last handle of the class list. */
  ghost predicate AcquireStep(s: PoolState, klass: StreamClass, s': PoolState, h: StreamHandle) {
    var l := FreeList(s.pool, klass);
    if l == [] then s' == s && h == INVALID_HANDLE
    else
      && h == l[|l| - 1]
      && s' == PoolState(WithFreeList(s.pool, klass, l[..|l| - 1]),
                         s.account.(held := s.account.held + multiset{h}))
  }

  /** Append to the list of the handle's class, whoever calls. Id 0 is ignored,
      and a Control handle is dropped. */
  ghost predicate ReleaseStep(s: PoolState, h: StreamHandle, s': PoolState) {
    if h.id == 0 then s' == s
    else s' == PoolState(WithFreeList(s.pool, h.klass, FreeList(s.pool, h.klass) + [h]),
                         s.account.(held := s.account.held - multiset{h}))
  }

  /** Destroy every free stream, class by class. */
  ghost predicate DrainStep(s: PoolState, s': PoolState) {
    s' == PoolState(Pool([], [], [], s.pool.nextId),
                    s.account.(destroyed := s.account.destroyed + AllFree(s.pool)))
  }

  /** Consecutive ids from `first`, all of one class and priority. */
  ghost predicate FreshRun(run: seq<StreamHandle>, first: nat, klass: StreamClass, priority: int) {
    forall i | 0 <= i < |run| :: run[i].id == first + i && run[i].klass == klass && run[i].priority == priority
  }

  predicate HasFenceStream(arch: Arch) {
    arch == Hopper || arch == Ampere || arch == Pascal || arch == Turing
  }

  /** A call of `spawn_stream_pool`: its arguments, its result, and the streams of
      each class it added. */
  datatype Spawn = Spawn(
    arch: Arch, nCompute: nat, nDma: nat, status: Status,
    c: seq<StreamHandle>, d: seq<StreamHandle>, f: seq<StreamHandle>)
  {
    function Fences(): nat {
      if HasFenceStream(arch) then 1 else 0
    }

    /** Streams are added class by class; creation stops at the first failure. */
    ghost predicate Ordered() {
      && |c| <= nCompute && |d| <= nDma && |f| <= Fences()
      && (d != [] ==> |c| == nCompute)
      && (f != [] ==> |c| == nCompute && |d| == nDma)
      && (status.Ok? <==> |c| == nCompute && |d| == nDma && |f| == Fences())
    }
  }

  /** The failed creation has used up an id of its own. */
  ghost predicate SpawnStep(s: PoolState, w: Spawn, s': PoolState) {
    && w.Ordered()
    && FreshRun(w.c, s.pool.nextId, Compute, 0)
    && FreshRun(w.d, s.pool.nextId + |w.c|, Dma, -1)
    && FreshRun(w.f, s.pool.nextId + |w.c| + |w.d|, Fence, 1)
    && s' == PoolState(
               Pool(s.pool.compute + w.c, s.pool.dma + w.d, s.pool.fence + w.f,
                    s.pool.nextId + |w.c| + |w.d| + |w.f| + (if w.status.Ok? then 0 else 1)),
               s.account.(spawned := s.account.spawned + Elems(w.c) + Elems(w.d) + Elems(w.f)))
  }

  /** Loading a module draws an id from the same counter. */
  ghost predicate DrawStep(s: PoolState, s': PoolState) {
    s' == s.(pool := s.pool.(nextId := s.pool.nextId + 1))
  }

  // ---- What each step keeps -------------------------------------------------

  lemma FreeListGrows(p: Pool, klass: StreamClass, l: seq<StreamHandle>, h: StreamHandle)
    requires klass != Control
    ensures multiset(AllFree(WithFreeList(p, klass, l + [h])))
         == multiset(AllFree(WithFreeList(p, klass, l))) + multiset{h}
    ensures WithFreeList(p, klass, FreeList(p, klass)) == p
  {
  }

  lemma InOnePlace(s: PoolState, h: StreamHandle)
    requires Balanced(s) && IdsUnique(s.account.spawned, s.pool.nextId) && h in AllFree(s.pool)
    ensures h in s.account.spawned
    ensures forall g | g in s.account.held || g in s.account.destroyed :: g.id != h.id
  {
    assert h in multiset(AllFree(s.pool));
    assert h in multiset(s.account.spawned);
    forall g | g in s.account.held || g in s.account.destroyed ensures g.id != h.id {
      assert g in multiset(s.account.destroyed) || g in s.account.held;
      assert g in multiset(s.account.spawned);
      assert multiset(s.account.spawned)[h] == 1;
    }
  }

  lemma AcquireConserves(s: PoolState, klass: StreamClass, s': PoolState, h: StreamHandle)
    requires Conserved(s) && AcquireStep(s, klass, s', h)
    ensures Conserved(s')
    ensures h.id == 0 <==> FreeList(s.pool, klass) == []
    ensures h.id != 0 ==> h.klass == klass
    // Exclusion: nobody else holds the stream, and it has not been destroyed.
    ensures h.id != 0 ==> forall g | g in s.account.held || g in s.account.destroyed :: g.id != h.id
  {
    var l := FreeList(s.pool, klass);
    if l != [] {
      var rest := l[..|l| - 1];
      assert l == rest + [h];
      FreeListGrows(s.pool, klass, rest, h);
      assert h in l && h in AllFree(s.pool);
      InOnePlace(s, h);
      assert forall g | g in rest :: g in l;
    }
  }

  /** Releasing keeps the account exact if and only if the caller holds the
      stream, or the handle is ignored (id 0) or dropped (class Control, never spawned). */
  lemma ReleaseConservesIff(s: PoolState, h: StreamHandle, s': PoolState)
    requires Conserved(s) && ReleaseStep(s, h, s')
    ensures Conserved(s') <==> h.id == 0 || h in s.account.held || h.klass == Control
  {
    if h.id != 0 {
      if h.klass != Control {
        FreeListGrows(s.pool, h.klass, FreeList(s.pool, h.klass), h);
      }
      ReleaseBalance(s, h, s');
      if h in s.account.held {
        assert h in multiset(s.account.spawned);
      }
    }
  }

  lemma ReleaseBalance(s: PoolState, h: StreamHandle, s': PoolState)
    requires Balanced(s) && ReleaseStep(s, h, s') && h.id != 0
    requires h.klass != Control ==> multiset(AllFree(s'.pool)) == multiset(AllFree(s.pool)) + multiset{h}
    ensures h.klass != Control ==> (Balanced(s') <==> h in s.account.held)
    ensures h.klass == Control && h !in s.account.held ==> s' == s
  {
    var free, held, gone := multiset(AllFree(s.pool)), s.account.held, multiset(s.account.destroyed);
    if h.klass != Control {
      assert Balanced(s') <==> free + multiset{h} + (held - multiset{h}) + gone == free + held + gone;
      if h in held {
        assert multiset{h} + (held - multiset{h}) == held;
      } else {
        assert (free + multiset{h} + (held - multiset{h}) + gone)[h] == (free + held + gone)[h] + 1;
      }
    } else if h !in held {
      assert held - multiset{h} == held;
    }
  }

  lemma DrainConserves(s: PoolState, s': PoolState)
    requires Conserved(s) && DrainStep(s, s')
    ensures Conserved(s')
  {
  }

  /** A drain leaves no stream free, and destroys each that was, compute streams first;
      those with clients it leaves alone. */
  lemma DrainEmpties(s: PoolState, s': PoolState)
    requires DrainStep(s, s')
    ensures s'.pool.compute == s'.pool.dma == s'.pool.fence == [] && s'.account.held == s.account.held
    ensures s'.account.destroyed == s.account.destroyed + s.pool.compute + s.pool.dma + s.pool.fence
  {
  }

  lemma FreshRunFacts(run: seq<StreamHandle>, first: nat, klass: StreamClass, priority: int)
    requires FreshRun(run, first, klass, priority)
    ensures multiset(run) == multiset(Elems(run))
    ensures forall h, g | h in run && g in run && h.id == g.id :: h == g
    ensures forall h | h in run :: first <= h.id < first + |run| && h.klass == klass
  {
    assert Distinct(run);
    DistinctIsSet(run);
  }

  lemma SpawnConserves(s: PoolState, w: Spawn, s': PoolState)
    requires Conserved(s) && SpawnStep(s, w, s')
    ensures Conserved(s')
  {
    var n := s.pool.nextId;
    var s1 := Extended(s, Compute, w.c);
    AddRun(s, Compute, w.c, 0);
    var s2 := Extended(s1, Dma, w.d);
    AddRun(s1, Dma, w.d, -1);
    var s3 := Extended(s2, Fence, w.f);
    AddRun(s2, Fence, w.f, 1);
    assert s'.pool == s3.pool.(nextId := s'.pool.nextId);
  }

  /** The pool with one run of new streams on the list of its class. */
  ghost function Extended(s: PoolState, klass: StreamClass, run: seq<StreamHandle>): PoolState {
    PoolState(
      WithFreeList(s.pool, klass, FreeList(s.pool, klass) + run).(nextId := s.pool.nextId + |run|),
      s.account.(spawned := s.account.spawned + Elems(run)))
  }

  lemma AddRun(s: PoolState, klass: StreamClass, run: seq<StreamHandle>, priority: int)
    requires Conserved(s) && klass != Control && FreshRun(run, s.pool.nextId, klass, priority)
    ensures Conserved(Extended(s, klass, run))
  {
    FreshRunFacts(run, s.pool.nextId, klass, priority);
    AddIds(s.account.spawned, s.pool.nextId, Elems(run), |run|);
    AddBalance(s, klass, run);
    assert AllOfClass(FreeList(s.pool, klass) + run, klass);
  }

  lemma AddIds(spawned: set<StreamHandle>, nextId: nat, added: set<StreamHandle>, n: nat)
    requires IdsUnique(spawned, nextId)
    requires forall h | h in added :: nextId <= h.id < nextId + n && h.klass != Control
    requires nextId > 0
    requires forall h, g | h in added && g in added && h.id == g.id :: h == g
    ensures spawned !! added && IdsUnique(spawned + added, nextId + n)
  {
  }

  lemma AddBalance(s: PoolState, klass: StreamClass, run: seq<StreamHandle>)
    requires Balanced(s) && klass != Control
    requires s.account.spawned !! Elems(run) && multiset(run) == multiset(Elems(run))
    ensures Balanced(Extended(s, klass, run))
  {
    var s' := Extended(s, klass, run);
    assert multiset(AllFree(s'.pool)) == multiset(AllFree(s.pool)) + multiset(run);
    assert multiset(s'.account.spawned) == multiset(s.account.spawned) + multiset(Elems(run));
  }

  // ---- Whole runs -----------------------------------------------------------

  /** A release by a client of the discipline: only of what it holds. */
  ghost predicate OwnRelease(s: PoolState, h: StreamHandle, s': PoolState) {
    (h.id == 0 || h in s.account.held) && ReleaseStep(s, h, s')
  }

  /** One locked call of a client that releases only what it holds, or a module load. */
  ghost predicate ClientStep(s: PoolState, s': PoolState) {
    || (exists klass, h :: AcquireStep(s, klass, s', h))
    || (exists h :: OwnRelease(s, h, s'))
    || DrainStep(s, s')
    || DrawStep(s, s')
  }

  const EMPTY_POOL := PoolState(Pool([], [], [], 1), Account({}, multiset{}, []))

  /** Booting fills the pool, without a lock and before there are clients; every later
      step is a client's. */
  ghost predicate IsRun(run: seq<PoolState>) {
    && |run| > 0 && run[0] == EMPTY_POOL
    && (|run| > 1 ==> exists w :: SpawnStep(run[0], w, run[1]))
    && forall i | 1 < i < |run| :: StepTo(run, i)
  }

  ghost predicate StepTo(run: seq<PoolState>, i: nat)
    requires 0 < i < |run|
  {
    ClientStep(run[i - 1], run[i])
  }

  lemma StepConserves(s: PoolState, s': PoolState)
    requires Conserved(s) && ClientStep(s, s')
    ensures Conserved(s') && s.account.destroyed <= s'.account.destroyed
  {
    if klass, h :| AcquireStep(s, klass, s', h) {
      AcquireConserves(s, klass, s', h);
    } else if h :| OwnRelease(s, h, s') {
      ReleaseConservesIff(s, h, s');
    } else if DrainStep(s, s') {
      DrainConserves(s, s');
    } else {
      DrawConserves(s, s');
    }
  }

  lemma DrawConserves(s: PoolState, s': PoolState)
    requires Conserved(s) && DrawStep(s, s')
    ensures Conserved(s')
  {
  }

  /** After booting, in every interleaving of disciplined clients and module loads,
      every stream stays in exactly one place, and the drains together destroy no
      stream twice. */
  lemma {:induction false} RunConserves(run: seq<PoolState>, i: nat)
    requires IsRun(run) && i < |run|
    ensures Conserved(run[i])
    ensures Distinct(AllFree(run[i].pool)) && Distinct(run[i].account.destroyed)
  {
    if i == 1 {
      var w :| SpawnStep(run[0], w, run[1]);
      SpawnConserves(run[0], w, run[1]);
    } else if i > 1 {
      RunConserves(run, i - 1);
      assert StepTo(run, i);
      StepConserves(run[i - 1], run[i]);
    }
    WithinSetIsDistinct(AllFree(run[i].pool), run[i].account.spawned);
    WithinSetIsDistinct(run[i].account.destroyed, run[i].account.spawned);
  }

  /** Taking a stream and giving it back leaves the pool exactly as it was. */
  lemma AcquireThenRelease(s: PoolState, klass: StreamClass, s1: PoolState, h: StreamHandle, s2: PoolState)
    requires Conserved(s) && AcquireStep(s, klass, s1, h) && ReleaseStep(s1, h, s2)
    ensures s2 == s
  {
    AcquireConserves(s, klass, s1, h);
    var l := FreeList(s.pool, klass);
    if l != [] {
      assert l[..|l| - 1] + [h] == l;
      assert s.account.held + multiset{h} - multiset{h} == s.account.held;
    }
  }

  lemma ReleaseGrows(s: PoolState, h: StreamHandle, s': PoolState)
    requires ReleaseStep(s, h, s') && h.id != 0 && h.klass != Control
    ensures FreeList(s'.pool, h.klass) == FreeList(s.pool, h.klass) + [h]
    ensures s'.account.held[h] == (if s.account.held[h] > 0 then s.account.held[h] - 1 else 0)
  {
  }

  lemma AcquireTakesLast(s: PoolState, l: seq<StreamHandle>, h: StreamHandle, s': PoolState, x: StreamHandle)
    requires h.klass != Control && FreeList(s.pool, h.klass) == l + [h] && AcquireStep(s, h.klass, s', x)
    ensures x == h && FreeList(s'.pool, h.klass) == l && s'.account.held[h] == s.account.held[h] + 1
  {
  }

  /** Without the discipline it fails: a stream released twice is then handed to
      the next two clients of its class. */
  lemma DoubleReleaseShares(s: PoolState, h: StreamHandle, s1: PoolState, s2: PoolState,
                            s3: PoolState, x: StreamHandle, s4: PoolState, y: StreamHandle)
    requires Conserved(s) && h in s.account.held
    requires ReleaseStep(s, h, s1) && ReleaseStep(s1, h, s2)
    requires AcquireStep(s2, h.klass, s3, x) && AcquireStep(s3, h.klass, s4, y)
    ensures x == y == h && s4.account.held[h] == 2
  {
    HeldOnce(s, h);
    ReleaseGrows(s, h, s1);
    ReleaseGrows(s1, h, s2);
    var l := FreeList(s.pool, h.klass);
    AcquireTakesLast(s2, l + [h], h, s3, x);
    AcquireTakesLast(s3, l, h, s4, y);
  }

  lemma HeldOnce(s: PoolState, h: StreamHandle)
    requires Conserved(s) && h in s.account.held
    ensures s.account.held[h] == 1 && h.id != 0 && h.klass != Control
  {
    assert h in multiset(s.account.spawned);
    assert multiset(s.account.spawned)[h] == 1;
  }
}

/** The micro-kernel: the object whose methods take those steps. */
module MicroKernels {
  import opened Common
  import opened StreamPool

  /** What the platform answers a request: a status, and a pointer where one is asked for. */
  datatype Reply = Reply(s: Status, raw: nat)

  /** A loaded module: its entry points by name, as raw pointers. */
  datatype KernelModule = KernelModule(id: nat, name: string, functions: map<string, nat>)

  class MicroKernel {
    const arch: Arch
    /** The platform's answers, whatever they are, in the order of the requests. */
    const device: nat -> Reply
    var asked: nat
    var modules: map<string, KernelModule>
    var freeCompute: seq<StreamHandle>
    var freeDma: seq<StreamHandle>
    var freeFence: seq<StreamHandle>
    var nextId: nat
    ghost var account: Account

    ghost function State(): PoolState
      reads this
    {
      PoolState(Pool(freeCompute, freeDma, freeFence, nextId), account)
    }

    ghost predicate Valid()
      reads this
    {
      Conserved(State())
    }

    predicate Loaded(name: string, entry: string)
      reads this`modules
    {
      name in modules && entry in modules[name].functions
    }

    constructor (arch: Arch, device: nat -> Reply)
      ensures Valid() && this.arch == arch && this.device == device && modules == map[]
      ensures State() == EMPTY_POOL
    {
      this.arch := arch;
      this.device, asked := device, 0;
      modules := map[];
      freeCompute, freeDma, freeFence, nextId := [], [], [], 1;
      account := Account({}, multiset{}, []);
    }

    method Ask() returns (r: Reply)
      modifies this`asked
      ensures r == device(old(asked)) && asked == old(asked) + 1
    {
      r := device(asked);
      asked := asked + 1;
    }

    /** Create one stream of a class; on failure the id is used up all the same. */
    method SpawnOne(klass: StreamClass, priority: int) returns (s: Status, h: StreamHandle)
      modifies this`nextId, this`asked
      ensures nextId == old(nextId) + 1 && asked == old(asked) + 1
      ensures s == device(old(asked)).s && h == StreamHandle(old(nextId), device(old(asked)).raw, klass, priority)
    {
      var id := nextId;
      nextId := nextId + 1;
      var r := Ask();
      s, h := r.s, StreamHandle(id, r.raw, klass, priority);
    }

    /** Every stream the call adds is one the platform created for it, in id order, and it
        answers Ok when it has all it was asked for. */
    method SpawnStreamPool(nCompute: nat, nDma: nat) returns (s: Status, ghost w: Spawn)
      requires Valid()
      modifies this
      ensures Valid() && modules == old(modules)
      ensures w.arch == arch && w.nCompute == nCompute && w.nDma == nDma && w.status == s
      ensures SpawnStep(old(State()), w, State())
      ensures s.Ok? ==> |w.c| == nCompute && |w.d| == nDma
                        && |w.f| == if arch in {Hopper, Ampere, Pascal, Turing} then 1 else 0
      ensures RunsOf(w, old(nextId), old(asked))
    {
      ghost var c, d, f;
      s, c, d, f := SpawnGroups(nCompute, nDma);
      account := account.(spawned := account.spawned + Elems(c) + Elems(d) + Elems(f));
      w := Spawn(arch, nCompute, nDma, s, c, d, f);
      SpawnConserves(old(State()), w, State());
    }

    /** The three groups in turn, each only when those before it are complete; a failure is
        what the platform said last. */
    method SpawnGroups(nCompute: nat, nDma: nat)
        returns (s: Status, ghost c: seq<StreamHandle>, ghost d: seq<StreamHandle>, ghost f: seq<StreamHandle>)
      modifies this`freeCompute, this`freeDma, this`freeFence, this`nextId, this`asked
      ensures freeCompute == old(freeCompute) + c && freeDma == old(freeDma) + d && freeFence == old(freeFence) + f
      ensures var w := Spawn(arch, nCompute, nDma, s, c, d, f); w.Ordered() && RunsOf(w, old(nextId), old(asked))
      ensures nextId == old(nextId) + |c| + |d| + |f| + (if s.Ok? then 0 else 1)
      ensures asked - old(asked) == nextId - old(nextId) && (!s.Ok? ==> s == device(asked - 1).s)
    {
      c, d, f := [], [], [];
      s, c := SpawnCompute(nCompute);
      if !s.Ok? { return; }
      s, d := SpawnDma(nDma);
      if !s.Ok? { return; }
      s, f := SpawnFence();
    }

    /** The streams have ids from `id` on, and are the platform's answers from `from` on. */
    ghost predicate RunsOf(w: Spawn, id: nat, from: nat) {
      && FreshRun(w.c, id, Compute, 0) && Created(w.c, from, Ok)
      && FreshRun(w.d, id + |w.c|, Dma, -1) && Created(w.d, from + |w.c|, Ok)
      && FreshRun(w.f, id + |w.c| + |w.d|, Fence, 1) && Created(w.f, from + |w.c| + |w.d|, Ok)
    }

    /** Each stream of such runs is the platform's answer to its own request. */
    lemma AllCreated(w: Spawn, id: nat, from: nat)
      requires RunsOf(w, id, from)
      ensures forall h | h in w.c + w.d + w.f :: h.id >= id && device(from + h.id - id) == Reply(Ok, h.raw)
    {
      OneCreated(w.c, id, from, Compute, 0);
      OneCreated(w.d, id + |w.c|, from + |w.c|, Dma, -1);
      OneCreated(w.f, id + |w.c| + |w.d|, from + |w.c| + |w.d|, Fence, 1);
      forall h | h in w.c + w.d + w.f ensures h.id >= id && device(from + h.id - id) == Reply(Ok, h.raw) {
        assert h in w.c || h in w.d || h in w.f;
      }
    }

    lemma OneCreated(run: seq<StreamHandle>, id: nat, from: nat, klass: StreamClass, priority: int)
      requires FreshRun(run, id, klass, priority) && Created(run, from, Ok)
      ensures forall h | h in run :: h.id >= id && device(from + h.id - id) == Reply(Ok, h.raw)
    {
      forall h | h in run ensures h.id >= id && device(from + h.id - id) == Reply(Ok, h.raw) {
        var i :| 0 <= i < |run| && run[i] == h;
        assert from + h.id - id == from + i;
      }
    }

    /** The one fence stream of the devices that have it. */
    method SpawnFence() returns (s: Status, ghost f: seq<StreamHandle>)
      modifies this`freeFence, this`nextId, this`asked
      ensures freeFence == old(freeFence) + f && FreshRun(f, old(nextId), Fence, 1)
      ensures |f| == if s.Ok? && arch in {Hopper, Ampere, Pascal, Turing} then 1 else 0
      ensures arch !in {Hopper, Ampere, Pascal, Turing} ==> s == Ok
      ensures Created(f, old(asked), s)
      ensures nextId == old(nextId) + |f| + (if s.Ok? then 0 else 1) && asked - old(asked) == nextId - old(nextId)
    {
      s, f := Ok, [];
      if HasFenceStream(arch) {
        var h;
        s, h := SpawnOne(Fence, 1);
        if !s.Ok? { return; }
        freeFence := freeFence + [h];
        f := [h];
      }
    }

    /** The platform created the streams of `run` from its answer number `from` on, and
        then, if `s` is a failure, answered that. */
    ghost predicate Created(run: seq<StreamHandle>, from: nat, s: Status) {
      && (forall i | 0 <= i < |run| :: device(from + i) == Reply(Ok, run[i].raw))
      && (!s.Ok? ==> device(from + |run|).s == s)
    }

    method SpawnCompute(n: nat) returns (s: Status, ghost c: seq<StreamHandle>)
      modifies this`freeCompute, this`nextId, this`asked
      ensures freeCompute == old(freeCompute) + c && FreshRun(c, old(nextId), Compute, 0) && |c| <= n
      ensures s.Ok? <==> |c| == n
      ensures Created(c, old(asked), s)
      ensures nextId == old(nextId) + |c| + (if s.Ok? then 0 else 1) && asked - old(asked) == nextId - old(nextId)
    {
      c := [];
      for i := 0 to n
        invariant |c| == i && FreshRun(c, old(nextId), Compute, 0) && Created(c, old(asked), Ok)
        invariant freeCompute == old(freeCompute) + c && nextId == old(nextId) + i && asked == old(asked) + i
      {
        var h;
        s, h := SpawnOne(Compute, 0);
        if !s.Ok? { return; }
        freeCompute := freeCompute + [h];
        c := c + [h];
      }
      s := Ok;
    }

    method SpawnDma(n: nat) returns (s: Status, ghost d: seq<StreamHandle>)
      modifies this`freeDma, this`nextId, this`asked
      ensures freeDma == old(freeDma) + d && FreshRun(d, old(nextId), Dma, -1) && |d| <= n
      ensures s.Ok? <==> |d| == n
      ensures Created(d, old(asked), s)
      ensures nextId == old(nextId) + |d| + (if s.Ok? then 0 else 1) && asked - old(asked) == nextId - old(nextId)
    {
      d := [];
      for i := 0 to n
        invariant |d| == i && FreshRun(d, old(nextId), Dma, -1) && Created(d, old(asked), Ok)
        invariant freeDma == old(freeDma) + d && nextId == old(nextId) + i && asked == old(asked) + i
      {
        var h;
        s, h := SpawnOne(Dma, -1);
        if !s.Ok? { return; }
        freeDma := freeDma + [h];
        d := d + [h];
      }
      s := Ok;
    }

    method AcquireStream(klass: StreamClass) returns (h: StreamHandle)
      requires Valid()
      modifies this
      ensures Valid() && AcquireStep(old(State()), klass, State(), h) && modules == old(modules) && asked == old(asked)
      ensures h.id == 0 <==> FreeList(old(State()).pool, klass) == []
    {
      h := INVALID_HANDLE;
      match klass {
        case Compute =>
          if freeCompute != [] {
            h := freeCompute[|freeCompute| - 1];
            freeCompute := freeCompute[..|freeCompute| - 1];
            account := account.(held := account.held + multiset{h});
          }
        case Dma =>
          if freeDma != [] {
            h := freeDma[|freeDma| - 1];
            freeDma := freeDma[..|freeDma| - 1];
            account := account.(held := account.held + multiset{h});
          }
        case Fence =>
          if freeFence != [] {
            h := freeFence[|freeFence| - 1];
            freeFence := freeFence[..|freeFence| - 1];
            account := account.(held := account.held + multiset{h});
          }
        case Control =>
      }
      AcquireConserves(old(State()), klass, State(), h);
    }

    /** The source asks nothing of its callers, so neither does this; the pool
        stays valid when the caller held the stream. */
    method ReleaseStream(h: StreamHandle)
      modifies this
      ensures ReleaseStep(old(State()), h, State()) && modules == old(modules) && asked == old(asked)
      ensures old(Valid()) ==> (Valid() <==> h.id == 0 || h in old(account.held) || h.klass == Control)
    {
      if h.id != 0 {
        PushBack(h);
        account := account.(held := account.held - multiset{h});
      }
      if old(Valid()) {
        ReleaseConservesIff(old(State()), h, State());
      }
    }

    /** Append to the list of the handle's class; there is none for control streams. */
    method PushBack(h: StreamHandle)
      modifies this`freeCompute, this`freeDma, this`freeFence
      ensures State().pool == WithFreeList(old(State()).pool, h.klass, FreeList(old(State()).pool, h.klass) + [h])
    {
      match h.klass {
        case Compute => freeCompute := freeCompute + [h];
        case Dma => freeDma := freeDma + [h];
        case Fence => freeFence := freeFence + [h];
        case Control =>
      }
    }

    method DrainStreams() returns (s: Status)
      requires Valid()
      modifies this
      ensures Valid() && DrainStep(old(State()), State()) && s == Ok && modules == map[]
      ensures freeCompute == freeDma == freeFence == []
    {
      account := account.(destroyed := account.destroyed + freeCompute);
      freeCompute := [];
      account := account.(destroyed := account.destroyed + freeDma);
      freeDma := [];
      account := account.(destroyed := account.destroyed + freeFence);
      freeFence := [];
      modules := map[];
      s := Ok;
      assert State().account.destroyed == old(account.destroyed) + AllFree(old(State()).pool);
      DrainConserves(old(State()), State());
    }

    /** A module already loaded is handed out again; a new one draws an id, which is
        used up even when the platform refuses it; `compiled` is what the platform makes
        of its source. */
    method LoadModule(name: string, compiled: map<string, nat>) returns (s: Status, out: Option<KernelModule>)
      requires Valid()
      modifies this`modules, this`nextId, this`asked
      ensures Valid()
      ensures if name in old(modules)
              then
                && s == Ok && out == Some(old(modules)[name]) && modules == old(modules)
                && State() == old(State()) && asked == old(asked)
              else
                && nextId == old(nextId) + 1 && s == device(old(asked)).s && asked == old(asked) + 1
                && out == (if s == Ok then Some(KernelModule(old(nextId), name, compiled)) else None)
                && modules == if s.Ok? then old(modules)[name := out.value] else old(modules)
    {
      if name in modules { return Ok, Some(modules[name]); }
      var id := nextId;
      nextId := nextId + 1;
      DrawConserves(old(State()), State());
      var r := Ask();
      if !r.s.Ok? { return r.s, None; }
      modules := modules[name := KernelModule(id, name, compiled)];
      s, out := Ok, Some(modules[name]);
    }

    /** Submit a kernel: refused unless its module is loaded and has the entry point, and
        then answered by the platform. */
    method Launch(name: string, entry: string) returns (s: Status)
      modifies this`asked
      ensures if name in modules && entry in modules[name].functions
              then s == device(old(asked)).s && asked == old(asked) + 1
              else s == InvalidArgument && asked == old(asked)
    {
      if name !in modules { return InvalidArgument; }
      if entry !in modules[name].functions { return InvalidArgument; }
      var r := Ask();
      s := r.s;
    }

    /** Wait for a stream. */
    method SyncStream() returns (s: Status)
      modifies this`asked
      ensures s == device(old(asked)).s && asked == old(asked) + 1
    {
      var r := Ask();
      s := r.s;
    }
  }
}
