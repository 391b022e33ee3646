/** The dependency relation of a stage graph, and Kahn's algorithm on it. */
module StageDag {
  import opened Common

  /** For every stage, the names its `depends_on` list holds, in order. */
  type Deps<N> = map<N, seq<N>>

  predicate AllDepsExist<N(==,!new)>(deps: Deps<N>) {
    forall k, i | k in deps && 0 <= i < |deps[k]| :: deps[k][i] in deps
  }

  /** No `depends_on` list names a stage twice. */
  ghost predicate Unrepeated<N(!new)>(deps: Deps<N>) {
    forall k | k in deps :: Distinct(deps[k])
  }

  ghost predicate Edge<N(!new)>(deps: Deps<N>, a: N, b: N) {
    a in deps && b in deps[a]
  }

  ghost predicate Link<N(!new)>(deps: Deps<N>, p: seq<N>, i: nat)
    requires i + 1 < |p|
  {
    Edge(deps, p[i], p[i + 1])
  }

  /** Each name in `p` directly depends on the next one. */
  ghost predicate Chain<N(!new)>(deps: Deps<N>, p: seq<N>) {
    |p| > 0 && forall i | 0 <= i < |p| - 1 :: Link(deps, p, i)
  }

  ghost predicate ChainFromTo<N(!new)>(deps: Deps<N>, p: seq<N>, a: N, b: N) {
    Chain(deps, p) && p[0] == a && p[|p| - 1] == b
  }

  /** `a` is `b`, or depends on it directly or through other stages. */
  ghost predicate Reaches<N(!new)>(deps: Deps<N>, a: N, b: N) {
    exists p :: ChainFromTo(deps, p, a, b)
  }

  ghost predicate IsCycle<N(!new)>(deps: Deps<N>, p: seq<N>) {
    Chain(deps, p) && |p| >= 2 && p[0] == p[|p| - 1]
  }

  ghost predicate HasCycle<N(!new)>(deps: Deps<N>) {
    exists p :: IsCycle(deps, p)
  }

  lemma ChainCons<N(!new)>(deps: Deps<N>, a: N, p: seq<N>)
    requires Chain(deps, p) && Edge(deps, a, p[0])
    ensures Chain(deps, [a] + p)
  {
    var q := [a] + p;
    forall i | 0 <= i < |q| - 1 ensures Link(deps, q, i) {
      if i > 0 { assert Link(deps, p, i - 1); }
    }
  }

  lemma ChainTail<N(!new)>(deps: Deps<N>, p: seq<N>)
    requires Chain(deps, p) && |p| >= 2
    ensures Edge(deps, p[0], p[1]) && Chain(deps, p[1..])
  {
    var q := p[1..];
    assert Link(deps, p, 0);
    forall i | 0 <= i < |q| - 1 ensures Link(deps, q, i) {
      assert Link(deps, p, i + 1);
    }
  }

  lemma ReachesSelf<N(!new)>(deps: Deps<N>, a: N)
    ensures Reaches(deps, a, a)
  {
    assert ChainFromTo(deps, [a], a, a);
  }

  lemma ReachesStep<N(!new)>(deps: Deps<N>, a: N, d: N, b: N)
    requires Edge(deps, a, d) && Reaches(deps, d, b)
    ensures Reaches(deps, a, b)
  {
    var p :| ChainFromTo(deps, p, d, b);
    ChainCons(deps, a, p);
    assert ChainFromTo(deps, [a] + p, a, b);
  }

  ghost predicate WaitsIn<N(!new)>(deps: Deps<N>, k: N, stuck: set<N>) {
    exists d :: Edge(deps, k, d) && d in stuck
  }

  /** Every member of `stuck` waits for another member of it. */
  ghost predicate Stuck<N(!new)>(deps: Deps<N>, stuck: set<N>) {
    forall k {:trigger WaitsIn(deps, k, stuck)} | k in stuck :: WaitsIn(deps, k, stuck)
  }

  lemma {:induction false} WalkInStuckSet<N(!new)>(deps: Deps<N>, stuck: set<N>, start: N, n: nat)
      returns (p: seq<N>)
    requires Stuck(deps, stuck) && start in stuck
    ensures |p| == n + 1 && p[0] == start
    ensures Chain(deps, p) && forall i | 0 <= i < |p| :: p[i] in stuck
  {
    p := [start];
    if n > 0 {
      assert WaitsIn(deps, start, stuck);
      var d :| Edge(deps, start, d) && d in stuck;
      var rest := WalkInStuckSet(deps, stuck, d, n - 1);
      ChainCons(deps, start, rest);
      p := [start] + rest;
    }
  }

  lemma PigeonholeRepeat<T>(p: seq<T>, whole: set<T>)
    requires |p| > |whole| && forall i | 0 <= i < |p| :: p[i] in whole
    ensures exists i, j :: 0 <= i < j < |p| && p[i] == p[j]
  {
    assert Elems(p) <= whole;
    SubsetCard(Elems(p), whole);
    ElemsCard(p);
  }

  lemma CycleFromRepeat<N(!new)>(deps: Deps<N>, p: seq<N>, i: nat, j: nat)
    requires Chain(deps, p) && i < j < |p| && p[i] == p[j]
    ensures IsCycle(deps, p[i..j + 1])
  {
    var c := p[i..j + 1];
    forall x | 0 <= x < |c| - 1 ensures Link(deps, c, x) {
      assert Link(deps, p, i + x);
    }
  }

  /** A non-empty set of stages that all wait for one another holds a cycle through
      one of its members. */
  lemma StuckSetHasCycle<N(!new)>(deps: Deps<N>, stuck: set<N>) returns (c: seq<N>)
    requires Stuck(deps, stuck) && stuck != {}
    ensures IsCycle(deps, c) && c[0] in stuck
  {
    var start :| start in stuck;
    var p := WalkInStuckSet(deps, stuck, start, |stuck|);
    PigeonholeRepeat(p, stuck);
    var i, j :| 0 <= i < j < |p| && p[i] == p[j];
    CycleFromRepeat(deps, p, i, j);
    c := p[i..j + 1];
  }

  ghost predicate DepsBefore<N(!new)>(deps: Deps<N>, order: seq<N>, i: nat)
    requires i < |order|
  {
    order[i] in deps ==> forall d | d in deps[order[i]] :: d in order[..i]
  }

  /** Every name occurs after all the names it depends on. */
  ghost predicate Topological<N(!new)>(deps: Deps<N>, order: seq<N>) {
    forall i | 0 <= i < |order| :: DepsBefore(deps, order, i)
  }

  lemma TopologicalAppend<N(!new)>(deps: Deps<N>, order: seq<N>, v: N)
    requires Topological(deps, order)
    requires v in deps && Elems(deps[v]) <= Elems(order)
    ensures Topological(deps, order + [v])
  {
    var longer := order + [v];
    forall i | 0 <= i < |longer| ensures DepsBefore(deps, longer, i) {
      if i < |order| {
        assert DepsBefore(deps, order, i);
        assert longer[..i] == order[..i];
      } else {
        assert longer[..i] == order;
        forall d | d in deps[v] ensures d in order {
          assert d in Elems(deps[v]);
        }
      }
    }
  }

  /** Along a chain the positions in a topological order fall. */
  lemma {:induction false} ChainDescends<N(!new)>(deps: Deps<N>, order: seq<N>, p: seq<N>, i: nat)
      returns (j: nat)
    requires Topological(deps, order) && Chain(deps, p)
    requires i < |order| && order[i] == p[0]
    ensures j < |order| && order[j] == p[|p| - 1]
    ensures j <= i && (|p| >= 2 ==> j < i)
    decreases |p|
  {
    if |p| == 1 {
      j := i;
    } else {
      ChainTail(deps, p);
      assert DepsBefore(deps, order, i);
      var m :| 0 <= m < i && order[..i][m] == p[1];
      j := ChainDescends(deps, order, p[1..], m);
    }
  }

  /** No name of a topological order lies on a cycle. */
  lemma TopologicalOffCycle<N(!new)>(deps: Deps<N>, order: seq<N>, p: seq<N>)
    requires Topological(deps, order) && Distinct(order) && IsCycle(deps, p)
    ensures p[0] !in order
  {
    if p[0] in order {
      var i :| 0 <= i < |order| && order[i] == p[0];
      var j := ChainDescends(deps, order, p, i);
      assert false;
    }
  }

  lemma TopologicalHasNoCycle<N(!new)>(deps: Deps<N>, order: seq<N>)
    requires Topological(deps, order) && Distinct(order) && deps.Keys <= Elems(order)
    ensures !HasCycle(deps)
  {
    forall p | IsCycle(deps, p) ensures false {
      ChainTail(deps, p);
      assert p[0] in Elems(order);
      TopologicalOffCycle(deps, order, p);
      assert false;
    }
  }

  // ---- Kahn's algorithm -----------------------------------------------------

  /** Dependencies of `k` not yet visited, counted as the in-degree counts them:
      every list position once, less one for each distinct visited name. */
  ghost function OpenDeps<N(!new)>(deps: Deps<N>, k: N, visited: set<N>): int
    requires k in deps
  {
    |deps[k]| - |Elems(deps[k]) * visited|
  }

  lemma OpenDepsVisit<N(!new)>(deps: Deps<N>, k: N, visited: set<N>, v: N)
    requires k in deps && v !in visited
    ensures OpenDeps(deps, k, visited + {v})
         == OpenDeps(deps, k, visited) - (if v in deps[k] then 1 else 0)
  {
    var e := Elems(deps[k]);
    if v in deps[k] {
      assert e * (visited + {v}) == e * visited + {v};
    } else {
      assert e * (visited + {v}) == e * visited;
    }
  }

  lemma OpenDepsZero<N(!new)>(deps: Deps<N>, k: N, visited: set<N>)
    requires k in deps
    ensures OpenDeps(deps, k, visited) >= 0
    ensures OpenDeps(deps, k, visited) == 0 <==> Distinct(deps[k]) && Elems(deps[k]) <= visited
  {
    var e := Elems(deps[k]);
    ElemsCard(deps[k]);
    SubsetCard(e * visited, e);
    if e <= visited {
      assert e * visited == e;
    }
  }

  /** In-degrees of all stages, counted from the dependency lists. */
  method CountInDegrees<N(==,!new)>(deps: Deps<N>) returns (indeg: map<N, int>)
    ensures indeg.Keys == deps.Keys
    ensures forall k | k in deps :: indeg[k] == |deps[k]|
  {
    indeg := map k | k in deps :: 0;
    var todo := deps.Keys;
    while todo != {}
      invariant todo <= deps.Keys && indeg.Keys == deps.Keys
      invariant forall k | k in deps :: indeg[k] == if k in todo then 0 else |deps[k]|
      decreases todo
    {
      var k :| k in todo;
      todo := todo - {k};
      for i := 0 to |deps[k]|
        invariant indeg.Keys == deps.Keys
        invariant indeg[k] == i
        invariant forall j | j in deps && j != k :: indeg[j] == if j in todo then 0 else |deps[j]|
      {
        indeg := indeg[k := indeg[k] + 1];
      }
    }
  }

  /** What the visit loop knows: `order` holds the stages already taken off the
      queue `q`, and every in-degree counts the dependencies still open. */
  ghost predicate KahnInv<N(!new)>(deps: Deps<N>, indeg: map<N, int>, q: seq<N>, order: seq<N>) {
    && indeg.Keys == deps.Keys
    && Distinct(order)
    && Topological(deps, order)
    && (forall k | k in deps :: indeg[k] == OpenDeps(deps, k, Elems(order)))
    && Queued(deps, indeg, q, Elems(order))
  }

  /** The queue holds, once each, the stages of in-degree zero not yet visited. */
  ghost predicate Queued<N(!new)>(deps: Deps<N>, indeg: map<N, int>, q: seq<N>, seen: set<N>)
    requires indeg.Keys == deps.Keys
  {
    && Distinct(q)
    && seen <= deps.Keys
    && (forall k | k in seen :: indeg[k] == 0)
    && (forall k :: k in q <==> k in deps && indeg[k] == 0 && k !in seen)
  }

  lemma DistinctAppend<T>(s: seq<T>, x: T)
    requires Distinct(s) && x !in s
    ensures Distinct(s + [x])
  {
  }

  /** Lowering one positive in-degree, and queueing the stage if it reaches zero. */
  lemma LowerKeeps<N(!new)>(deps: Deps<N>, indeg: map<N, int>, q: seq<N>, seen: set<N>, k: N)
    requires indeg.Keys == deps.Keys && Queued(deps, indeg, q, seen)
    requires k in deps && indeg[k] >= 1
    ensures var lower := indeg[k := indeg[k] - 1];
            lower.Keys == deps.Keys
            && Queued(deps, lower, if lower[k] == 0 then q + [k] else q, seen)
  {
  }

  /** In-degrees count open dependencies before the visit for stages still to do, after it
      for the others. */
  ghost predicate HalfVisited<N(!new)>(deps: Deps<N>, indeg: map<N, int>, todo: set<N>, seen: set<N>, after: set<N>)
    requires indeg.Keys == deps.Keys
  {
    forall k | k in deps :: indeg[k] == OpenDeps(deps, k, if k in todo then seen else after)
  }

  lemma HalfVisitedStep<N(!new)>(deps: Deps<N>, indeg: map<N, int>, todo: set<N>, seen: set<N>, v: N, k: N)
    requires indeg.Keys == deps.Keys && k in todo && todo <= deps.Keys && v !in seen
    requires HalfVisited(deps, indeg, todo, seen, seen + {v})
    ensures v in deps[k] ==> indeg[k] >= 1
    ensures HalfVisited(deps, if v in deps[k] then indeg[k := indeg[k] - 1] else indeg, todo - {k}, seen, seen + {v})
  {
    OpenDepsVisit(deps, k, seen, v);
    OpenDepsZero(deps, k, seen + {v});
  }

  /** Visit stage `v`: lower the in-degree of every stage that names it and
      queue those that reach zero. */
  method VisitStage<N(==,!new)>(deps: Deps<N>, indeg0: map<N, int>, q0: seq<N>, v: N, ghost seen: set<N>)
      returns (indeg: map<N, int>, q: seq<N>)
    requires indeg0.Keys == deps.Keys && v in deps && v !in seen
    requires forall k | k in deps :: indeg0[k] == OpenDeps(deps, k, seen)
    requires Queued(deps, indeg0, q0, seen + {v})
    ensures indeg.Keys == deps.Keys
    ensures forall k | k in deps :: indeg[k] == OpenDeps(deps, k, seen + {v})
    ensures Queued(deps, indeg, q, seen + {v})
  {
    indeg, q := indeg0, q0;
    var todo := deps.Keys;
    ghost var after := seen + {v};
    while todo != {}
      invariant todo <= deps.Keys && indeg.Keys == deps.Keys
      invariant HalfVisited(deps, indeg, todo, seen, after)
      invariant Queued(deps, indeg, q, after)
      decreases todo
    {
      var k :| k in todo;
      HalfVisitedStep(deps, indeg, todo, seen, v, k);
      todo := todo - {k};
      if v in deps[k] {
        LowerKeeps(deps, indeg, q, after, k);
        indeg := indeg[k := indeg[k] - 1];
        if indeg[k] == 0 {
          q := q + [k];
        }
      }
    }
  }

  /** Kahn's algorithm: how many stages are visited. All of them exactly when
      there is neither a cycle nor a repeated name in a dependency list. */
  method KahnVisited<N(==,!new)>(deps: Deps<N>) returns (visited: nat)
    requires AllDepsExist(deps)
    ensures visited <= |deps|
    ensures visited == |deps| <==> Unrepeated(deps) && !HasCycle(deps)
  {
    var indeg := CountInDegrees(deps);
    ghost var order: seq<N> := [];
    assert Elems(order) == {};
    forall k | k in deps ensures indeg[k] == OpenDeps(deps, k, {}) {
      assert Elems(deps[k]) * {} == {};
    }
    var q: seq<N> := [];
    var todo := deps.Keys;
    while todo != {}
      invariant todo <= deps.Keys && Distinct(q)
      invariant forall k :: k in q <==> k in deps && k !in todo && indeg[k] == 0
      decreases todo
    {
      var k :| k in todo;
      todo := todo - {k};
      if indeg[k] == 0 {
        DistinctAppend(q, k);
        q := q + [k];
      }
    }
    visited := 0;
    while q != []
      invariant KahnInv(deps, indeg, q, order)
      invariant visited == |order|
      decreases deps.Keys - Elems(order)
    {
      var v := q[0];
      DequeueKeeps(deps, indeg, q, Elems(order));
      indeg, q := VisitStage(deps, indeg, q[1..], v, Elems(order));
      ElemsAppend(order, v);
      DistinctAppend(order, v);
      TopologicalAppend(deps, order, v);
      order := order + [v];
      visited := visited + 1;
    }
    KahnOutcome(deps, indeg, order);
  }

  lemma DequeueKeeps<N(!new)>(deps: Deps<N>, indeg: map<N, int>, q: seq<N>, seen: set<N>)
    requires indeg.Keys == deps.Keys && Queued(deps, indeg, q, seen) && q != []
    requires forall k | k in deps :: indeg[k] == OpenDeps(deps, k, seen)
    ensures q[0] in deps && q[0] !in seen && Elems(deps[q[0]]) <= seen
    ensures Queued(deps, indeg, q[1..], seen + {q[0]})
  {
    var v, rest := q[0], q[1..];
    assert q == [v] + rest;
    assert v in q;
    OpenDepsZero(deps, v, seen);
    forall i | 0 <= i < |rest| ensures rest[i] != v {
      assert rest[i] == q[i + 1];
    }
    forall i, j | 0 <= i < j < |rest| ensures rest[i] != rest[j] {
      assert rest[i] == q[i + 1] && rest[j] == q[j + 1];
    }
    forall k ensures k in rest <==> k in q && k != v {
    }
  }

  lemma KahnOutcome<N(!new)>(deps: Deps<N>, indeg: map<N, int>, order: seq<N>)
    requires AllDepsExist(deps) && KahnInv(deps, indeg, [], order)
    ensures |order| <= |deps|
    ensures |order| == |deps| <==> Unrepeated(deps) && !HasCycle(deps)
  {
    var seen := Elems(order);
    ElemsCard(order);
    SubsetCard(seen, deps.Keys);
    if |order| == |deps| {
      forall k | k in deps ensures Distinct(deps[k]) {
        assert k in seen;
        OpenDepsZero(deps, k, seen);
      }
      TopologicalHasNoCycle(deps, order);
    } else if Unrepeated(deps) {
      var stuck := deps.Keys - seen;
      assert deps.Keys == seen + stuck;
      UnvisitedIsStuck(deps, indeg, seen);
      var c := StuckSetHasCycle(deps, stuck);
    }
  }

  lemma UnvisitedIsStuck<N(!new)>(deps: Deps<N>, indeg: map<N, int>, seen: set<N>)
    requires AllDepsExist(deps) && Unrepeated(deps)
    requires indeg.Keys == deps.Keys && Queued(deps, indeg, [], seen)
    requires forall k | k in deps :: indeg[k] == OpenDeps(deps, k, seen)
    ensures Stuck(deps, deps.Keys - seen)
  {
    var stuck := deps.Keys - seen;
    forall k | k in stuck ensures WaitsIn(deps, k, stuck) {
      OpenDepsZero(deps, k, seen);
      assert k !in [];
      var d :| d in Elems(deps[k]) && d !in seen;
      assert Edge(deps, k, d);
    }
  }
}
