/** The attention prefetcher: a sliding window of attention rows and the choice of
    the slots with the highest summed scores. */
module Prefetchers {
  import opened Common
  import opened Sorting
  import opened ContextScopes

  type Row = seq<real>

  function LastN<T>(s: seq<T>, n: nat): seq<T> {
    if |s| <= n then s else s[|s| - n..]
  }

  datatype WindowOp = See(row: Row) | Resize(n: nat)

  /** The history and the window length. */
  datatype Window = Window(rows: seq<Row>, size: nat)

  function WindowStep(w: Window, op: WindowOp): Window {
    match op
    case See(row) => Window(LastN(w.rows + [row], w.size), w.size)
    case Resize(n) => w.(size := n)
  }

  /** After any mix of observations and changes of the window length. */
  ghost function WindowAfter(w: Window, ops: seq<WindowOp>): Window {
    if ops == [] then w else WindowStep(WindowAfter(w, ops[..|ops| - 1]), ops[|ops| - 1])
  }

  ghost function RowsOf(ops: seq<WindowOp>): seq<Row> {
    if ops == [] then []
    else RowsOf(ops[..|ops| - 1]) + (if ops[|ops| - 1].See? then [ops[|ops| - 1].row] else [])
  }

  /** How many rows the windows at the observations leave of `rows0` and those after. */
  ghost function KeptRows(rows0: nat, size0: nat, ops: seq<WindowOp>): nat {
    if ops == [] then rows0
    else
      var init := ops[..|ops| - 1];
      if ops[|ops| - 1].See? then Min(KeptRows(rows0, size0, init) + 1, SizeAfter(size0, init))
      else KeptRows(rows0, size0, init)
  }

  ghost function SizeAfter(size0: nat, ops: seq<WindowOp>): nat {
    if ops == [] then size0
    else if ops[|ops| - 1].Resize? then ops[|ops| - 1].n
    else SizeAfter(size0, ops[..|ops| - 1])
  }

  lemma LastOfLast<T>(s: seq<T>, n: nat, x: T, m: nat)
    requires n <= |s|
    ensures LastN(LastN(s, n) + [x], m) == LastN(s + [x], Min(n + 1, m))
  {
  }

  /** Over any mix of observations and changes of the window length the history is the
      last rows of all that were there or observed. */
  lemma {:induction false} WindowIsSuffix(w: Window, ops: seq<WindowOp>)
    ensures var kept := KeptRows(|w.rows|, w.size, ops);
            && kept <= |w.rows| + |RowsOf(ops)|
            && WindowAfter(w, ops) == Window(LastN(w.rows + RowsOf(ops), kept), SizeAfter(w.size, ops))
    // Written out: exactly the last `kept` rows.
    ensures var all, kept := w.rows + RowsOf(ops), KeptRows(|w.rows|, w.size, ops);
            WindowAfter(w, ops).rows == all[|all| - kept..]
  {
    if ops == [] {
      assert w.rows + RowsOf(ops) == w.rows;
    } else {
      var init, op := ops[..|ops| - 1], ops[|ops| - 1];
      WindowIsSuffix(w, init);
      var all, kept := w.rows + RowsOf(init), KeptRows(|w.rows|, w.size, init);
      match op
      case See(row) =>
        LastOfLast(all, kept, row, SizeAfter(w.size, init));
        assert w.rows + RowsOf(ops) == all + [row];
      case Resize(n) =>
        assert w.rows + RowsOf(ops) == all;
    }
  }

  /** Each observation's window and the rows after it bound the number kept. */
  lemma {:induction false} KeptAtMost(rows0: nat, size0: nat, ops: seq<WindowOp>, j: nat)
    requires j < |ops| && ops[j].See?
    ensures KeptRows(rows0, size0, ops) <= SizeAfter(size0, ops[..j]) + |RowsOf(ops)| - |RowsOf(ops[..j + 1])|
    decreases |ops|
  {
    var init := ops[..|ops| - 1];
    if j < |ops| - 1 {
      KeptAtMost(rows0, size0, init, j);
      assert init[..j] == ops[..j] && init[..j + 1] == ops[..j + 1];
    } else {
      assert ops[..j + 1] == ops;
    }
  }

  /** One of these bounds is met exactly, unless every row is kept. */
  lemma {:induction false} KeptReached(rows0: nat, size0: nat, ops: seq<WindowOp>)
    ensures KeptRows(rows0, size0, ops) == rows0 + |RowsOf(ops)|
         || exists j | 0 <= j < |ops| && ops[j].See? ::
              KeptRows(rows0, size0, ops) == SizeAfter(size0, ops[..j]) + |RowsOf(ops)| - |RowsOf(ops[..j + 1])|
  {
    if ops != [] {
      var last, init := |ops| - 1, ops[..|ops| - 1];
      KeptReached(rows0, size0, init);
      if KeptRows(rows0, size0, init) != rows0 + |RowsOf(init)| {
        var j :| 0 <= j < |init| && init[j].See?
          && KeptRows(rows0, size0, init) == SizeAfter(size0, init[..j]) + |RowsOf(init)| - |RowsOf(init[..j + 1])|;
        assert init[..j] == ops[..j] && init[..j + 1] == ops[..j + 1] && ops[j].See?;
      }
      assert ops[..last + 1] == ops;
    }
  }

  /** What one row adds to a slot. */
  function Weight(r: Row, i: nat): real {
    if i < |r| then r[i] else 0.0
  }

  /** Sum of the rows at slot `i`. */
  function Score(h: seq<Row>, i: nat): real {
    if h == [] then 0.0 else Score(h[..|h| - 1], i) + Weight(h[|h| - 1], i)
  }

  /** Scores are sums: that of one row is its entry, and scores of parts add up. */
  lemma {:induction false} ScoreAdds(g: seq<Row>, h: seq<Row>, r: Row, i: nat)
    ensures Score([], i) == 0.0
    ensures Score([r], i) == if i < |r| then r[i] else 0.0
    ensures Score(g + h, i) == Score(g, i) + Score(h, i)
    decreases |h|
  {
    assert Score([r][..0], i) == 0.0;
    if h == [] {
      assert g + h == g;
    } else {
      var init, last := h[..|h| - 1], h[|h| - 1];
      ScoreAdds(g, init, r, i);
      assert g + h == g + init + [last];
    }
  }

  /** Row `r` gives slot `x` at least the weight it gives slot `y`. */
  predicate NoLess(r: Row, x: nat, y: nat) {
    (if x < |r| then r[x] else 0.0) >= (if y < |r| then r[y] else 0.0)
  }

  predicate More(r: Row, x: nat, y: nat) {
    (if x < |r| then r[x] else 0.0) > (if y < |r| then r[y] else 0.0)
  }

  /** Weight in every row makes the score. */
  lemma {:induction false} ScoreOrder(h: seq<Row>, x: nat, y: nat)
    requires forall j | 0 <= j < |h| :: NoLess(h[j], x, y)
    ensures Score(h, x) >= Score(h, y)
    ensures (exists j | 0 <= j < |h| :: More(h[j], x, y)) ==> Score(h, x) > Score(h, y)
  {
    if h != [] {
      ScoreOrder(h[..|h| - 1], x, y);
      if j :| 0 <= j < |h| && More(h[j], x, y) {
        assert j < |h| - 1 ==> h[..|h| - 1][j] == h[j];
      }
    }
  }

  /** The slots hinted are right by the rows themselves: none is preferred to a slot left
      out that has no less weight in every row and more in one; and of a single row the
      largest entries are chosen. */
  ghost predicate ChosenByRows(h: seq<Row>, nSlots: nat, top: seq<nat>) {
    && (forall x, y | 0 <= x < nSlots && x !in top && y in top ::
          !((forall j | 0 <= j < |h| :: NoLess(h[j], x, y)) && exists j | 0 <= j < |h| :: More(h[j], x, y)))
    && (|h| == 1 ==> forall x, y | 0 <= x < |h[0]| && x !in top && y in top :: y < |h[0]| && h[0][y] >= h[0][x])
  }

  lemma TopByRows(h: seq<Row>, m: nat, top: seq<nat>)
    requires h != [] && IsTop(ScoreList(h, |h[|h| - 1]|), m, top)
    ensures ChosenByRows(h, |h[|h| - 1]|, top)
  {
    var nSlots := |h[|h| - 1]|;
    var score := ScoreList(h, nSlots);
    forall x, y | 0 <= x < nSlots && x !in top && y in top ensures y < nSlots && Score(h, y) >= Score(h, x) {
      var i :| 0 <= i < m && top[i] == y;
      assert score[top[i]] >= score[x];
    }
    forall x, y | 0 <= x < nSlots && x !in top && y in top
      ensures !((forall j | 0 <= j < |h| :: NoLess(h[j], x, y)) && exists j | 0 <= j < |h| :: More(h[j], x, y))
    {
      if forall j | 0 <= j < |h| :: NoLess(h[j], x, y) {
        ScoreOrder(h, x, y);
      }
    }
    if |h| == 1 {
      forall x: nat ensures Score(h, x) == if x < |h[0]| then h[0][x] else 0.0 {
        ScoreAdds([], [], h[0], x);
        assert h == [h[0]];
      }
    }
  }

  function ScoreList(h: seq<Row>, n: nat): seq<real> {
    seq(n, i requires 0 <= i < n => Score(h, i))
  }

  function Slots(n: nat): (r: seq<nat>)
    ensures |r| == n && forall i | 0 <= i < n :: r[i] == i
  {
    seq(n, (i: nat) => i)
  }

  /** `m` distinct slots in falling order of score, none below a slot left out. */
  ghost predicate IsTop(score: seq<real>, m: nat, top: seq<nat>) {
    && |top| == m
    && Distinct(top)
    && (forall i | 0 <= i < m :: top[i] < |score|)
    && (forall i, j | 0 <= i < j < m :: score[top[i]] >= score[top[j]])
    && (forall i, x | 0 <= i < m && 0 <= x < |score| && x !in top :: score[top[i]] >= score[x])
  }

  /** Ties apart the choice is forced: place by place the scores are the same. */
  lemma TopScoresUnique(score: seq<real>, m: nat, top1: seq<nat>, top2: seq<nat>, i: nat)
    requires IsTop(score, m, top1) && IsTop(score, m, top2) && i < m
    ensures score[top1[i]] == score[top2[i]]
  {
    NotHigher(score, m, top1, top2, i);
    NotHigher(score, m, top2, top1, i);
  }

  lemma NotHigher(score: seq<real>, m: nat, top1: seq<nat>, top2: seq<nat>, i: nat)
    requires IsTop(score, m, top1) && IsTop(score, m, top2) && i < m
    ensures score[top1[i]] <= score[top2[i]]
  {
    if score[top1[i]] > score[top2[i]] {
      var above, room := top1[..i + 1], top2[..i];
      forall x | x in above ensures x in room {
        var j :| 0 <= j < |above| && above[j] == x;
        assert score[x] >= score[top1[i]];
        assert x in top2;
        var n :| 0 <= n < m && top2[n] == x;
        assert n < i ==> room[n] == x;
      }
      assert Elems(above) <= Elems(room);
      SubsetCard(Elems(above), Elems(room));
      ElemsCard(above);
      ElemsCard(room);
      assert false;
    }
  }

  /** The order of the sort: no slot before one of higher score. */
  function HigherFirst(score: seq<real>): (nat, nat) -> bool {
    (a: nat, b: nat) => !(Weight(score, b) > Weight(score, a))
  }

  class AttentionPrefetcher {
    const scope: ContextScope
    var history: seq<Row>
    var historyWindow: nat

    ghost function State(): Window
      reads this
    {
      Window(history, historyWindow)
    }

    constructor (scope: ContextScope)
      ensures this.scope == scope && State() == Window([], 16)
    {
      this.scope := scope;
      history, historyWindow := [], 16;
    }

    method SetHistoryWindow(n: nat)
      modifies this`historyWindow
      ensures State() == WindowStep(old(State()), Resize(n))
    {
      historyWindow := n;
    }

    method Observe(row: Row)
      modifies this`history
      ensures State() == WindowStep(old(State()), See(row))
    {
      history := history + [row];
      ghost var all := history;
      ghost var dropped := 0;
      while |history| > historyWindow
        invariant dropped <= |all| && history == all[dropped..]
        invariant dropped > 0 ==> |history| >= historyWindow
        decreases |history|
      {
        history := history[1..];
        dropped := dropped + 1;
      }
    }

    /** Sum the window into `score`, slot by slot; longer rows are cut to the newest. */
    method SumScores(nSlots: nat) returns (score: array<real>)
      ensures fresh(score) && score.Length == nSlots
      ensures forall i | 0 <= i < nSlots :: score[i] == Score(history, i)
    {
      score := new real[nSlots](_ => 0.0);
      for j := 0 to |history|
        invariant forall i | 0 <= i < nSlots :: score[i] == Score(history[..j], i)
      {
        var r := history[j];
        assert history[..j + 1][..j] == history[..j];
        var i := 0;
        while i < |r| && i < nSlots
          invariant 0 <= i <= nSlots && i <= |r|
          invariant forall x | 0 <= x < i :: score[x] == Score(history[..j + 1], x)
          invariant forall x | i <= x < nSlots :: score[x] == Score(history[..j], x)
        {
          score[i] := score[i] + r[i];
          i := i + 1;
        }
      }
      assert history[..|history|] == history;
    }

    /** Hint the top `k` slots by summed score. */
    method PrefetchNext(k: nat) returns (s: Status, ghost top: seq<nat>)
      modifies scope`hints
      ensures history == [] ==> s == Ok && scope.hints == old(scope.hints)
      ensures history != [] ==>
                var score := ScoreList(history, |history[|history| - 1]|);
                && IsTop(score, Min(k, |score|), top)
                && ChosenByRows(history, |score|, top)
                && s == (if scope.kvHbm == 0 then InvalidArgument else Ok)
                && scope.hints == old(scope.hints)
                     + (if scope.kvHbm == 0 then [] else HintsFor(top, scope.kvHbm, scope.kvBytes))
    {
      top := [];
      if history == [] { return Ok, top; }
      var nSlots := |history[|history| - 1]|;
      var scores := SumScores(nSlots);
      var score := scores[..];
      assert score == ScoreList(history, nSlots);
      var idx := Slots(nSlots);
      var m := Min(k, nSlots);
      idx := PartialSort(idx, m, HigherFirst(score));
      TopOfSorted(score, idx, m);
      idx := idx[..m];
      top := idx;
      TopByRows(history, m, top);
      s := scope.PrefetchAttention(idx);
    }
  }

  lemma PermutationOfSlots(idx: seq<nat>, n: nat)
    requires |idx| == n && multiset(idx) == multiset(Slots(n))
    ensures Distinct(idx)
    ensures forall x: int :: x in idx <==> 0 <= x < n
  {
    var slots := Slots(n);
    forall x: int ensures (x in idx <==> 0 <= x < n) && (x in idx <==> x in slots) {
      assert x in idx <==> x in multiset(idx);
      assert x in slots <==> x in multiset(slots);
      if 0 <= x < n { assert slots[x] == x; }
    }
    assert Elems(idx) == Elems(slots);
    ElemsCard(slots);
    ElemsCard(idx);
  }

  lemma PrefixMember(idx: seq<nat>, m: nat, j: nat)
    requires m <= |idx| && j < |idx|
    ensures j < m ==> idx[j] in idx[..m]
  {
  }

  lemma TopOfSorted(score: seq<real>, idx: seq<nat>, m: nat)
    requires m <= |idx| == |score| && multiset(idx) == multiset(Slots(|score|))
    requires SortedTo(idx, m, HigherFirst(score))
    ensures IsTop(score, m, idx[..m])
  {
    var top := idx[..m];
    PermutationOfSlots(idx, |score|);
    forall i | 0 <= i < |idx| ensures idx[i] < |score| {
      assert idx[i] in idx;
    }
    forall i: nat, x: nat | i < m && x < |score| && x !in top ensures score[top[i]] >= score[x] {
      assert x in idx;
      var j :| 0 <= j < |idx| && idx[j] == x;
      PrefixMember(idx, m, j);
      assert HigherFirst(score)(idx[i], idx[j]);
    }
    forall i: nat, j: nat | i < j < m ensures score[top[i]] >= score[top[j]] {
      assert HigherFirst(score)(idx[i], idx[j]);
    }
  }
}
