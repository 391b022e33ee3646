/** The page-table manager: a class over one table, whose methods take the steps of
    `PageTables` address by address. */
module PageTableManagers {
  import opened Common
  import Bits
  import opened Sorting
  import opened EvictionCandidates
  import opened PageTables
  import opened PinHistory

  type AgedPage = Cand<nat>

  /** The order of the sort. */
  predicate NotLater(x: AgedPage, y: AgedPage) {
    !(y.key < x.key)
  }

  ghost function Ages(t: Table): map<nat, nat> {
    map a | a in t :: t[a].lastAccess
  }

  ghost function OfKinds(t: Table, kinds: set<Residency>): set<nat> {
    set a | a in t && t[a].residency in kinds
  }

  lemma StampedExtends(t: Table, pages: set<nat>, lo: nat, mid: nat, a: nat, e: PageEntry, hi: nat)
    requires Stamped(t, pages, lo, mid) && lo <= mid <= hi && e.lastAccess == hi
    requires forall b | b in pages :: b < a
    ensures Stamped(t[a := e], pages + {a}, lo, hi)
  {
  }

  ghost predicate Rising(l: seq<nat>) {
    forall i, j | 0 <= i < j < |l| :: l[i] < l[j]
  }

  ghost predicate StampedBefore(t: Table, now: nat) {
    forall a | a in t :: t[a].lastAccess <= now
  }

  /** Part-way through a range: `pages` are mapped, everything else is as at the start. */
  ghost predicate MapProgress(t0: Table, c0: nat, pages: set<nat>, start: nat, kb: PageKb, res: Residency, phys: Word,
                              t: Table, now: nat)
  {
    && MapRel(t0, pages, start, kb, res, phys, t)
    && StampedBefore(t, now) && c0 <= now
    && Stamped(t, pages, c0, now)
  }

  lemma MapStart(t: Table, l: seq<nat>, start: nat, kb: PageKb, res: Residency, phys: Word, now: nat)
    requires StampedBefore(t, now)
    ensures MapProgress(t, now, Elems(l[..0]), start, kb, res, phys, t, now)
  {
    assert Elems(l[..0]) == {};
  }

  lemma MapPageProgress(t0: Table, c0: nat, pages: set<nat>, start: nat, kb: PageKb, res: Residency, phys: Word,
                        t: Table, was: nat, a: nat, now: nat)
    requires MapProgress(t0, c0, pages, start, kb, res, phys, t, was)
    requires was <= now && start <= a && forall b | b in pages :: b < a
    ensures MapProgress(t0, c0, pages + {a}, start, kb, res, phys,
                        t[a := PageEntry(a, (phys + (a - start)) % U64, kb, 0, res, now, 1)], now)
  {
    var e := PageEntry(a, (phys + (a - start)) % U64, kb, 0, res, now, 1);
    StampedExtends(t, pages, c0, was, a, e, now);
    MapRelExtends(t0, pages, start, kb, res, phys, t, a, now);
  }

  lemma MapRelExtends(t0: Table, pages: set<nat>, start: nat, kb: PageKb, res: Residency, phys: Word,
                      t: Table, a: nat, stamp: nat)
    requires MapRel(t0, pages, start, kb, res, phys, t) && a !in pages && start <= a
    ensures MapRel(t0, pages + {a}, start, kb, res, phys,
                   t[a := PageEntry(a, (phys + (a - start)) % U64, kb, 0, res, stamp, 1)])
  {
    assert phys + a - start == phys + (a - start);
  }

  lemma MappedTableOk(t0: Table, pages: set<nat>, start: nat, kb: PageKb, res: Residency, phys: Word, t: Table)
    requires TableOk(t0, kb) && MapRel(t0, pages, start, kb, res, phys, t)
    requires forall a | a in pages :: a < U64 && IsPage(a, kb)
    ensures TableOk(t, kb)
  {
  }

  lemma PrefixPages(l: seq<nat>, i: nat)
    requires i + 1 < |l| && Rising(l)
    ensures Elems(l[..i + 1]) == Elems(l[..i]) + {l[i]}
    ensures forall b | b in Elems(l[..i]) :: b < l[i]
    ensures l[0] <= l[i]
  {
  }

  /** The word mask of the source rounds an address down to its page. */
  lemma MaskIsDown(x: Word, kb: PageKb)
    ensures Bits.MaskDown(64, x, PageBytes(kb)) == Down(x, kb)
  {
    Bits.Pow2Words();
    if kb == 64 {
      Bits.MaskDownPow2(64, 16, x);
    } else {
      Bits.MaskDownPow2(64, 17, x);
    }
  }

  class PageTableManager {
    const pageKb: PageKb
    const hbmPoolBytes: Word
    /** The readings of the clock, whatever they are, in order. */
    const ticks: nat -> nat
    var readings: nat
    var table: Table
    var clock: nat

    ghost predicate Valid()
      reads this
    {
      TableOk(table, pageKb) && StampedBefore(table, clock)
    }

    constructor (arch: Arch, hbmPoolBytes: Word, ticks: nat -> nat)
      ensures Valid() && table == map[] && this.hbmPoolBytes == hbmPoolBytes && this.ticks == ticks
      ensures pageKb == if arch == Hopper then 128 else 64
    {
      pageKb := if arch == Hopper then 128 else 64;
      this.hbmPoolBytes := hbmPoolBytes;
      this.ticks, readings := ticks, 0;
      table, clock := map[], 0;
    }

    /** A reading of the monotonic clock. */
    method Now() returns (t: nat)
      modifies this`clock, this`readings
      ensures t == clock == Max(old(clock), ticks(old(readings))) && readings == old(readings) + 1
    {
      clock := Max(clock, ticks(readings));
      readings := readings + 1;
      t := clock;
    }

    /** `vaddr & ~(page_bytes - 1)` */
    method PageOf(x: Word) returns (a: nat)
      ensures a == Down(x, pageKb)
    {
      a := Bits.MaskDown(64, x, PageBytes(pageKb));
      MaskIsDown(x, pageKb);
    }

    /** First page of a range, and the end its loop runs to. */
    method Bounds(v: Word, bytes: Word) returns (start: nat, end: nat, ghost l: seq<nat>)
      ensures start == RangeStart(v, pageKb) && end == RangeEnd(v, bytes, pageKb)
      ensures PageWalk(l, start, end, pageKb)
      ensures Elems(l[..|l| - 1]) == Covered(v, bytes, pageKb)
      ensures Rising(l)
    {
      var last := (v + bytes + PageBytes(pageKb) - 1) % U64;
      start := PageOf(v);
      end := PageOf(last);
      DownMultiple(v, pageKb);
      DownMultiple(last, pageKb);
      l := WalkRange(start, end, pageKb);
    }

    /** Enter one page, stamped with its own clock reading. */
    method MapPage(a: nat, phys: nat, res: Residency)
      modifies this
      ensures clock == Max(old(clock), ticks(old(readings))) && readings == old(readings) + 1
      ensures table == old(table)[a := PageEntry(a, phys, pageKb, 0, res, clock, 1)]
    {
      var t := Now();
      table := table[a := PageEntry(a, phys, pageKb, 0, res, t, 1)];
    }

    method MapRange(v: Word, bytes: Word, res: Residency, phys: Word) returns (s: Status)
      requires Valid()
      modifies this
      ensures Valid() && s == Ok
      ensures PtStep(old(table), pageKb, PtEvent(PtOp.MapRange(v, bytes, res, phys), s, old(clock), clock), table)
      // One reading of the clock for each page.
      ensures readings == old(readings) + |Covered(v, bytes, pageKb)|
    {
      var start, end;
      ghost var l;
      start, end, l := Bounds(v, bytes);
      MapPages(start, end, res, phys, l);
      WalkCount(l, Covered(v, bytes, pageKb));
      MapEnds(old(table), old(clock), v, bytes, res, phys, table, clock);
      s := Ok;
    }

    lemma MapEnds(t0: Table, c0: nat, v: Word, bytes: Word, res: Residency, phys: Word, t: Table, now: nat)
      requires TableOk(t0, pageKb)
      requires MapProgress(t0, c0, Covered(v, bytes, pageKb), RangeStart(v, pageKb), pageKb, res, phys, t, now)
      ensures TableOk(t, pageKb) && StampedBefore(t, now)
      ensures PtStep(t0, pageKb, PtEvent(PtOp.MapRange(v, bytes, res, phys), Ok, c0, now), t)
    {
      CoveredPages(v, bytes);
      MappedTableOk(t0, Covered(v, bytes, pageKb), RangeStart(v, pageKb), pageKb, res, phys, t);
    }

    /** The loop of `MapRange`, along the walk `l`. */
    method MapPages(start: nat, end: nat, res: Residency, phys: Word, ghost l: seq<nat>)
      requires StampedBefore(table, clock)
      requires PageWalk(l, start, end, pageKb) && Rising(l)
      modifies this
      ensures MapProgress(old(table), old(clock), Elems(l[..|l| - 1]), start, pageKb, res, phys, table, clock)
      ensures readings == old(readings) + |l| - 1
    {
      ghost var i := 0;
      var a := start;
      MapStart(table, l, start, pageKb, res, phys, clock);
      while a < end
        invariant 0 <= i < |l| && a == l[i]
        invariant MapProgress(old(table), old(clock), Elems(l[..i]), start, pageKb, res, phys, table, clock)
        invariant readings == old(readings) + i
        decreases |l| - i
      {
        WalkNext(l, i, start, end);
        MapTurn(a, start, res, phys, l, i, old(table), old(clock));
        a := (a + PageBytes(pageKb)) % U64;
        i := i + 1;
      }
      WalkEnds(l, i, start, end);
    }

    /** One turn of that loop. */
    method MapTurn(a: nat, start: nat, res: Residency, phys: Word, ghost l: seq<nat>, ghost i: nat,
                   ghost t0: Table, ghost c0: nat)
      requires i + 1 < |l| && Rising(l) && l[0] == start && l[i] == a
      requires MapProgress(t0, c0, Elems(l[..i]), start, pageKb, res, phys, table, clock)
      modifies this
      ensures MapProgress(t0, c0, Elems(l[..i + 1]), start, pageKb, res, phys, table, clock)
      ensures readings == old(readings) + 1 && clock == Max(old(clock), ticks(old(readings)))
    {
      PrefixPages(l, i);
      ghost var t1, c1 := table, clock;
      MapPage(a, (phys + (a - start)) % U64, res);
      MapPageProgress(t0, c0, Elems(l[..i]), start, pageKb, res, phys, t1, c1, a, clock);
    }

    lemma WalkNext(l: seq<nat>, i: nat, start: nat, end: nat)
      requires PageWalk(l, start, end, pageKb) && i < |l| && l[i] < end
      ensures i + 1 < |l| && l[0] == start && l[i + 1] == (l[i] + PageBytes(pageKb)) % U64
    {
      assert i + 1 < |l| ==> WalkStep(l, i, end, pageKb);
    }

    lemma WalkCount(l: seq<nat>, pages: set<nat>)
      requires Rising(l) && l != [] && Elems(l[..|l| - 1]) == pages
      ensures |pages| == |l| - 1
    {
      ElemsCard(l[..|l| - 1]);
    }

    /** A range loop stops at the end of its walk and nowhere before. */
    lemma WalkEnds(l: seq<nat>, i: nat, start: nat, end: nat)
      requires PageWalk(l, start, end, pageKb) && i < |l| && l[i] >= end
      ensures i == |l| - 1
    {
      if i < |l| - 1 {
        WalkBelow(l, i, start, end);
        assert false;
      }
    }

    lemma WalkBelow(l: seq<nat>, i: nat, start: nat, end: nat)
      requires PageWalk(l, start, end, pageKb) && i < |l| - 1
      ensures l[i] < end
    {
      assert WalkStep(l, i, end, pageKb);
    }

    lemma CoveredPages(v: Word, bytes: Word)
      ensures forall a | a in Covered(v, bytes, pageKb) :: a < U64 && IsPage(a, pageKb)
    {
    }

    method UnmapRange(v: Word, bytes: Word) returns (s: Status)
      requires Valid()
      modifies this`table
      ensures Valid()
      ensures PtStep(old(table), pageKb, PtEvent(PtOp.UnmapRange(v, bytes), s, clock, clock), table)
      ensures s == if forall a | a in old(table) && a in Covered(v, bytes, pageKb) :: old(table)[a].refcount == 0
                   then Ok else ContractViolation
    {
      var start, end;
      ghost var l;
      start, end, l := Bounds(v, bytes);
      s := UnmapPages(start, end, l);
      UnmapEnds(old(table), Covered(v, bytes, pageKb), table, s);
    }

    /** The loop of `UnmapRange`, along the walk `l`. */
    method UnmapPages(start: nat, end: nat, ghost l: seq<nat>) returns (s: Status)
      requires PageWalk(l, start, end, pageKb) && Rising(l)
      modifies this`table
      ensures UnmapRel(old(table), Elems(l[..|l| - 1]), table, s)
    {
      ghost var i, t0 := 0, table;
      var a := start;
      assert table - Elems(l[..0]) == table;
      while a < end
        invariant 0 <= i < |l| && a == l[i]
        invariant table == t0 - Elems(l[..i])
        invariant forall x | x in Elems(l[..i]) && x in t0 :: t0[x].refcount == 0
        decreases |l| - i
      {
        WalkNext(l, i, start, end);
        PrefixPages(l, i);
        if a in table {
          if table[a].refcount > 0 {
            StoppedAt(t0, l, i);
            return ContractViolation;
          }
          table := table - {a};
        }
        a := (a + PageBytes(pageKb)) % U64;
        i := i + 1;
      }
      WalkEnds(l, i, start, end);
      WholeRange(t0, Elems(l[..|l| - 1]));
      s := Ok;
    }

    lemma UnmapEnds(t0: Table, pages: set<nat>, t: Table, s: Status)
      requires UnmapRel(t0, pages, t, s)
      ensures TableOk(t0, pageKb) ==> TableOk(t, pageKb)
      ensures s == if forall a | a in t0 && a in pages :: t0[a].refcount == 0 then Ok else ContractViolation
      ensures forall now | StampedBefore(t0, now) :: StampedBefore(t, now)
    {
      assert forall a :: a in PinnedIn(t0, pages) <==> a in t0 && a in pages && t0[a].refcount > 0;
    }

    /** The first pinned page stops the loop with the pages before it removed. */
    lemma StoppedAt(t: Table, l: seq<nat>, i: nat)
      requires i < |l| - 1 && Rising(l)
      requires l[i] in t && t[l[i]].refcount > 0
      requires forall x | x in Elems(l[..i]) && x in t :: t[x].refcount == 0
      ensures var pages := Elems(l[..|l| - 1]);
              PinnedIn(t, pages) != {} && t - Elems(l[..i]) == t - Removable(t, pages)
    {
      var pages := Elems(l[..|l| - 1]);
      assert l[..|l| - 1][i] == l[i];
      assert l[i] in PinnedIn(t, pages);
      forall x | x in t ensures x in Elems(l[..i]) <==> x in Removable(t, pages) {
        if x in Elems(l[..i]) {
          BelowFirstPin(t, l, i, x);
        }
        if x in Removable(t, pages) {
          var j :| 0 <= j < |l| - 1 && l[j] == x;
          PrefixMember(l, i, j);
        }
      }
    }

    lemma BelowFirstPin(t: Table, l: seq<nat>, i: nat, x: nat)
      requires i < |l| - 1 && Rising(l) && x in t && x in Elems(l[..i])
      requires forall y | y in Elems(l[..i]) && y in t :: t[y].refcount == 0
      ensures x in Removable(t, Elems(l[..|l| - 1]))
    {
      var pages := Elems(l[..|l| - 1]);
      var k :| 0 <= k < i && l[k] == x;
      PrefixMember(l, |l| - 1, k);
      forall b | b in PinnedIn(t, pages) ensures x < b {
        var j :| 0 <= j < |l| - 1 && l[j] == b;
        PrefixMember(l, i, j);
      }
    }

    lemma PrefixMember(l: seq<nat>, i: nat, j: nat)
      requires i <= |l| && j < |l|
      ensures j < i ==> l[j] in Elems(l[..i])
    {
    }

    lemma WholeRange(t: Table, pages: set<nat>)
      requires forall x | x in pages && x in t :: t[x].refcount == 0
      ensures PinnedIn(t, pages) == {}
      ensures t - pages == t - Removable(t, pages)
    {
    }

    method Incref(v: Word) returns (s: Status)
      requires Valid()
      modifies this
      ensures Valid() && PtStep(old(table), pageKb, PtEvent(PtOp.Incref(v), s, old(clock), clock), table)
      ensures s == if Down(v, pageKb) in old(table) && old(table)[Down(v, pageKb)].refcount < 0xFFFF then Ok
                   else InvalidArgument
      ensures s != Ok ==> table == old(table)
      ensures s == Ok ==>
                && clock == Max(old(clock), ticks(old(readings))) && readings == old(readings) + 1
                && table == old(table)[Down(v, pageKb) := old(table)[Down(v, pageKb)].(
                              refcount := old(table)[Down(v, pageKb)].refcount + 1, lastAccess := clock)]
    {
      var a := PageOf(v);
      if a !in table { return InvalidArgument; }
      if table[a].refcount == 0xFFFF { return InvalidArgument; }
      table := table[a := table[a].(refcount := table[a].refcount + 1)];
      var t := Now();
      table := table[a := table[a].(lastAccess := t)];
      s := Ok;
    }

    method Decref(v: Word) returns (s: Status)
      requires Valid()
      modifies this
      ensures Valid() && PtStep(old(table), pageKb, PtEvent(PtOp.Decref(v), s, old(clock), clock), table)
      ensures s == if Down(v, pageKb) in old(table) && old(table)[Down(v, pageKb)].refcount > 0 then Ok
                   else InvalidArgument
      ensures s != Ok ==> table == old(table)
      ensures s == Ok ==>
                && clock == Max(old(clock), ticks(old(readings))) && readings == old(readings) + 1
                && table == old(table)[Down(v, pageKb) := old(table)[Down(v, pageKb)].(
                              refcount := old(table)[Down(v, pageKb)].refcount - 1, lastAccess := clock)]
    {
      var a := PageOf(v);
      if a !in table { return InvalidArgument; }
      if table[a].refcount == 0 { return InvalidArgument; }
      table := table[a := table[a].(refcount := table[a].refcount - 1)];
      var t := Now();
      table := table[a := table[a].(lastAccess := t)];
      s := Ok;
    }

    method Lookup(v: Word) returns (e: Option<PageEntry>)
      ensures e == if Down(v, pageKb) in table then Some(table[Down(v, pageKb)]) else None
    {
      var a := PageOf(v);
      if a !in table { return None; }
      e := Some(table[a]);
    }

    /** Count the entries whose residency is in `kinds`. */
    method CountResident(kinds: set<Residency>) returns (n: nat)
      ensures n == |OfKinds(table, kinds)|
    {
      n := 0;
      var todo := table.Keys;
      assert OfKinds(table, kinds) - table.Keys == {};
      while todo != {}
        invariant todo <= table.Keys
        invariant n == |OfKinds(table, kinds) - todo|
        decreases todo
      {
        var a :| a in todo;
        if table[a].residency in kinds {
          assert OfKinds(table, kinds) - (todo - {a}) == (OfKinds(table, kinds) - todo) + {a};
          n := n + 1;
        } else {
          assert OfKinds(table, kinds) - (todo - {a}) == OfKinds(table, kinds) - todo;
        }
        todo := todo - {a};
      }
      assert OfKinds(table, kinds) - {} == OfKinds(table, kinds);
    }

    method ResidentHbmPages() returns (n: nat)
      ensures n == |HbmPages(table)|
    {
      assert OfKinds(table, {Hbm}) == HbmPages(table);
      n := CountResident({Hbm});
    }

    method ResidentHostPages() returns (n: nat)
      ensures n == |HostPages(table)|
    {
      assert OfKinds(table, {HostPinned, HostPageable}) == HostPages(table);
      n := CountResident({HostPinned, HostPageable});
    }

    method SpilledPageCount() returns (n: nat)
      ensures n == |SpilledPages(table)|
    {
      assert OfKinds(table, {Spilled}) == SpilledPages(table);
      n := CountResident({Spilled});
    }

    /** The unpinned HBM pages with their access times, in any order. */
    method Candidates() returns (c: seq<AgedPage>)
      ensures multiset(c) == multiset(CandsOf(Ages(table), Unpinned(table)))
    {
      c := [];
      var todo := table.Keys;
      ghost var taken: set<nat> := {};
      assert CandsOf(Ages(table), taken) == {};
      while todo != {}
        invariant todo <= table.Keys
        invariant taken == Unpinned(table) - todo
        invariant multiset(c) == multiset(CandsOf(Ages(table), taken))
        decreases todo
      {
        var a :| a in todo;
        todo := todo - {a};
        if table[a].residency == Hbm && !(table[a].refcount > 0) {
          OneMore(Ages(table), taken, a);
          taken := taken + {a};
          c := c + [Cand(a, table[a].lastAccess)];
        }
      }
      assert taken == Unpinned(table);
    }

    /** Spill the next candidate, which is always still there. */
    method SpillTurn(ghost t0: Table, cands: seq<AgedPage>, i: nat, evicted0: nat) returns (evicted: nat)
      requires i < |cands| && CandidatesFor(Ages(t0), Unpinned(t0), cands)
      requires FirstSpilled(t0, cands, i, table) && evicted0 == Count32(i)
      modifies this`table
      ensures FirstSpilled(t0, cands, i + 1, table) && evicted == Count32(i + 1)
    {
      UpdateNext(Ages(t0), Unpinned(t0), t0, SpillEntry, cands, i);
      table := UpdateOne(table, SpillEntry, cands[i].page);
      evicted := (evicted0 + 1) % U32;
      NextWord(i);
    }

    /** Spill candidates in order until `resident` is down to `low`. */
    method SpillUntil(cands: seq<AgedPage>, resident0: nat, low: nat) returns (evicted: nat, ghost n: nat)
      requires CandidatesFor(Ages(table), Unpinned(table), cands)
      modifies this`table
      ensures n == Min(|cands|, Max(0, resident0 - low)) && evicted == n % U32
      ensures FirstSpilled(old(table), cands, n, table)
    {
      ghost var t0 := table;
      var resident := resident0;
      evicted := 0;
      n := 0;
      UpdateFirst(t0, SpillEntry, cands);
      for i := 0 to |cands|
        invariant n == i && n <= Max(0, resident0 - low) && resident == resident0 - n
        invariant FirstSpilled(t0, cands, n, table)
        invariant evicted == Count32(n)
      {
        if resident <= low { break; }
        evicted := SpillTurn(t0, cands, i, evicted);
        resident := resident - 1;
        n := n + 1;
      }
    }

    /** The candidates, oldest first except under the Arc policy. */
    method OrderedCandidates(pol: EvictionPolicy) returns (cands: seq<AgedPage>)
      ensures CandidatesFor(Ages(table), Unpinned(table), cands)
      ensures pol != Arc ==> SortedTo(cands, |cands|, NotLater)
    {
      cands := Candidates();
      if pol == Lru || pol == LruRefcount {
        cands := PartialSort(cands, |cands|, NotLater);
      }
      CandidateFacts(Ages(table), Unpinned(table), cands);
    }

    method EvictUntil(highPct: nat, lowPct: nat, pol: EvictionPolicy) returns (evicted: nat, ghost gone: set<nat>)
      requires Valid()
      modifies this`table
      ensures Valid()
      ensures var total := hbmPoolBytes / PageBytes(pageKb);
              EvictStep(old(table), Watermark(total, highPct), Watermark(total, lowPct), pol, gone, table)
      ensures evicted == |gone| % U32
      // Up to the high watermark nothing happens.
      ensures |HbmPages(old(table))| <= Watermark(hbmPoolBytes / PageBytes(pageKb), highPct) ==>
                evicted == 0 && table == old(table)
    {
      var total := hbmPoolBytes / PageBytes(pageKb);
      var resident := ResidentHbmPages();
      var high := Watermark(total, highPct);
      var low := Watermark(total, lowPct);
      if resident <= high {
        UpdateNothing(table, SpillEntry);
        return 0, {};
      }
      var cands := OrderedCandidates(pol);
      ghost var n;
      evicted, n := SpillUntil(cands, resident, low);
      gone := PagesIn(cands[..n]);
      EvictedAreFirst(old(table), cands, n, pol);
    }
  }

  /** Exactly the first `n` candidates, which are that many pages, are spilled. */
  ghost predicate FirstSpilled(t0: Table, cands: seq<AgedPage>, n: nat, t: Table) {
    n <= |cands| && t == UpdatedTo(t0, SpillEntry, cands, n) && |PagesIn(cands[..n])| == n
  }

  /** A 32-bit count. */
  function Count32(n: nat): nat {
    n % U32
  }

  lemma NextWord(n: nat)
    ensures (n % U32 + 1) % U32 == (n + 1) % U32
  {
  }

  /** A prefix of the candidates is a legal choice: unpinned, and the oldest when
      the candidates are sorted. */
  lemma EvictedAreFirst(t: Table, cands: seq<AgedPage>, i: nat, pol: EvictionPolicy)
    requires i <= |cands|
    requires CandidatesFor(Ages(t), Unpinned(t), cands)
    requires pol != Arc ==> SortedTo(cands, |cands|, NotLater)
    ensures PagesIn(cands[..i]) <= Unpinned(t)
    ensures pol != Arc ==> OldestFirst(t, PagesIn(cands[..i]))
  {
  }
}
