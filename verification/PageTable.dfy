/** The page table as a value: ranges of pages, the steps of every operation, and
    what they mean for translation, pins and eviction. */
module PageTables {
  import opened Common
  import opened EvictionCandidates

  type Word = x: nat | x < 0x1_0000_0000_0000_0000

  datatype Residency = Unmapped | Hbm | HostPinned | HostPageable | RemoteGpu | Spilled

  datatype EvictionPolicy = Lru | LruRefcount | Arc

  datatype PageEntry = PageEntry(
    vaddr: nat,
    physOrHost: nat,
    pageSizeKb: nat,
    refcount: nat,
    residency: Residency,
    lastAccess: nat,
    fetchCount: nat)

  /** Keyed by page-aligned address. */
  type Table = map<nat, PageEntry>

  /** Hopper uses 128 KB pages, every other device 64 KB. */
  type PageKb = kb: nat | kb == 64 || kb == 128 witness 64

  function PageBytes(kb: PageKb): (p: nat)
    ensures p == 65536 || p == 131072
  {
    kb * 1024
  }

  predicate IsPage(a: nat, kb: PageKb) {
    if kb == 64 then a % 65536 == 0 else a % 131072 == 0
  }

  /** An address rounded down to its page. */
  function Down(x: nat, kb: PageKb): nat {
    if kb == 64 then x - x % 65536 else x - x % 131072
  }

  function RangeStart(v: Word, kb: PageKb): nat {
    Down(v, kb)
  }

  /** One past the last page, in 64-bit arithmetic. */
  function RangeEnd(v: Word, bytes: Word, kb: PageKb): nat {
    Down((v + bytes + PageBytes(kb) - 1) % U64, kb)
  }

  function PagesBetween(lo: nat, hi: nat, kb: PageKb): set<nat> {
    set a | lo <= a < hi && IsPage(a, kb)
  }

  /** The pages the range loops of the table visit. */
  function Covered(v: Word, bytes: Word, kb: PageKb): set<nat> {
    PagesBetween(RangeStart(v, kb), RangeEnd(v, bytes, kb), kb)
  }

  /** The pages that share an address with [v, v + bytes). */
  ghost function Meeting(v: Word, bytes: Word, kb: PageKb): set<nat> {
    set a | 0 <= a < v + bytes && IsPage(a, kb) && v < a + PageBytes(kb) && bytes > 0
  }

  /** One turn of a range loop: the next page is within the range and does not wrap. */
  lemma RangeLoopStep(a: nat, end: nat, kb: PageKb)
    requires IsPage(a, kb) && IsPage(end, kb) && a < end < U64
    ensures a + PageBytes(kb) <= end && IsPage(a + PageBytes(kb), kb)
    ensures (a + PageBytes(kb)) % U64 == a + PageBytes(kb)
  {
    if kb == 64 {
      LoopStep64(a, end);
    } else {
      LoopStep128(a, end);
    }
  }

  lemma LoopStep64(a: nat, end: nat)
    requires a % 65536 == 0 && end % 65536 == 0 && a < end
    ensures a + 65536 <= end && (a + 65536) % 65536 == 0
  {
  }

  lemma LoopStep128(a: nat, end: nat)
    requires a % 131072 == 0 && end % 131072 == 0 && a < end
    ensures a + 131072 <= end && (a + 131072) % 131072 == 0
  {
  }

  /** The addresses a range loop takes: from `start` page by page, in wrapping
      arithmetic, until one is not below `end`. */
  ghost predicate PageWalk(l: seq<nat>, start: nat, end: nat, kb: PageKb) {
    && |l| >= 1 && l[0] == start && l[|l| - 1] >= end
    && forall i | 0 <= i < |l| - 1 :: WalkStep(l, i, end, kb)
  }

  ghost predicate WalkStep(l: seq<nat>, i: nat, end: nat, kb: PageKb)
    requires i + 1 < |l|
  {
    l[i] < end && l[i] < l[i + 1] && (l[i] + PageBytes(kb)) % U64 == l[i + 1]
  }

  /** The walk visits exactly the pages between its ends, in rising order. */
  lemma {:induction false} WalkRange(start: nat, end: nat, kb: PageKb) returns (l: seq<nat>)
    requires IsPage(start, kb) && IsPage(end, kb) && start < U64 && end < U64
    ensures PageWalk(l, start, end, kb)
    ensures Elems(l[..|l| - 1]) == PagesBetween(start, end, kb)
    ensures forall i, j | 0 <= i < j < |l| :: l[i] < l[j]
    decreases end - start
  {
    if start >= end {
      l := [start];
      assert Elems(l[..0]) == {};
    } else {
      RangeLoopStep(start, end, kb);
      var next := start + PageBytes(kb);
      var rest := WalkRange(next, end, kb);
      l := [start] + rest;
      forall i | 0 <= i < |l| - 1 ensures WalkStep(l, i, end, kb) {
        if i > 0 { assert WalkStep(rest, i - 1, end, kb); }
      }
      assert l[..|l| - 1] == [start] + rest[..|rest| - 1];
      PagesFrom(start, end, kb);
    }
  }

  lemma PagesFrom(start: nat, end: nat, kb: PageKb)
    requires IsPage(start, kb) && start < end
    ensures PagesBetween(start, end, kb) == {start} + PagesBetween(start + PageBytes(kb), end, kb)
  {
    if kb == 64 {
      assert PageBytes(kb) == 65536;
    }
  }

  /** A page lies at or below an address exactly when it lies at or below the
      address rounded down; pages are a page apart. */
  lemma DownOrder(x: nat, a: nat, kb: PageKb)
    requires IsPage(a, kb)
    ensures a <= x <==> a <= Down(x, kb)
    ensures a < Down(x, kb) <==> a + PageBytes(kb) <= x
  {
    if kb == 64 {
      DownOrder64(x, a);
    } else {
      DownOrder128(x, a);
    }
  }

  lemma DownOrder64(x: nat, a: nat)
    requires a % 65536 == 0
    ensures a <= x <==> a <= x - x % 65536
    ensures a < x - x % 65536 <==> a + 65536 <= x
  {
  }

  lemma DownOrder128(x: nat, a: nat)
    requires a % 131072 == 0
    ensures a <= x <==> a <= x - x % 131072
    ensures a < x - x % 131072 <==> a + 131072 <= x
  {
  }

  /** A range call visits exactly the pages of its range if and only if rounding
      its end up does not wrap; an empty range must start on a page boundary or wrap. */
  lemma CoverageExactIff(v: Word, bytes: Word, kb: PageKb)
    ensures Covered(v, bytes, kb) == Meeting(v, bytes, kb)
       <==> if bytes > 0 then v + bytes + PageBytes(kb) - 1 < U64
            else IsPage(v, kb) || v + PageBytes(kb) - 1 >= U64
  {
    if v + bytes + PageBytes(kb) - 1 < U64 {
      CoveredWithoutWrap(v, bytes, kb);
      DownMultiple(v, kb);
      if bytes == 0 && !IsPage(v, kb) {
        assert RangeStart(v, kb) in Covered(v, bytes, kb);
      }
    } else if bytes > 0 {
      TopPageNotCovered(v, bytes, kb);
      assert U64 - PageBytes(kb) in Meeting(v, bytes, kb);
    } else {
      WrappedEmpty(v, kb);
    }
  }

  lemma CoveredWithoutWrap(v: Word, bytes: Word, kb: PageKb)
    requires v + bytes + PageBytes(kb) - 1 < U64
    ensures forall a: nat | IsPage(a, kb) :: a in Covered(v, bytes, kb) <==> a < v + bytes && v < a + PageBytes(kb)
  {
    var w := v + bytes + PageBytes(kb) - 1;
    assert w % U64 == w;
    forall a: nat | IsPage(a, kb)
      ensures a in Covered(v, bytes, kb) <==> a < v + bytes && v < a + PageBytes(kb)
    {
      DownOrder(w, a, kb);
      DownOrder(v, a, kb);
    }
  }

  lemma WrappedEmpty(v: Word, kb: PageKb)
    requires v + PageBytes(kb) - 1 >= U64
    ensures Covered(v, 0, kb) == {}
  {
    var w := v + PageBytes(kb) - 1;
    assert w % U64 == w - U64 < PageBytes(kb);
    DownMultiple(v, kb);
    if kb == 64 {
      assert RangeEnd(v, 0, kb) == 0;
    } else {
      assert RangeEnd(v, 0, kb) == 0;
    }
  }

  /** The topmost page of the address space is visited by no call at all. */
  lemma TopPageNotCovered(v: Word, bytes: Word, kb: PageKb)
    ensures IsPage(U64 - PageBytes(kb), kb)
    ensures U64 - PageBytes(kb) !in Covered(v, bytes, kb)
  {
  }

  ghost predicate TableOk(t: Table, kb: PageKb) {
    forall a | a in t :: a < U64 && IsPage(a, kb) && t[a].vaddr == a && t[a].refcount <= 0xFFFF
  }

  // ---- Mapping --------------------------------------------------------------

  /** `t'` is `t` with every page of `pages` mapped afresh, unpinned. */
  ghost predicate MapRel(t: Table, pages: set<nat>, start: nat, kb: PageKb, res: Residency, phys: Word, t': Table) {
    && t'.Keys == t.Keys + pages
    && (forall a | a in t' && a !in pages :: t'[a] == t[a])
    && (forall a | a in pages ::
          t'[a] == PageEntry(a, (phys + a - start) % U64, kb, 0, res, t'[a].lastAccess, 1))
  }

  ghost predicate MapStep(t: Table, v: Word, bytes: Word, res: Residency, phys: Word, kb: PageKb, t': Table) {
    MapRel(t, Covered(v, bytes, kb), RangeStart(v, kb), kb, res, phys, t')
  }

  /** Every page was stamped within [lo, hi], higher pages no earlier. */
  ghost predicate Stamped(t: Table, pages: set<nat>, lo: nat, hi: nat) {
    && (forall a | a in pages :: a in t && lo <= t[a].lastAccess <= hi)
    && (forall a, b | a in pages && b in pages && a <= b :: t[a].lastAccess <= t[b].lastAccess)
  }

  /** The address an access at `x` reaches through the table. */
  function Translate(t: Table, x: nat, kb: PageKb): Option<nat> {
    var a := Down(x, kb);
    if a in t then Some((t[a].physOrHost + (x - a)) % U64) else None
  }

  /** After mapping, each address on a covered page translates by its distance from
      `v`, modulo 2^64, if and only if the range starts on a page boundary. Where
      rounding does not wrap, those are all the addresses of the range. */
  lemma TranslationAffineIff(t: Table, v: Word, bytes: Word, res: Residency, phys: Word, kb: PageKb, t': Table)
    requires MapStep(t, v, bytes, res, phys, kb, t')
    ensures forall x: nat | Down(x, kb) in Covered(v, bytes, kb) ::
              Translate(t', x, kb) == Some((phys + U64 + x - v) % U64) <==> IsPage(v, kb)
    ensures bytes > 0 && v + bytes + PageBytes(kb) - 1 < U64 ==>
              forall x: nat | v <= x < v + bytes :: Down(x, kb) in Covered(v, bytes, kb)
  {
    forall x: nat | Down(x, kb) in Covered(v, bytes, kb)
      ensures Translate(t', x, kb) == Some((phys + U64 + x - v) % U64) <==> IsPage(v, kb)
    {
      CoveredTranslation(t, v, bytes, res, phys, kb, t', x);
      OffsetIff(v, kb, phys + (x - RangeStart(v, kb)));
    }
    if bytes > 0 && v + bytes + PageBytes(kb) - 1 < U64 {
      RangeCovered(v, bytes, kb);
    }
  }

  /** Measuring from `v` instead of its page is noticed unless they are the same. */
  lemma OffsetIff(v: Word, kb: PageKb, y: nat)
    ensures y % U64 == (y + U64 - (v - RangeStart(v, kb))) % U64 <==> IsPage(v, kb)
  {
    DownMultiple(v, kb);
    if IsPage(v, kb) {
      DownOfPage(v, kb);
      AddWord(y);
    } else {
      var d := v - RangeStart(v, kb);
      ShiftedModDiffers(y + U64 - d, d);
      AddWord(y);
    }
  }

  lemma AddWord(x: nat)
    ensures (x + U64) % U64 == x % U64
  {
  }

  lemma RangeCovered(v: Word, bytes: Word, kb: PageKb)
    requires bytes > 0 && v + bytes + PageBytes(kb) - 1 < U64
    ensures forall x: nat | v <= x < v + bytes :: Down(x, kb) in Covered(v, bytes, kb)
  {
    CoveredWithoutWrap(v, bytes, kb);
    forall x: nat | v <= x < v + bytes ensures Down(x, kb) in Covered(v, bytes, kb) {
      DownMultiple(x, kb);
    }
  }

  /** Covered addresses translate by their distance from the first page. */
  lemma CoveredTranslation(t: Table, v: Word, bytes: Word, res: Residency, phys: Word, kb: PageKb, t': Table, x: nat)
    requires MapStep(t, v, bytes, res, phys, kb, t') && Down(x, kb) in Covered(v, bytes, kb)
    ensures RangeStart(v, kb) <= x
    ensures Translate(t', x, kb) == Some((phys + (x - RangeStart(v, kb))) % U64)
  {
    DownMultiple(x, kb);
    TranslateEntry(t', x, Down(x, kb), kb, phys + Down(x, kb) - RangeStart(v, kb));
  }

  lemma DownOfPage(a: nat, kb: PageKb)
    requires IsPage(a, kb)
    ensures Down(a, kb) == a
  {
  }

  lemma ShiftedModDiffers(x: nat, d: nat)
    requires 0 < d < U64
    ensures (x + d) % U64 != x % U64
  {
  }

  lemma TranslateEntry(t: Table, x: nat, a: nat, kb: PageKb, base: nat)
    requires a == Down(x, kb) && a in t && a <= x && t[a].physOrHost == base % U64
    ensures Translate(t, x, kb) == Some((base + (x - a)) % U64)
  {
  }

  lemma DownMultiple(x: nat, kb: PageKb)
    ensures 0 <= Down(x, kb) <= x < Down(x, kb) + PageBytes(kb)
    ensures IsPage(Down(x, kb), kb)
  {
    if kb == 64 {
      assert (x - x % 65536) % 65536 == 0;
    } else {
      assert (x - x % 131072) % 131072 == 0;
    }
  }

  /** Mapping a range nothing of which was mapped adds its pages to the pages of that
      residency, and to no others. */
  lemma MappingCounts(t: Table, v: Word, bytes: Word, res: Residency, phys: Word, kb: PageKb, t': Table)
    requires MapStep(t, v, bytes, res, phys, kb, t') && t.Keys !! Covered(v, bytes, kb)
    ensures HbmPages(t') == HbmPages(t) + (if res == Hbm then Covered(v, bytes, kb) else {})
    ensures HostPages(t') == HostPages(t) + (if res in {HostPinned, HostPageable} then Covered(v, bytes, kb) else {})
    ensures SpilledPages(t') == SpilledPages(t) + (if res == Spilled then Covered(v, bytes, kb) else {})
  {
  }

  /** Addresses whose page the range does not cover translate as before. */
  lemma TranslationElsewhere(t: Table, v: Word, bytes: Word, res: Residency, phys: Word, kb: PageKb, t': Table, x: nat)
    requires MapStep(t, v, bytes, res, phys, kb, t') && Down(x, kb) !in Covered(v, bytes, kb)
    ensures Translate(t', x, kb) == Translate(t, x, kb)
  {
  }

  // ---- Unmapping ------------------------------------------------------------

  ghost function PinnedIn(t: Table, pages: set<nat>): set<nat> {
    set a | a in t && a in pages && t[a].refcount > 0
  }

  /** The mapped pages of the range below its first pinned page. */
  ghost function Removable(t: Table, pages: set<nat>): set<nat> {
    set a | a in t && a in pages && forall b | b in PinnedIn(t, pages) :: a < b
  }

  ghost predicate UnmapRel(t: Table, pages: set<nat>, t': Table, s: Status) {
    && t' == t - Removable(t, pages)
    && s == if PinnedIn(t, pages) == {} then Ok else ContractViolation
  }

  ghost predicate UnmapStep(t: Table, v: Word, bytes: Word, kb: PageKb, t': Table, s: Status) {
    UnmapRel(t, Covered(v, bytes, kb), t', s)
  }

  /** Unmapping what was just mapped restores the table if and only if the range
      was disjoint from it. */
  lemma MapUnmapRestoresIff(t: Table, v: Word, bytes: Word, res: Residency, phys: Word, kb: PageKb,
                            t1: Table, t2: Table, s: Status)
    requires MapStep(t, v, bytes, res, phys, kb, t1) && UnmapStep(t1, v, bytes, kb, t2, s)
    ensures s == Ok
    ensures t2 == t <==> t.Keys !! Covered(v, bytes, kb)
  {
  }

  /** When a pin stops the unmapping, everything mapped below the first pinned page
      is gone and everything from it upwards is as it was. */
  lemma UnmapStopsAtPin(t: Table, pages: set<nat>, t': Table, s: Status, first: nat)
    requires UnmapRel(t, pages, t', s)
    requires first in PinnedIn(t, pages) && forall b | b in PinnedIn(t, pages) :: first <= b
    ensures s == ContractViolation
    ensures forall a | a in t :: (a in t' <==> !(a in pages && a < first))
    ensures forall a | a in t' :: t'[a] == t[a]
  {
  }

  // ---- Pins -----------------------------------------------------------------

  ghost predicate IncStep(t: Table, v: Word, kb: PageKb, t': Table, s: Status) {
    var a := Down(v, kb);
    if a !in t || t[a].refcount == 0xFFFF then t' == t && s == InvalidArgument
    else
      && s == Ok && a in t'
      && t' == t[a := t[a].(refcount := t[a].refcount + 1, lastAccess := t'[a].lastAccess)]
  }

  ghost predicate DecStep(t: Table, v: Word, kb: PageKb, t': Table, s: Status) {
    var a := Down(v, kb);
    if a !in t || t[a].refcount == 0 then t' == t && s == InvalidArgument
    else
      && s == Ok && a in t'
      && t' == t[a := t[a].(refcount := t[a].refcount - 1, lastAccess := t'[a].lastAccess)]
  }

  // ---- Eviction -------------------------------------------------------------

  function HbmPages(t: Table): set<nat> {
    set a | a in t && t[a].residency == Hbm
  }

  function SpilledPages(t: Table): set<nat> {
    set a | a in t && t[a].residency == Spilled
  }

  function HostPages(t: Table): set<nat> {
    set a | a in t && (t[a].residency == HostPinned || t[a].residency == HostPageable)
  }

  function Unpinned(t: Table): set<nat> {
    set a | a in t && t[a].residency == Hbm && t[a].refcount == 0
  }

  /** A percentage of the pool's pages, in 64-bit arithmetic. */
  function Watermark(poolPages: nat, pct: nat): nat {
    (poolPages * pct) % U64 / 100
  }

  /** How many pages a call evicts. */
  ghost function EvictCount(t: Table, high: nat, low: nat): nat {
    var r := |HbmPages(t)|;
    if r <= high then 0 else Min(|Unpinned(t)|, Max(0, r - low))
  }

  function SpillEntry(e: PageEntry): PageEntry {
    e.(residency := Spilled, fetchCount := e.fetchCount + 1)
  }

  function Spill(t: Table, gone: set<nat>): Table {
    Updated(t, SpillEntry, gone)
  }

  /** No evicted page was used later than a candidate that stays. */
  ghost predicate OldestFirst(t: Table, gone: set<nat>) {
    forall e, u | e in gone && e in t && u in Unpinned(t) - gone :: t[e].lastAccess <= t[u].lastAccess
  }

  ghost predicate EvictStep(t: Table, high: nat, low: nat, pol: EvictionPolicy, gone: set<nat>, t': Table) {
    && gone <= Unpinned(t)
    && |gone| == EvictCount(t, high, low)
    && (pol != Arc ==> OldestFirst(t, gone))
    && t' == Spill(t, gone)
  }

  /** Exactly the counted number of pages moves from HBM to spilled; no page is
      mapped or unmapped, and pinned and other pages are untouched. */
  lemma EvictionCounts(t: Table, high: nat, low: nat, pol: EvictionPolicy, gone: set<nat>, t': Table)
    requires EvictStep(t, high, low, pol, gone, t')
    ensures t'.Keys == t.Keys
    ensures |HbmPages(t')| == |HbmPages(t)| - |gone|
    ensures |SpilledPages(t')| == |SpilledPages(t)| + |gone|
    ensures HostPages(t') == HostPages(t)
    ensures forall a | a in t && (t[a].refcount > 0 || t[a].residency != Hbm) :: t'[a] == t[a]
  {
    SpillMoves(t, gone);
    assert HbmPages(t) == (HbmPages(t) - gone) + gone;
  }

  lemma SpillMoves(t: Table, gone: set<nat>)
    requires gone <= Unpinned(t)
    ensures HbmPages(Spill(t, gone)) == HbmPages(t) - gone
    ensures SpilledPages(Spill(t, gone)) == SpilledPages(t) + gone && SpilledPages(t) !! gone
    ensures HostPages(Spill(t, gone)) == HostPages(t)
  {
  }

  /** Up to the high watermark nothing is evicted. */
  lemma EvictionWaits(t: Table, high: nat, low: nat, pol: EvictionPolicy, gone: set<nat>, t': Table)
    requires EvictStep(t, high, low, pol, gone, t') && |HbmPages(t)| <= high
    ensures gone == {} && t' == t
  {
    UpdateNothing(t, SpillEntry);
  }

  /** With the low watermark below the high one, an eviction leaves the table as it was if
      and only if residency is within the high watermark or every HBM page is pinned. */
  lemma EvictionIdleIff(t: Table, high: nat, low: nat, pol: EvictionPolicy, gone: set<nat>, t': Table)
    requires EvictStep(t, high, low, pol, gone, t') && low <= high
    ensures t' == t <==>
              |HbmPages(t)| <= high || forall a | a in t && t[a].residency == Hbm :: t[a].refcount > 0
  {
    if |HbmPages(t)| <= high {
      EvictionWaits(t, high, low, pol, gone, t');
    } else if Unpinned(t) == {} {
      UpdateNothing(t, SpillEntry);
    } else {
      var e :| e in gone;
      assert t[e].residency == Hbm && t'[e].residency == Spilled;
    }
  }

  /** Eviction never goes below the low watermark, and reaches it whenever it
      starts and enough pages are unpinned. */
  lemma EvictionStopsAtLow(t: Table, high: nat, low: nat, pol: EvictionPolicy, gone: set<nat>, t': Table)
    requires EvictStep(t, high, low, pol, gone, t')
    ensures |HbmPages(t')| >= Min(|HbmPages(t)|, low)
    ensures |HbmPages(t)| > high && |HbmPages(t)| - |Unpinned(t)| <= low <= |HbmPages(t)| ==> |HbmPages(t')| == low
    ensures |HbmPages(t)| > high && |HbmPages(t)| - |Unpinned(t)| > low ==> HbmPages(t') == HbmPages(t) - Unpinned(t)
  {
    EvictionCounts(t, high, low, pol, gone, t');
    SubsetCard(gone, Unpinned(t));
    SpillMoves(t, gone);
  }

  /** With distinct access times the least-recently-used choice is forced. */
  lemma LruChoiceUnique(t: Table, high: nat, low: nat, pol: EvictionPolicy,
                        gone1: set<nat>, t1: Table, gone2: set<nat>, t2: Table)
    requires pol != Arc
    requires EvictStep(t, high, low, pol, gone1, t1) && EvictStep(t, high, low, pol, gone2, t2)
    requires forall a, b | a in t && b in t && a != b :: t[a].lastAccess != t[b].lastAccess
    ensures gone1 == gone2 && t1 == t2
  {
    if x, y :| x in gone1 - gone2 && y in gone2 - gone1 {
      assert false;
    }
    assert gone1 <= gone2 || gone2 <= gone1;
    SameSizeNested(gone1, gone2);
  }

  /** A watermark is the exact floor if and only if its product does not wrap. */
  lemma WatermarkExactIff(poolPages: nat, pct: nat)
    ensures Watermark(poolPages, pct) == poolPages * pct / 100 <==> poolPages * pct < U64
  {
    WordPercent(poolPages * pct);
  }

  lemma WordPercent(x: nat)
    ensures x % U64 / 100 == x / 100 <==> x < U64
  {
  }

  /** It never wraps for percentages up to 65535, whatever the pool. */
  lemma WatermarkExact(poolBytes: Word, kb: PageKb, pct: nat)
    requires pct <= 0xFFFF
    ensures Watermark(poolBytes / PageBytes(kb), pct) == (poolBytes / PageBytes(kb)) * pct / 100
  {
    var n := poolBytes / PageBytes(kb);
    PoolPagesBound(poolBytes, kb);
    MulBound(n, pct, 0x1_0000_0000_0000, 0xFFFF);
    WatermarkExactIff(n, pct);
  }

  lemma PoolPagesBound(poolBytes: Word, kb: PageKb)
    ensures poolBytes / PageBytes(kb) <= 0x1_0000_0000_0000
  {
    if kb == 64 {
      assert poolBytes / 65536 <= 0x1_0000_0000_0000;
    } else {
      assert poolBytes / 131072 <= 0x1_0000_0000_0000;
    }
  }

  lemma MulBound(a: nat, b: nat, a': nat, b': nat)
    requires a <= a' && b <= b'
    ensures a * b <= a' * b'
  {
    assert a' * b' - a * b == a' * (b' - b) + (a' - a) * b;
  }
}
