/** The KV cache as a value: its pages, the steps of every operation, and the bound
    on residency, the eviction choice and the attention memory over whole runs. */
module KvPages {
  import opened Common
  import opened EvictionCandidates
  import Bits

  datatype KvPage = KvPage(firstTokenIndex: nat, refcount: nat, lastAttention: real, resident: bool)

  datatype KvConfig = KvConfig(maxResident: nat, pageSizeTokens: nat, evictionBand: nat)

  type Pages = map<nat, KvPage>

  /** The pages, and the counter that should say how many are resident. */
  datatype Kv = Kv(pages: Pages, resident: nat)

  const EMPTY_KV := Kv(map[], 0)

  const DEFAULT_PAGE := KvPage(0, 0, 0.0, false)

  /** `token & ~(page_size - 1)` on 32-bit words. */
  function PageOf(token: nat, pageSize: nat): nat {
    Bits.MaskDown(32, token, pageSize)
  }

  /** For a power of two that is the first token of the token's page. */
  lemma PageOfPow2(token: nat, k: nat)
    requires token < U32 && k < 32
    ensures PageOf(token, Bits.Pow2(k)) == token - token % Bits.Pow2(k)
  {
    Bits.Pow2Words();
    Bits.MaskDownPow2(32, k, token);
  }

  function Entry(pages: Pages, p: nat): KvPage {
    if p in pages then pages[p] else DEFAULT_PAGE
  }

  function Heavier(a: real, b: real): real {
    if a < b then b else a
  }

  function Resident(pages: Pages): set<nat> {
    set p | p in pages && pages[p].resident
  }

  function Pinned(pages: Pages): set<nat> {
    set p | p in pages && pages[p].resident && pages[p].refcount != 0
  }

  function Unpinned(pages: Pages): set<nat> {
    set p | p in pages && pages[p].resident && pages[p].refcount == 0
  }

  // ---- Eviction -------------------------------------------------------------

  /** Lower attention first, lower index among equals. */
  predicate Before(a: real, p: nat, b: real, q: nat) {
    a < b || (a == b && p < q)
  }

  /** The least `n` of the unpinned resident pages. */
  ghost predicate Victims(pages: Pages, n: nat, gone: set<nat>) {
    && gone <= Unpinned(pages)
    && |gone| == Min(n, |Unpinned(pages)|)
    && forall e, u | e in gone && u in Unpinned(pages) - gone ::
         Before(pages[e].lastAttention, e, pages[u].lastAttention, u)
  }

  function DropPage(q: KvPage): KvPage {
    q.(resident := false, lastAttention := 0.0)
  }

  function Drop(pages: Pages, gone: set<nat>): Pages {
    Updated(pages, DropPage, gone)
  }

  ghost predicate EvictStep(kv: Kv, n: nat, gone: set<nat>, kv': Kv) {
    && Victims(kv.pages, n, gone)
    && kv'.pages == Drop(kv.pages, gone)
    && kv'.resident == kv.resident - |gone|
  }

  /** The choice is forced. */
  lemma VictimsUnique(pages: Pages, n: nat, gone1: set<nat>, gone2: set<nat>)
    requires Victims(pages, n, gone1) && Victims(pages, n, gone2)
    ensures gone1 == gone2
  {
    if x, y :| x in gone1 - gone2 && y in gone2 - gone1 {
      assert false;
    }
    assert gone1 <= gone2 || gone2 <= gone1;
    SameSizeNested(gone1, gone2);
  }

  /** Whatever goes was touched with less weight than whatever unpinned stays, or with
      the same and lies before it; and as many go as were asked for, if there are. */
  lemma VictimsAreLightest(kv: Kv, n: nat, gone: set<nat>, kv': Kv)
    requires EvictStep(kv, n, gone, kv')
    ensures forall e | e in gone :: e in kv.pages && kv.pages[e].resident && kv.pages[e].refcount == 0
    ensures forall e, u |
              e in gone && u in kv.pages && u !in gone && kv.pages[u].resident && kv.pages[u].refcount == 0 ::
              || kv.pages[e].lastAttention < kv.pages[u].lastAttention
              || (kv.pages[e].lastAttention == kv.pages[u].lastAttention && e < u)
    ensures |gone| <= n
    ensures |gone| < n ==> forall u | u in kv.pages && kv.pages[u].resident && kv.pages[u].refcount == 0 :: u in gone
  {
    if |gone| < n {
      SubsetCard(gone, Unpinned(kv.pages));
    }
    forall e, u | e in gone && u in Unpinned(kv.pages) - gone
      ensures kv.pages[e].lastAttention < kv.pages[u].lastAttention
           || (kv.pages[e].lastAttention == kv.pages[u].lastAttention && e < u)
    {
      assert Before(kv.pages[e].lastAttention, e, kv.pages[u].lastAttention, u);
    }
  }

  /** What an eviction does to each page: those that go keep their index and have no
      attention left, all others are untouched. */
  lemma EvictOnPage(kv: Kv, n: nat, gone: set<nat>, kv': Kv, p: nat)
    requires EvictStep(kv, n, gone, kv')
    ensures p in kv'.pages <==> p in kv.pages
    ensures p in kv.pages && p !in gone ==> kv'.pages[p] == kv.pages[p]
    ensures p in gone ==> kv'.pages[p] == KvPage(kv.pages[p].firstTokenIndex, 0, 0.0, false)
  {
  }

  lemma DropMoves(pages: Pages, gone: set<nat>)
    requires gone <= Unpinned(pages)
    ensures Resident(Drop(pages, gone)) == Resident(pages) - gone
    ensures |Resident(pages) - gone| == |Resident(pages)| - |gone|
    ensures Pinned(Drop(pages, gone)) == Pinned(pages)
    ensures Unpinned(Drop(pages, gone)) == Unpinned(pages) - gone
  {
  }

  // ---- Steps ----------------------------------------------------------------

  /** The entry of the touched page once its index and attention are set. */
  function Touched(pages: Pages, p: nat, w: real): KvPage {
    var q := Entry(pages, p);
    q.(firstTokenIndex := p, lastAttention := Heavier(q.lastAttention, w))
  }

  /** Touching a page that is not resident makes it so, after evicting one band when
      the cache is full. */
  ghost predicate TouchStep(kv: Kv, cfg: KvConfig, token: nat, w: real, gone: set<nat>, kv': Kv) {
    var p := PageOf(token, cfg.pageSizeTokens);
    var q := Touched(kv.pages, p, w);
    var noted := kv.pages[p := q];
    if q.resident then gone == {} && kv' == Kv(noted, kv.resident)
    else
      && (if kv.resident >= cfg.maxResident then Victims(noted, cfg.evictionBand, gone) else gone == {})
      && kv'.pages == Drop(noted, gone)[p := q.(resident := true)]
      && kv'.resident == kv.resident - |gone| + 1
  }

  /** The pin count is a 32-bit word. */
  ghost predicate PinStep(kv: Kv, cfg: KvConfig, token: nat, kv': Kv) {
    var p := PageOf(token, cfg.pageSizeTokens);
    var q := Entry(kv.pages, p);
    kv' == kv.(pages := kv.pages[p := q.(refcount := (q.refcount + 1) % U32)])
  }

  ghost predicate UnpinStep(kv: Kv, cfg: KvConfig, token: nat, kv': Kv) {
    var p := PageOf(token, cfg.pageSizeTokens);
    if p in kv.pages && kv.pages[p].refcount > 0
    then kv' == kv.(pages := kv.pages[p := kv.pages[p].(refcount := kv.pages[p].refcount - 1)])
    else kv' == kv
  }

  datatype KvOp = Touch(token: nat, w: real) | Evict(n: nat) | Pin(token: nat) | Unpin(token: nat)

  ghost predicate KvStep(kv: Kv, cfg: KvConfig, op: KvOp, kv': Kv) {
    match op
    case Touch(token, w) => exists gone :: TouchStep(kv, cfg, token, w, gone, kv')
    case Evict(n) => exists gone :: EvictStep(kv, n, gone, kv')
    case Pin(token) => PinStep(kv, cfg, token, kv')
    case Unpin(token) => UnpinStep(kv, cfg, token, kv')
  }

  // ---- The counter ----------------------------------------------------------

  /** The counter is right, and a page out of the cache remembers no attention. */
  ghost predicate KvInv(kv: Kv) {
    && kv.resident == |Resident(kv.pages)|
    && forall p | p in kv.pages && !kv.pages[p].resident :: kv.pages[p].lastAttention == 0.0
  }

  /** Writing the index and attention of a page moves no page between the sets. */
  lemma NoteMoves(pages: Pages, p: nat, w: real)
    ensures var noted := pages[p := Touched(pages, p, w)];
            Resident(noted) == Resident(pages) && Pinned(noted) == Pinned(pages) && Unpinned(noted) == Unpinned(pages)
  {
  }

  lemma AdmitMoves(pages: Pages, p: nat, q: KvPage)
    requires q.resident && p !in Resident(pages)
    ensures Resident(pages[p := q]) == Resident(pages) + {p}
    ensures |Resident(pages[p := q])| == |Resident(pages)| + 1
  {
  }

  lemma TouchKeepsInv(kv: Kv, cfg: KvConfig, token: nat, w: real, gone: set<nat>, kv': Kv)
    requires KvInv(kv) && TouchStep(kv, cfg, token, w, gone, kv')
    ensures KvInv(kv')
    ensures var p := PageOf(token, cfg.pageSizeTokens);
            gone <= Unpinned(kv.pages) && p !in gone && Resident(kv'.pages) == Resident(kv.pages) - gone + {p}
  {
    var p := PageOf(token, cfg.pageSizeTokens);
    var q := Touched(kv.pages, p, w);
    var noted := kv.pages[p := q];
    NoteMoves(kv.pages, p, w);
    if q.resident {
      assert Resident(kv.pages) - gone + {p} == Resident(kv.pages);
    } else {
      AdmitKeepsInv(kv, noted, p, q, gone, kv');
    }
  }

  lemma AdmitKeepsInv(kv: Kv, noted: Pages, p: nat, q: KvPage, gone: set<nat>, kv': Kv)
    requires KvInv(kv) && noted == kv.pages[p := q] && !q.resident
    requires Resident(noted) == Resident(kv.pages) && Unpinned(noted) == Unpinned(kv.pages)
    requires gone <= Unpinned(noted)
    requires kv'.pages == Drop(noted, gone)[p := q.(resident := true)] && kv'.resident == kv.resident - |gone| + 1
    ensures KvInv(kv')
    ensures p !in gone && Resident(kv'.pages) == Resident(kv.pages) - gone + {p}
  {
    DropMoves(noted, gone);
    assert p !in Resident(noted);
    AdmitMoves(Drop(noted, gone), p, q.(resident := true));
  }

  lemma EvictKeepsInv(kv: Kv, n: nat, gone: set<nat>, kv': Kv)
    requires KvInv(kv) && EvictStep(kv, n, gone, kv')
    ensures KvInv(kv') && Resident(kv'.pages) == Resident(kv.pages) - gone
  {
    DropMoves(kv.pages, gone);
  }

  lemma PinKeepsInv(kv: Kv, cfg: KvConfig, token: nat, kv': Kv)
    requires KvInv(kv) && (PinStep(kv, cfg, token, kv') || UnpinStep(kv, cfg, token, kv'))
    ensures KvInv(kv') && Resident(kv'.pages) == Resident(kv.pages)
  {
    assert Resident(kv'.pages) == Resident(kv.pages);
  }

  lemma StepKeepsInv(kv: Kv, cfg: KvConfig, op: KvOp, kv': Kv)
    requires KvInv(kv) && KvStep(kv, cfg, op, kv')
    ensures KvInv(kv')
  {
    match op
    case Touch(token, w) =>
      var gone :| TouchStep(kv, cfg, token, w, gone, kv');
      TouchKeepsInv(kv, cfg, token, w, gone, kv');
    case Evict(n) =>
      var gone :| EvictStep(kv, n, gone, kv');
      EvictKeepsInv(kv, n, gone, kv');
    case Pin(token) => PinKeepsInv(kv, cfg, token, kv');
    case Unpin(token) => PinKeepsInv(kv, cfg, token, kv');
  }

  // ---- The residency bound --------------------------------------------------

  lemma PinnedOrNot(pages: Pages)
    ensures Resident(pages) == Pinned(pages) + Unpinned(pages) && Pinned(pages) !! Unpinned(pages)
    ensures |Resident(pages)| == |Pinned(pages)| + |Unpinned(pages)|
  {
  }

  /** One touch: room is made by eviction unless everything resident is pinned. */
  lemma TouchBound(kv: Kv, cfg: KvConfig, token: nat, w: real, gone: set<nat>, kv': Kv)
    requires KvInv(kv) && TouchStep(kv, cfg, token, w, gone, kv') && cfg.evictionBand >= 1
    ensures kv'.resident <= Max(kv.resident, Max(cfg.maxResident, |Pinned(kv.pages)| + 1))
  {
    NoteMoves(kv.pages, PageOf(token, cfg.pageSizeTokens), w);
    PinnedOrNot(kv.pages);
  }

  /** A full cache stays within its capacity over a touch exactly when the page is
      already resident, or there is room, or the band is not zero and some resident
      page is not pinned. */
  lemma CapacityKeptIff(kv: Kv, cfg: KvConfig, token: nat, w: real, gone: set<nat>, kv': Kv)
    requires KvInv(kv) && TouchStep(kv, cfg, token, w, gone, kv') && kv.resident <= cfg.maxResident
    ensures kv'.resident <= cfg.maxResident <==>
              || PageOf(token, cfg.pageSizeTokens) in Resident(kv.pages)
              || kv.resident < cfg.maxResident
              || (cfg.evictionBand >= 1 && Unpinned(kv.pages) != {})
  {
    NoteMoves(kv.pages, PageOf(token, cfg.pageSizeTokens), w);
  }

  /** `states[i + 1]` results from `states[i]` by `ops[i]`, from an empty cache. */
  ghost predicate IsRun(states: seq<Kv>, ops: seq<KvOp>, cfg: KvConfig) {
    && |states| == |ops| + 1 && states[0] == EMPTY_KV
    && forall i | 0 <= i < |ops| :: StepAt(states, ops, cfg, i)
  }

  ghost predicate StepAt(states: seq<Kv>, ops: seq<KvOp>, cfg: KvConfig, i: nat)
    requires |states| == |ops| + 1 && i < |ops|
  {
    KvStep(states[i], cfg, ops[i], states[i + 1])
  }

  lemma {:induction false} RunInv(states: seq<Kv>, ops: seq<KvOp>, cfg: KvConfig, i: nat)
    requires IsRun(states, ops, cfg) && i < |states|
    ensures KvInv(states[i])
  {
    if i == 0 {
      assert Resident(EMPTY_KV.pages) == {};
    } else {
      RunInv(states, ops, cfg, i - 1);
      assert StepAt(states, ops, cfg, i - 1);
      StepKeepsInv(states[i - 1], cfg, ops[i - 1], states[i]);
    }
  }

  /** The most pinned resident pages at once, over a sequence of states. */
  ghost function PeakPinned(states: seq<Kv>): nat {
    if states == [] then 0
    else Max(PeakPinned(states[..|states| - 1]), |Pinned(states[|states| - 1].pages)|)
  }

  /** Residency bound: after any run the counter is exact and at most the larger of
      the capacity and one more than the most pages ever pinned at once before. */
  lemma {:induction false} ResidencyBound(states: seq<Kv>, ops: seq<KvOp>, cfg: KvConfig, i: nat)
    requires IsRun(states, ops, cfg) && i < |states| && cfg.evictionBand >= 1
    ensures states[i].resident == |Resident(states[i].pages)|
    ensures states[i].resident <= Max(cfg.maxResident, PeakPinned(states[..i]) + 1)
  {
    RunInv(states, ops, cfg, i);
    if i > 0 {
      ResidencyBound(states, ops, cfg, i - 1);
      RunStepBound(states, ops, cfg, i);
      PeakStep(states, i);
    }
  }

  lemma PeakStep(states: seq<Kv>, i: nat)
    requires 0 < i <= |states|
    ensures PeakPinned(states[..i]) == Max(PeakPinned(states[..i - 1]), |Pinned(states[i - 1].pages)|)
  {
    assert states[..i][..i - 1] == states[..i - 1];
  }

  lemma RunStepBound(states: seq<Kv>, ops: seq<KvOp>, cfg: KvConfig, i: nat)
    requires IsRun(states, ops, cfg) && 0 < i < |states| && cfg.evictionBand >= 1
    ensures states[i].resident <= Max(states[i - 1].resident, Max(cfg.maxResident, |Pinned(states[i - 1].pages)| + 1))
  {
    RunInv(states, ops, cfg, i - 1);
    assert StepAt(states, ops, cfg, i - 1);
    StepBound(states[i - 1], cfg, ops[i - 1], states[i]);
  }

  lemma StepBound(kv: Kv, cfg: KvConfig, op: KvOp, kv': Kv)
    requires KvInv(kv) && KvStep(kv, cfg, op, kv') && cfg.evictionBand >= 1
    ensures kv'.resident <= Max(kv.resident, Max(cfg.maxResident, |Pinned(kv.pages)| + 1))
  {
    match op
    case Touch(token, w) =>
      var gone :| TouchStep(kv, cfg, token, w, gone, kv');
      TouchBound(kv, cfg, token, w, gone, kv');
    case Evict(n) =>
    case Pin(token) =>
    case Unpin(token) =>
  }

  /** A touch that must make room, where the source locks its mutex a second time. */
  ghost predicate NeedsRoom(kv: Kv, cfg: KvConfig, op: KvOp) {
    op.Touch? && PageOf(op.token, cfg.pageSizeTokens) !in Resident(kv.pages) && kv.resident >= cfg.maxResident
  }

  /** As long as no touch needs room, capacity holds whatever is pinned and whatever
      the band. */
  lemma {:induction false} CapacityWhileRoom(states: seq<Kv>, ops: seq<KvOp>, cfg: KvConfig, i: nat)
    requires IsRun(states, ops, cfg) && i < |states|
    requires forall j | 0 <= j < i :: !NeedsRoom(states[j], cfg, ops[j])
    ensures states[i].resident <= cfg.maxResident
  {
    if i > 0 {
      CapacityWhileRoom(states, ops, cfg, i - 1);
      RunInv(states, ops, cfg, i - 1);
      assert StepAt(states, ops, cfg, i - 1);
      RoomStep(states[i - 1], cfg, ops[i - 1], states[i]);
    }
  }

  lemma RoomStep(kv: Kv, cfg: KvConfig, op: KvOp, kv': Kv)
    requires KvInv(kv) && KvStep(kv, cfg, op, kv') && !NeedsRoom(kv, cfg, op) && kv.resident <= cfg.maxResident
    ensures kv'.resident <= cfg.maxResident
  {
    match op
    case Touch(token, w) =>
      var gone :| TouchStep(kv, cfg, token, w, gone, kv');
      CapacityKeptIff(kv, cfg, token, w, gone, kv');
    case Evict(n) =>
    case Pin(token) =>
    case Unpin(token) =>
  }

  /** Without pinned pages a cache of capacity one or more never exceeds it. */
  lemma {:induction false} CapacityWithoutPins(states: seq<Kv>, ops: seq<KvOp>, cfg: KvConfig, i: nat)
    requires IsRun(states, ops, cfg) && i < |states| && cfg.evictionBand >= 1 && cfg.maxResident >= 1
    requires forall j | 0 <= j < i :: Pinned(states[j].pages) == {}
    ensures states[i].resident <= cfg.maxResident
  {
    ResidencyBound(states, ops, cfg, i);
    NoPeak(states[..i]);
  }

  lemma {:induction false} NoPeak(states: seq<Kv>)
    requires forall j | 0 <= j < |states| :: Pinned(states[j].pages) == {}
    ensures PeakPinned(states) == 0
  {
    if states != [] {
      NoPeak(states[..|states| - 1]);
    }
  }

  // ---- Pins and attention over runs -----------------------------------------

  /** No operation takes a pinned page out of the cache or lowers its attention. */
  lemma PinnedPageStays(kv: Kv, cfg: KvConfig, op: KvOp, kv': Kv, p: nat)
    requires KvStep(kv, cfg, op, kv') && p in Pinned(kv.pages)
    ensures p in Resident(kv'.pages) && kv'.pages[p].lastAttention >= kv.pages[p].lastAttention
  {
  }

  /** A touch of a page in the cache, or with room for it, takes nothing out; any other
      takes one band of the unpinned pages, or all of them if there are fewer. */
  lemma TouchTakesOut(kv: Kv, cfg: KvConfig, token: nat, w: real, gone: set<nat>, kv': Kv)
    requires KvInv(kv) && TouchStep(kv, cfg, token, w, gone, kv')
    ensures var p := PageOf(token, cfg.pageSizeTokens);
            && p in kv'.pages && kv'.pages[p].resident
            && (p in Resident(kv.pages) || |Resident(kv.pages)| < cfg.maxResident ==> gone == {})
            && (p !in Resident(kv.pages) && |Resident(kv.pages)| >= cfg.maxResident ==>
                  gone <= Unpinned(kv.pages) && |gone| == Min(cfg.evictionBand, |Unpinned(kv.pages)|))
  {
    NoteMoves(kv.pages, PageOf(token, cfg.pageSizeTokens), w);
  }

  /** What a touch leaves of the attention of its page: the larger of before and `w`. */
  lemma TouchAttention(kv: Kv, cfg: KvConfig, token: nat, w: real, gone: set<nat>, kv': Kv)
    requires TouchStep(kv, cfg, token, w, gone, kv')
    ensures var p := PageOf(token, cfg.pageSizeTokens);
            var was := if p in kv.pages then kv.pages[p].lastAttention else 0.0;
            && p in kv'.pages && kv'.pages[p].firstTokenIndex == p
            && kv'.pages[p].lastAttention >= was && kv'.pages[p].lastAttention >= w
            && (kv'.pages[p].lastAttention == was || kv'.pages[p].lastAttention == w)
  {
  }

  /** Every other page stays as it is, or goes with no attention left. */
  lemma TouchOnOthers(kv: Kv, cfg: KvConfig, token: nat, w: real, gone: set<nat>, kv': Kv, q: nat)
    requires TouchStep(kv, cfg, token, w, gone, kv') && q != PageOf(token, cfg.pageSizeTokens)
    ensures q in kv'.pages <==> q in kv.pages
    ensures q in kv.pages ==>
              kv'.pages[q] == if q in gone then kv.pages[q].(resident := false, lastAttention := 0.0) else kv.pages[q]
  {
  }

  // ---- Pins over runs -------------------------------------------------------

  /** Pins of page `p` less the unpins that found one, in a 32-bit word. */
  ghost function PinBalance(ops: seq<KvOp>, cfg: KvConfig, p: nat): nat {
    if ops == [] then 0
    else
      var before, op := PinBalance(ops[..|ops| - 1], cfg, p), ops[|ops| - 1];
      if op.Pin? && PageOf(op.token, cfg.pageSizeTokens) == p then (before + 1) % U32
      else if op.Unpin? && PageOf(op.token, cfg.pageSizeTokens) == p && before > 0 then before - 1
      else before
  }

  lemma StepPins(kv: Kv, cfg: KvConfig, op: KvOp, kv': Kv, p: nat)
    requires KvStep(kv, cfg, op, kv')
    ensures var was := Entry(kv.pages, p).refcount;
            var mine := (op.Pin? || op.Unpin?) && PageOf(op.token, cfg.pageSizeTokens) == p;
            Entry(kv'.pages, p).refcount ==
              if mine && op.Pin? then (was + 1) % U32 else if mine && op.Unpin? && was > 0 then was - 1 else was
  {
  }

  /** Over any run a page's refcount is that balance, in the cache or out of it; touching
      and evicting leave it alone. */
  lemma {:induction false} RefcountIsBalance(states: seq<Kv>, ops: seq<KvOp>, cfg: KvConfig, i: nat, p: nat)
    requires IsRun(states, ops, cfg) && i < |states|
    ensures Entry(states[i].pages, p).refcount == PinBalance(ops[..i], cfg, p)
  {
    if i > 0 {
      RefcountIsBalance(states, ops, cfg, i - 1, p);
      assert StepAt(states, ops, cfg, i - 1);
      assert ops[..i][..i - 1] == ops[..i - 1];
      StepPins(states[i - 1], cfg, ops[i - 1], states[i], p);
    }
  }

  ghost function Pins(ops: seq<KvOp>, cfg: KvConfig, p: nat): nat {
    if ops == [] then 0
    else
      var before, op := Pins(ops[..|ops| - 1], cfg, p), ops[|ops| - 1];
      if op.Pin? && PageOf(op.token, cfg.pageSizeTokens) == p then before + 1 else before
  }

  ghost function Unpins(ops: seq<KvOp>, cfg: KvConfig, p: nat): nat {
    if ops == [] then 0
    else
      var before, op := Unpins(ops[..|ops| - 1], cfg, p), ops[|ops| - 1];
      if op.Unpin? && PageOf(op.token, cfg.pageSizeTokens) == p then before + 1 else before
  }

  /** Of fewer than 2^32 pins that no unpin ran ahead of, the unpins are subtracted. */
  lemma {:induction false} BalanceIsDifference(ops: seq<KvOp>, cfg: KvConfig, p: nat)
    requires Pins(ops, cfg, p) < U32
    requires forall j | 0 <= j <= |ops| :: Unpins(ops[..j], cfg, p) <= Pins(ops[..j], cfg, p)
    ensures PinBalance(ops, cfg, p) == Pins(ops, cfg, p) - Unpins(ops, cfg, p)
  {
    if ops != [] {
      var init := ops[..|ops| - 1];
      forall j | 0 <= j <= |init| ensures Unpins(init[..j], cfg, p) <= Pins(init[..j], cfg, p) {
        assert init[..j] == ops[..j];
      }
      assert ops[..|ops|] == ops;
      BalanceIsDifference(init, cfg, p);
    }
  }

  ghost predicate Touches(op: KvOp, cfg: KvConfig, p: nat) {
    op.Touch? && PageOf(op.token, cfg.pageSizeTokens) == p
  }

  /** The weights page `p` was touched with since it last became resident. */
  ghost function WeightsSince(states: seq<Kv>, ops: seq<KvOp>, cfg: KvConfig, i: nat, p: nat): seq<real>
    requires |states| == |ops| + 1 && i < |states|
  {
    if i == 0 || p !in Resident(states[i].pages) then []
    else
      var before := if p in Resident(states[i - 1].pages) then WeightsSince(states, ops, cfg, i - 1, p) else [];
      if Touches(ops[i - 1], cfg, p) then before + [ops[i - 1].w] else before
  }

  ghost function Heaviest(ws: seq<real>): real {
    if ws == [] then 0.0 else Heavier(Heaviest(ws[..|ws| - 1]), ws[|ws| - 1])
  }

  /** What a step leaves as the attention of a page that is then resident. */
  lemma AttentionStep(kv: Kv, cfg: KvConfig, op: KvOp, kv': Kv, p: nat)
    requires KvStep(kv, cfg, op, kv') && p in Resident(kv'.pages)
    ensures kv'.pages[p].lastAttention ==
              if Touches(op, cfg, p) then Heavier(Entry(kv.pages, p).lastAttention, op.w)
              else Entry(kv.pages, p).lastAttention
    ensures p !in Resident(kv.pages) ==> Touches(op, cfg, p)
  {
  }

  lemma HeaviestAppend(ws: seq<real>, w: real)
    ensures Heaviest(ws + [w]) == Heavier(Heaviest(ws), w)
  {
  }

  ghost predicate Remembers(states: seq<Kv>, ops: seq<KvOp>, cfg: KvConfig, i: nat, p: nat)
    requires |states| == |ops| + 1 && i < |states|
  {
    Entry(states[i].pages, p).lastAttention
      == if p in Resident(states[i].pages) then Heaviest(WeightsSince(states, ops, cfg, i, p)) else 0.0
  }

  lemma RemembersStep(states: seq<Kv>, ops: seq<KvOp>, cfg: KvConfig, i: nat, p: nat)
    requires |states| == |ops| + 1 && 0 < i < |states| && p in Resident(states[i].pages)
    requires KvStep(states[i - 1], cfg, ops[i - 1], states[i])
    requires Remembers(states, ops, cfg, i - 1, p)
    ensures Remembers(states, ops, cfg, i, p)
  {
    AttentionStep(states[i - 1], cfg, ops[i - 1], states[i], p);
    var before := if p in Resident(states[i - 1].pages) then WeightsSince(states, ops, cfg, i - 1, p) else [];
    if Touches(ops[i - 1], cfg, p) {
      HeaviestAppend(before, ops[i - 1].w);
    }
  }

  /** Over any run a resident page remembers the heaviest weight, at least zero, it
      was touched with since it became resident; any other page remembers zero. */
  lemma {:induction false} AttentionMemory(states: seq<Kv>, ops: seq<KvOp>, cfg: KvConfig, i: nat, p: nat)
    requires IsRun(states, ops, cfg) && i < |states|
    ensures Remembers(states, ops, cfg, i, p)
  {
    RunInv(states, ops, cfg, i);
    if i > 0 && p in Resident(states[i].pages) {
      AttentionMemory(states, ops, cfg, i - 1, p);
      assert StepAt(states, ops, cfg, i - 1);
      RemembersStep(states, ops, cfg, i, p);
    }
  }

  /** Stated on the weights alone: a resident page's attention is at least zero and at
      least every weight since it became resident, and is zero or one of them. */
  lemma AttentionIsLargest(states: seq<Kv>, ops: seq<KvOp>, cfg: KvConfig, i: nat, p: nat)
    requires IsRun(states, ops, cfg) && i < |states| && p in Resident(states[i].pages)
    ensures var ws, a := WeightsSince(states, ops, cfg, i, p), states[i].pages[p].lastAttention;
            a >= 0.0 && (forall j | 0 <= j < |ws| :: a >= ws[j]) && (a == 0.0 || a in ws)
  {
    AttentionMemory(states, ops, cfg, i, p);
    HeaviestIsLargest(WeightsSince(states, ops, cfg, i, p));
  }

  lemma {:induction false} HeaviestIsLargest(ws: seq<real>)
    ensures Heaviest(ws) >= 0.0
    ensures forall j | 0 <= j < |ws| :: Heaviest(ws) >= ws[j]
    ensures Heaviest(ws) == 0.0 || Heaviest(ws) in ws
  {
    if ws != [] {
      var init := ws[..|ws| - 1];
      HeaviestIsLargest(init);
      forall j | 0 <= j < |ws| ensures Heaviest(ws) >= ws[j] {
        assert j < |init| ==> ws[j] == init[j];
      }
      assert forall x | x in init :: x in ws;
    }
  }

  /** The weights are those of the touches of `p`, in order, from some call on: the one
      that made it resident. */
  lemma {:induction false} WeightsAreTouches(states: seq<Kv>, ops: seq<KvOp>, cfg: KvConfig, i: nat, p: nat)
      returns (from: nat)
    requires IsRun(states, ops, cfg) && i < |states| && p in Resident(states[i].pages)
    ensures from < i && p !in Resident(states[from].pages)
    ensures forall j | from < j <= i :: p in Resident(states[j].pages)
    ensures WeightsSince(states, ops, cfg, i, p) == TouchWeights(ops[from..i], cfg, p)
  {
    assert i > 0;
    if p in Resident(states[i - 1].pages) {
      from := WeightsAreTouches(states, ops, cfg, i - 1, p);
    } else {
      from := i - 1;
    }
    assert ops[from..i][..i - 1 - from] == ops[from..i - 1];
    if from == i - 1 {
      assert TouchWeights(ops[from..i - 1], cfg, p) == [];
    }
  }

  ghost function TouchWeights(ops: seq<KvOp>, cfg: KvConfig, p: nat): seq<real> {
    if ops == [] then []
    else
      var before, op := TouchWeights(ops[..|ops| - 1], cfg, p), ops[|ops| - 1];
      if op.Touch? && PageOf(op.token, cfg.pageSizeTokens) == p then before + [op.w] else before
  }
}
