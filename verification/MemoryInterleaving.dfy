/** The memory manager's calls taken apart into the steps other clients can see
    between. `alloc` asks the device, tags and maps before it takes the manager's lock;
    `free` holds that lock but drops the tag and the pages under locks of their own.
    Every interleaving of these steps amounts to a run of whole calls, each taking
    effect when its pages are mapped or unmapped. */
module MemoryInterleaving {
  import opened Common
  import opened PageTables
  import opened PinHistory
  import opened MemoryLedger

  /** How far an allocation is with its tag. `Passed`: the manager was found enabled and
      the device has tagged, but the tag set has not been entered; `had` says whether the
      pointer was in the set already. */
  datatype Tagging = Untested | Passed(had: bool) | Tested(had: bool)

  /** An allocation not yet entered in the live map, and the caller's record before. */
  datatype Flight = Flight(out0: Allocation, out: Allocation, tagging: Tagging, mapped: bool)

  /** The one `free` that holds the lock, before and after its pages are unmapped. `took`
      says whether it took a tag out of the set; `s` is the answer of the device. */
  datatype Freeing = Idle | Untagged(a: Allocation, took: bool) | Dropped(a: Allocation, s: Status)

  datatype Shared = Shared(mem: Mem, flights: map<Word, Flight>, freeing: Freeing)

  // ---- The whole-call view --------------------------------------------------

  /** The free has taken effect: the device took the memory back. */
  ghost predicate GivenBack(x: Shared, p: Word) {
    x.freeing.Dropped? && x.freeing.s.Ok? && x.freeing.a.hbmPtr == p
  }

  ghost function Landed(flights: map<Word, Flight>): map<Word, Allocation> {
    map p | p in flights && flights[p].mapped :: flights[p].out
  }

  /** Live as whole calls would have it: mapped allocations in, unmapped ones out. */
  ghost function LiveOf(x: Shared): map<Word, Allocation> {
    StillLive(x) + Landed(x.flights)
  }

  ghost function StillLive(x: Shared): map<Word, Allocation> {
    map p | p in x.mem.live && !GivenBack(x, p) :: x.mem.live[p]
  }

  /** The counter with the allocations that have landed and without the one given back. */
  ghost function BytesOf(x: Shared): Word {
    var landed := x.mem.bytes + SumBytes(Landed(x.flights));
    if x.freeing.Dropped? && x.freeing.s.Ok? then (landed + U64 - x.freeing.a.bytes) % U64 else landed % U64
  }

  /** A tag whose allocation is not mapped yet. */
  ghost predicate EarlyTag(x: Shared, p: Word) {
    p in x.flights && !x.flights[p].mapped && x.flights[p].tagging.Tested? && !x.flights[p].tagging.had
  }

  ghost function TagsOf(x: Shared): set<Word> {
    (set p | p in x.mem.ilc.tagged && !EarlyTag(x, p))
    + (if x.freeing.Untagged? && x.freeing.took then {x.freeing.a.hbmPtr} else {})
  }

  ghost function Whole(x: Shared): Mem {
    Mem(x.mem.table, LiveOf(x), BytesOf(x), x.mem.ilc.(tagged := TagsOf(x)))
  }

  ghost predicate Quiet(x: Shared) {
    x.flights == map[] && x.freeing == Idle
  }

  // ---- Steps ----------------------------------------------------------------

  datatype FineOp =
    | Reserve(out0: Allocation, out: Allocation)
    | TestTag(p: Word, ok: bool)
    | InsertTag(p: Word)
    | MapPages(p: Word, e: PtEvent)
    | Commit(p: Word)
    | BeginFree(a: Allocation)
    | UnmapFreed(s: Status)
    | EndFree
    | OtherPages(e: PtEvent)
    | SwitchOn
    | SwitchOff

  /** The device hands out a pointer it has not handed out or was given back. */
  ghost predicate ReserveStep(x: Shared, out0: Allocation, out: Allocation, x': Shared) {
    var p := out.hbmPtr;
    && out == Allocation(p, out.bytes, out.hints, p, out0.ilcTagged) && out.bytes > 0
    && p !in x.flights && p !in LiveOf(x)
    && x' == x.(flights := x.flights[p := Flight(out0, out, Untested, false)])
  }

  /** Where compression is asked for and enabled, the device tags or refuses. */
  ghost predicate TestTagStep(x: Shared, p: Word, ok: bool, x': Shared) {
    && p in x.flights && x.flights[p].tagging.Untested?
    && var f, had := x.flights[p], p in x.mem.ilc.tagged;
       x' == x.(flights := x.flights[p :=
         if !TagTried(x.mem, f.out.hints) then f.(tagging := Tested(had))
         else if ok then f.(tagging := Passed(had))
         else f.(out := f.out.(ilcTagged := false), tagging := Tested(had))])
  }

  ghost predicate InsertTagStep(x: Shared, p: Word, x': Shared) {
    && p in x.flights && x.flights[p].tagging.Passed?
    && var f := x.flights[p];
       x' == x.(flights := x.flights[p := f.(out := f.out.(ilcTagged := true), tagging := Tested(f.tagging.had))],
                mem := x.mem.(ilc := x.mem.ilc.(tagged := x.mem.ilc.tagged + {p})))
  }

  /** Mapping, and mapping once more for the read-mostly hint. */
  ghost predicate MapPagesStep(x: Shared, kb: PageKb, p: Word, e: PtEvent, x': Shared) {
    && p in x.flights && x.flights[p].tagging.Tested?
    && var f := x.flights[p];
       && (f.mapped ==> f.out.hints.readMostly)
       && e.op == MapRange(p, f.out.bytes, Hbm, p) && PtStep(x.mem.table, kb, e, x'.mem.table)
       && x' == x.(flights := x.flights[p := f.(mapped := true)], mem := x.mem.(table := x'.mem.table))
  }

  /** Entering the live map, under the manager's lock. */
  ghost predicate CommitStep(x: Shared, p: Word, x': Shared) {
    && p in x.flights && x.flights[p].mapped && x.freeing == Idle
    && var out := x.flights[p].out;
       x' == x.(flights := x.flights - {p},
                mem := x.mem.(live := x.mem.live[p := out], bytes := (x.mem.bytes + out.bytes) % U64))
  }

  /** By any record of a live pointer. */
  ghost predicate BeginFreeStep(x: Shared, a: Allocation, x': Shared) {
    && x.freeing == Idle && a.hbmPtr in x.mem.live
    && var untags := a.ilcTagged && x.mem.ilc.present && x.mem.ilc.enabled;
       && x'.flights == x.flights && x'.freeing == Untagged(a, untags && a.hbmPtr in x.mem.ilc.tagged)
       && x'.mem == if untags then x.mem.(ilc := x.mem.ilc.(tagged := x.mem.ilc.tagged - {a.hbmPtr})) else x.mem
  }

  ghost predicate UnmapFreedStep(x: Shared, kb: PageKb, s: Status, x': Shared) {
    && x.freeing.Untagged?
    && var a := x.freeing.a;
       && (exists u :: UnmapStep(x.mem.table, a.vaddr, a.bytes, kb, x'.mem.table, u))
       && x' == x.(freeing := Dropped(a, s), mem := x.mem.(table := x'.mem.table))
  }

  ghost predicate EndFreeStep(x: Shared, x': Shared) {
    && x.freeing.Dropped?
    && var a := x.freeing.a;
       x' == x.(freeing := Idle,
                mem := if x.freeing.s.Ok?
                       then x.mem.(live := x.mem.live - {a.hbmPtr}, bytes := (x.mem.bytes + U64 - a.bytes) % U64)
                       else x.mem)
  }

  /** No allocation is between its tag test and its mapping. */
  ghost predicate NoTagUnderWay(x: Shared) {
    forall p | p in x.flights && x.flights[p].out.hints.ilc :: x.flights[p].mapped || x.flights[p].tagging.Untested?
  }

  ghost predicate SwitchOffStep(x: Shared, x': Shared) {
    && x'.flights == x.flights
    && DisableStep(x.mem, x'.mem)
    && x'.freeing == if x.freeing.Untagged? then Untagged(x.freeing.a, false) else x.freeing
  }

  ghost predicate RawStep(x: Shared, kb: PageKb, op: FineOp, x': Shared) {
    match op
    case Reserve(out0, out) => ReserveStep(x, out0, out, x')
    case TestTag(p, ok) => TestTagStep(x, p, ok, x')
    case InsertTag(p) => InsertTagStep(x, p, x')
    case MapPages(p, e) => MapPagesStep(x, kb, p, e, x')
    case Commit(p) => CommitStep(x, p, x')
    case BeginFree(a) => BeginFreeStep(x, a, x')
    case UnmapFreed(s) => UnmapFreedStep(x, kb, s, x')
    case EndFree => EndFreeStep(x, x')
    case OtherPages(e) => x' == x.(mem := x'.mem) && MemStep(x.mem, kb, Pages(e), x'.mem)
    case SwitchOn => x' == x.(mem := x'.mem) && EnableStep(x.mem, x'.mem)
    case SwitchOff => SwitchOffStep(x, x')
  }

  /** Compression is not switched while an allocation is between its tag test and its
      mapping. */
  ghost predicate FineStep(x: Shared, kb: PageKb, op: FineOp, x': Shared) {
    RawStep(x, kb, op, x') && (op.SwitchOn? || op.SwitchOff? ==> NoTagUnderWay(x))
  }

  /** The whole call a step amounts to. */
  ghost function WholeOp(x: Shared, op: FineOp): MemOp {
    match op
    case MapPages(p, e) =>
      if p in x.flights && !x.flights[p].mapped
      then var f := x.flights[p]; Alloc(f.out.bytes, f.out.hints, f.out0, f.out)
      else Pages(e)
    case UnmapFreed(s) => if x.freeing.Untagged? then Free(x.freeing.a, s) else Nothing
    case OtherPages(e) => Pages(e)
    case SwitchOn => Enable
    case SwitchOff => Disable
    case _ => Nothing
  }

  // ---- The invariant --------------------------------------------------------

  /** The tag of an allocation under way is in the set when it was entered, and otherwise
      only if it had been there before. */
  ghost predicate TagOk(x: Shared, p: Word)
    requires p in x.flights
  {
    var f := x.flights[p];
    match f.tagging
    case Untested => f.out.ilcTagged == f.out0.ilcTagged
    case Passed(had) =>
      && TagTried(x.mem, f.out.hints) && (p in x.mem.ilc.tagged <==> had)
    case Tested(had) =>
      && (!TagTried(x.mem, f.out.hints) ==> f.out.ilcTagged == f.out0.ilcTagged)
      && (p in x.mem.ilc.tagged ==> had || (TagTried(x.mem, f.out.hints) && f.out.ilcTagged))
      && (TagTried(x.mem, f.out.hints) && f.out.ilcTagged ==> p in x.mem.ilc.tagged)
  }

  ghost predicate FlightOk(x: Shared, p: Word)
    requires p in x.flights
  {
    var f := x.flights[p];
    && f.out.hbmPtr == p == f.out.vaddr && f.out.bytes > 0
    && (f.mapped ==> f.tagging.Tested?)
    && (!f.mapped ==> TagOk(x, p))
    && (p in x.mem.live ==> GivenBack(x, p))
  }

  ghost predicate FlightsOk(x: Shared) {
    forall p | p in x.flights :: FlightOk(x, p)
  }

  ghost predicate FreeingOk(x: Shared) {
    && (x.freeing != Idle ==> x.freeing.a.hbmPtr in x.mem.live)
    && (x.freeing.Untagged? && x.freeing.took ==>
          x.freeing.a.ilcTagged && x.mem.ilc.present && x.mem.ilc.enabled)
    && (x.freeing.Untagged? && x.freeing.a.ilcTagged ==>
          x.mem.ilc.present && x.mem.ilc.enabled ==> x.freeing.a.hbmPtr !in x.mem.ilc.tagged)
  }

  ghost predicate TagsNeedEnabled(m: Mem) {
    m.ilc.tagged != {} ==> m.ilc.present && m.ilc.enabled
  }

  ghost predicate FineInv(x: Shared) {
    FlightsOk(x) && FreeingOk(x) && TagsNeedEnabled(x.mem)
  }

  // ---- Small facts ----------------------------------------------------------

  /** A flight other steps did not touch stays as good as it was. */
  lemma FlightKept(x: Shared, x': Shared, p: Word)
    requires p in x.flights && FlightOk(x, p) && p in x'.flights && x'.flights[p] == x.flights[p]
    requires x'.mem.ilc.present == x.mem.ilc.present && x'.mem.ilc.enabled == x.mem.ilc.enabled
    requires p in x'.mem.ilc.tagged <==> p in x.mem.ilc.tagged
    requires p in x'.mem.live ==> GivenBack(x', p)
    ensures FlightOk(x', p)
  {
  }

  lemma SameWhole(x: Shared, x': Shared)
    requires LiveOf(x') == LiveOf(x) && TagsOf(x') == TagsOf(x) && BytesOf(x') == BytesOf(x)
    requires x'.mem.table == x.mem.table
    requires x'.mem.ilc.present == x.mem.ilc.present && x'.mem.ilc.enabled == x.mem.ilc.enabled
    ensures Whole(x') == Whole(x)
  {
  }

  /** A live pointer not given back has no flight. */
  lemma LiveNotFlying(x: Shared, p: Word)
    requires FlightsOk(x) && p in x.mem.live && !GivenBack(x, p)
    ensures p !in x.flights && p in LiveOf(x) && LiveOf(x)[p] == x.mem.live[p]
  {
    assert p in x.flights ==> FlightOk(x, p);
  }

  lemma ReservedNotLive(x: Shared, p: Word)
    requires p in x.flights && FlightOk(x, p) && !x.flights[p].mapped
    ensures p !in LiveOf(x)
  {
  }

  lemma BackAdd(sum: nat, back: Word)
    ensures (sum % U64 + U64 - back) % U64 == (sum + U64 - back) % U64
  {
    SumAdd(sum, U64 - back);
  }

  /** Flights that have not landed count for nothing yet. */
  lemma SameLanded(x: Shared, x': Shared)
    requires Landed(x'.flights) == Landed(x.flights) && x'.freeing == x.freeing
    requires x'.mem.live == x.mem.live && x'.mem.bytes == x.mem.bytes
    ensures LiveOf(x') == LiveOf(x) && BytesOf(x') == BytesOf(x)
  {
    assert forall p :: GivenBack(x', p) <==> GivenBack(x, p);
  }

  // ---- Reserving ------------------------------------------------------------

  lemma ReserveFine(x: Shared, out0: Allocation, out: Allocation, x': Shared)
    requires FineInv(x) && ReserveStep(x, out0, out, x')
    ensures FineInv(x') && Whole(x') == Whole(x)
  {
    ReserveLanded(x, out0, out, x');
    SameLanded(x, x');
    ReserveTags(x, out0, out, x');
    SameWhole(x, x');
    ReserveFlights(x, out0, out, x');
  }

  lemma ReserveLanded(x: Shared, out0: Allocation, out: Allocation, x': Shared)
    requires ReserveStep(x, out0, out, x')
    ensures Landed(x'.flights) == Landed(x.flights)
  {
  }

  lemma ReserveTags(x: Shared, out0: Allocation, out: Allocation, x': Shared)
    requires ReserveStep(x, out0, out, x')
    ensures TagsOf(x') == TagsOf(x)
  {
    assert forall q :: EarlyTag(x', q) <==> EarlyTag(x, q);
  }

  lemma ReserveFlights(x: Shared, out0: Allocation, out: Allocation, x': Shared)
    requires FlightsOk(x) && ReserveStep(x, out0, out, x')
    ensures FlightsOk(x')
  {
    forall q | q in x'.flights ensures FlightOk(x', q) {
      if q != out.hbmPtr {
        assert FlightOk(x, q);
        FlightKept(x, x', q);
      }
    }
  }

  // ---- Tagging --------------------------------------------------------------

  lemma TestTagFine(x: Shared, p: Word, ok: bool, x': Shared)
    requires FineInv(x) && TestTagStep(x, p, ok, x')
    ensures FineInv(x') && Whole(x') == Whole(x)
  {
    assert FlightOk(x, p);
    assert Landed(x'.flights) == Landed(x.flights);
    SameLanded(x, x');
    TestTagTags(x, p, ok, x');
    SameWhole(x, x');
    forall q | q in x'.flights ensures FlightOk(x', q) {
      if q != p {
        assert FlightOk(x, q);
        FlightKept(x, x', q);
      }
    }
  }

  lemma TestTagTags(x: Shared, p: Word, ok: bool, x': Shared)
    requires TestTagStep(x, p, ok, x') && !x.flights[p].mapped
    ensures TagsOf(x') == TagsOf(x)
  {
    forall q | q in x.mem.ilc.tagged ensures EarlyTag(x', q) <==> EarlyTag(x, q) {
    }
  }

  lemma InsertTagFine(x: Shared, p: Word, x': Shared)
    requires FineInv(x) && InsertTagStep(x, p, x')
    ensures FineInv(x') && Whole(x') == Whole(x)
  {
    assert FlightOk(x, p);
    assert Landed(x'.flights) == Landed(x.flights);
    SameLanded(x, x');
    InsertTagTags(x, p, x');
    SameWhole(x, x');
    InsertTagFlights(x, p, x');
    assert FreeingOk(x') by {
      if x.freeing.Untagged? { LiveNotFlying(x, x.freeing.a.hbmPtr); }
    }
  }

  lemma InsertTagTags(x: Shared, p: Word, x': Shared)
    requires InsertTagStep(x, p, x') && FlightOk(x, p)
    ensures TagsOf(x') == TagsOf(x)
  {
    forall q ensures q in x'.mem.ilc.tagged && !EarlyTag(x', q) <==> q in x.mem.ilc.tagged && !EarlyTag(x, q) {
    }
  }

  lemma InsertTagFlights(x: Shared, p: Word, x': Shared)
    requires FlightsOk(x) && InsertTagStep(x, p, x')
    ensures FlightsOk(x')
  {
    assert FlightOk(x, p);
    forall q | q in x'.flights ensures FlightOk(x', q) {
      if q != p {
        assert FlightOk(x, q);
        FlightKept(x, x', q);
      }
    }
  }

  // ---- Mapping --------------------------------------------------------------

  ghost predicate Lands(x: Shared, p: Word, x': Shared) {
    && p in x.flights && !x.flights[p].mapped
    && x' == x.(flights := x.flights[p := x.flights[p].(mapped := true)], mem := x.mem.(table := x'.mem.table))
  }

  lemma LandsView(x: Shared, p: Word, x': Shared)
    requires Lands(x, p, x')
    ensures LiveOf(x') == LiveOf(x)[p := x.flights[p].out]
    ensures BytesOf(x') == (BytesOf(x) + x.flights[p].out.bytes) % U64
  {
    var out := x.flights[p].out;
    assert Landed(x'.flights) == Landed(x.flights)[p := out];
    assert forall q :: GivenBack(x', q) <==> GivenBack(x, q);
    assert StillLive(x') == StillLive(x);
    MergeWith(StillLive(x), Landed(x.flights), p, out);
    LandsBytes(x, p, out, x');
  }

  lemma MergeWith(a: map<Word, Allocation>, b: map<Word, Allocation>, p: Word, out: Allocation)
    ensures a + b[p := out] == (a + b)[p := out]
  {
  }

  lemma LandsBytes(x: Shared, p: Word, out: Allocation, x': Shared)
    requires p !in Landed(x.flights) && Landed(x'.flights) == Landed(x.flights)[p := out]
    requires x'.freeing == x.freeing && x'.mem.bytes == x.mem.bytes
    ensures BytesOf(x') == (BytesOf(x) + out.bytes) % U64
  {
    SumBytesWith(Landed(x.flights), p, out);
    var landed := x.mem.bytes + SumBytes(Landed(x.flights));
    if x.freeing.Dropped? && x.freeing.s.Ok? {
      SumAdd(landed + U64 - x.freeing.a.bytes, out.bytes);
    } else {
      SumAdd(landed, out.bytes);
    }
  }

  lemma LandsTags(x: Shared, p: Word, x': Shared)
    requires Lands(x, p, x') && FlightOk(x, p) && x.flights[p].tagging.Tested?
    ensures var out := x.flights[p].out;
            TagsOf(x') == if TagTried(x.mem, out.hints) && out.ilcTagged then TagsOf(x) + {p} else TagsOf(x)
  {
    forall q ensures q in x'.mem.ilc.tagged && !EarlyTag(x', q) <==>
                     (q in x.mem.ilc.tagged && !EarlyTag(x, q)) || (q == p && q in x.mem.ilc.tagged)
    {
    }
  }

  lemma LandsIsAlloc(x: Shared, kb: PageKb, out0: Allocation, out: Allocation, x': Shared)
    requires out == Allocation(out.hbmPtr, out.bytes, out.hints, out.hbmPtr, out.ilcTagged) && out.bytes > 0
    requires !TagTried(x.mem, out.hints) ==> out.ilcTagged == out0.ilcTagged
    requires MapStep(x.mem.table, out.hbmPtr, out.bytes, Hbm, out.hbmPtr, kb, x'.mem.table)
    requires LiveOf(x') == LiveOf(x)[out.hbmPtr := out] && BytesOf(x') == (BytesOf(x) + out.bytes) % U64
    requires x'.mem.ilc == x.mem.ilc
    requires TagsOf(x') ==
               if TagTried(x.mem, out.hints) && out.ilcTagged then TagsOf(x) + {out.hbmPtr} else TagsOf(x)
    ensures AllocOkStep(Whole(x), out.bytes, out.hints, out0, kb, Whole(x'), out)
  {
  }

  lemma LandsFlights(x: Shared, p: Word, x': Shared)
    requires FlightsOk(x) && Lands(x, p, x') && x.flights[p].tagging.Tested?
    ensures FlightsOk(x')
  {
    forall q | q in x'.flights ensures FlightOk(x', q) {
      assert FlightOk(x, q);
      if q != p {
        FlightKept(x, x', q);
      }
    }
  }

  /** The first mapping is where the allocation takes effect. */
  lemma FirstMapFine(x: Shared, kb: PageKb, p: Word, e: PtEvent, x': Shared)
    requires FineInv(x) && MapPagesStep(x, kb, p, e, x') && !x.flights[p].mapped
    ensures FineInv(x')
    ensures MemStep(Whole(x), kb, WholeOp(x, MapPages(p, e)), Whole(x'))
  {
    assert FlightOk(x, p);
    LandsView(x, p, x');
    LandsTags(x, p, x');
    LandsIsAlloc(x, kb, x.flights[p].out0, x.flights[p].out, x');
    LandsFlights(x, p, x');
  }

  /** Page-table calls change the view's table and nothing else. */
  lemma TableFine(x: Shared, kb: PageKb, e: PtEvent, x': Shared)
    requires FineInv(x) && x' == x.(mem := x.mem.(table := x'.mem.table)) && PtStep(x.mem.table, kb, e, x'.mem.table)
    ensures FineInv(x') && MemStep(Whole(x), kb, Pages(e), Whole(x'))
  {
    SameLanded(x, x');
    assert forall q :: EarlyTag(x', q) <==> EarlyTag(x, q);
    assert TagsOf(x') == TagsOf(x);
    forall q | q in x'.flights ensures FlightOk(x', q) {
      assert FlightOk(x, q);
      FlightKept(x, x', q);
    }
  }

  // ---- Entering the live map ------------------------------------------------

  lemma CommitFine(x: Shared, p: Word, x': Shared)
    requires FineInv(x) && CommitStep(x, p, x')
    ensures FineInv(x') && Whole(x') == Whole(x)
  {
    assert FlightOk(x, p);
    CommitView(x, p, x');
    CommitTags(x, p, x');
    SameWhole(x, x');
    forall q | q in x'.flights ensures FlightOk(x', q) {
      assert FlightOk(x, q);
      FlightKept(x, x', q);
    }
  }

  lemma CommitView(x: Shared, p: Word, x': Shared)
    requires CommitStep(x, p, x')
    ensures LiveOf(x') == LiveOf(x) && BytesOf(x') == BytesOf(x)
  {
    var out, landed := x.flights[p].out, Landed(x.flights);
    assert Landed(x'.flights) == landed - {p};
    assert StillLive(x') == StillLive(x)[p := out];
    CommitBytes(x, p, x');
  }

  lemma CommitBytes(x: Shared, p: Word, x': Shared)
    requires CommitStep(x, p, x') && Landed(x'.flights) == Landed(x.flights) - {p}
    ensures BytesOf(x') == BytesOf(x)
  {
    SumBytesWithout(Landed(x.flights), p);
    SumAdd(x.mem.bytes + x.flights[p].out.bytes, SumBytes(Landed(x.flights) - {p}));
  }

  lemma CommitTags(x: Shared, p: Word, x': Shared)
    requires CommitStep(x, p, x')
    ensures TagsOf(x') == TagsOf(x)
  {
    assert forall q :: EarlyTag(x', q) <==> EarlyTag(x, q);
  }

  // ---- Freeing --------------------------------------------------------------

  lemma BeginFreeFine(x: Shared, a: Allocation, x': Shared)
    requires FineInv(x) && BeginFreeStep(x, a, x')
    ensures FineInv(x') && Whole(x') == Whole(x)
  {
    LiveNotFlying(x, a.hbmPtr);
    assert forall p :: !GivenBack(x, p) && !GivenBack(x', p);
    assert LiveOf(x') == LiveOf(x) && BytesOf(x') == BytesOf(x);
    BeginFreeTags(x, a, x');
    SameWhole(x, x');
    forall q | q in x'.flights ensures FlightOk(x', q) {
      assert FlightOk(x, q);
      FlightKept(x, x', q);
    }
  }

  lemma BeginFreeTags(x: Shared, a: Allocation, x': Shared)
    requires BeginFreeStep(x, a, x') && a.hbmPtr !in x.flights
    ensures TagsOf(x') == TagsOf(x)
  {
    assert forall q :: EarlyTag(x', q) <==> EarlyTag(x, q);
  }

  lemma UnmapFreedView(x: Shared, kb: PageKb, s: Status, x': Shared)
    requires UnmapFreedStep(x, kb, s, x') && x.freeing.a.hbmPtr !in x.flights
    ensures LiveOf(x') == if s.Ok? then LiveOf(x) - {x.freeing.a.hbmPtr} else LiveOf(x)
    ensures BytesOf(x') == if s.Ok? then (BytesOf(x) + U64 - x.freeing.a.bytes) % U64 else BytesOf(x)
  {
    assert forall p :: GivenBack(x', p) <==> s.Ok? && p == x.freeing.a.hbmPtr;
    assert forall p :: !GivenBack(x, p);
    BackAdd(x.mem.bytes + SumBytes(Landed(x.flights)), x.freeing.a.bytes);
  }

  lemma UnmapFreedTags(x: Shared, kb: PageKb, s: Status, x': Shared)
    requires UnmapFreedStep(x, kb, s, x') && FreeingOk(x)
    ensures var a := x.freeing.a;
            TagsOf(x') == if a.ilcTagged && x.mem.ilc.present && x.mem.ilc.enabled
                          then TagsOf(x) - {a.hbmPtr} else TagsOf(x)
  {
    assert forall q :: EarlyTag(x', q) <==> EarlyTag(x, q);
  }

  lemma UnmapFreedIsFree(x: Shared, kb: PageKb, a: Allocation, s: Status, x': Shared)
    requires a.hbmPtr in LiveOf(x) && x'.mem.ilc == x.mem.ilc
    requires exists u :: UnmapStep(x.mem.table, a.vaddr, a.bytes, kb, x'.mem.table, u)
    requires LiveOf(x') == if s.Ok? then LiveOf(x) - {a.hbmPtr} else LiveOf(x)
    requires BytesOf(x') == if s.Ok? then (BytesOf(x) + U64 - a.bytes) % U64 else BytesOf(x)
    requires TagsOf(x') == if a.ilcTagged && x.mem.ilc.present && x.mem.ilc.enabled
                           then TagsOf(x) - {a.hbmPtr} else TagsOf(x)
    ensures FreeStep(Whole(x), a, kb, Whole(x'), s)
  {
  }

  /** The unmapping is where the free takes effect, its answer being what the device
      will say. */
  lemma UnmapFreedFine(x: Shared, kb: PageKb, s: Status, x': Shared)
    requires FineInv(x) && UnmapFreedStep(x, kb, s, x')
    ensures FineInv(x') && MemStep(Whole(x), kb, Free(x.freeing.a, s), Whole(x'))
  {
    LiveNotFlying(x, x.freeing.a.hbmPtr);
    UnmapFreedView(x, kb, s, x');
    UnmapFreedTags(x, kb, s, x');
    UnmapFreedIsFree(x, kb, x.freeing.a, s, x');
    forall q | q in x'.flights ensures FlightOk(x', q) {
      assert FlightOk(x, q);
      FlightKept(x, x', q);
    }
  }

  lemma EndFreeFine(x: Shared, x': Shared)
    requires FineInv(x) && EndFreeStep(x, x')
    ensures FineInv(x') && Whole(x') == Whole(x)
  {
    EndFreeView(x, x');
    assert forall q :: EarlyTag(x', q) <==> EarlyTag(x, q);
    assert TagsOf(x') == TagsOf(x);
    SameWhole(x, x');
    forall q | q in x'.flights ensures FlightOk(x', q) {
      assert FlightOk(x, q);
      FlightKept(x, x', q);
    }
  }

  lemma EndFreeView(x: Shared, x': Shared)
    requires EndFreeStep(x, x')
    ensures LiveOf(x') == LiveOf(x) && BytesOf(x') == BytesOf(x)
  {
    assert forall p :: !GivenBack(x', p);
    assert forall p :: GivenBack(x, p) <==> x.freeing.s.Ok? && p == x.freeing.a.hbmPtr;
    if x.freeing.s.Ok? {
      SumAdd(x.mem.bytes + U64 - x.freeing.a.bytes, SumBytes(Landed(x.flights)));
    }
  }

  // ---- Switching compression ------------------------------------------------

  lemma SwitchOnFine(x: Shared, kb: PageKb, x': Shared)
    requires FineInv(x) && FineStep(x, kb, SwitchOn, x')
    ensures FineInv(x') && EnableStep(Whole(x), Whole(x'))
  {
    SameLanded(x, x');
    assert forall q :: EarlyTag(x', q) <==> EarlyTag(x, q);
    assert TagsOf(x') == TagsOf(x);
    forall q | q in x'.flights ensures FlightOk(x', q) {
      assert FlightOk(x, q);
    }
  }

  lemma SwitchOffFine(x: Shared, kb: PageKb, x': Shared)
    requires FineInv(x) && FineStep(x, kb, SwitchOff, x')
    ensures FineInv(x') && DisableStep(Whole(x), Whole(x'))
  {
    assert forall p :: GivenBack(x', p) <==> GivenBack(x, p);
    assert LiveOf(x') == LiveOf(x) && BytesOf(x') == BytesOf(x);
    SwitchOffTags(x, x');
    forall q | q in x'.flights ensures FlightOk(x', q) {
      assert FlightOk(x, q);
    }
  }

  lemma SwitchOffTags(x: Shared, x': Shared)
    requires FreeingOk(x) && TagsNeedEnabled(x.mem) && SwitchOffStep(x, x')
    ensures TagsOf(x') == if x.mem.ilc.present && x.mem.ilc.enabled then {} else TagsOf(x)
  {
  }

  // ---- Whole runs -----------------------------------------------------------

  /** Every step is, in the whole-call view, one whole call or nothing. */
  lemma FineStepIsWhole(x: Shared, kb: PageKb, op: FineOp, x': Shared)
    requires FineInv(x) && FineStep(x, kb, op, x')
    ensures FineInv(x') && MemStep(Whole(x), kb, WholeOp(x, op), Whole(x'))
  {
    match op
    case Reserve(out0, out) => ReserveFine(x, out0, out, x');
    case TestTag(p, ok) => TestTagFine(x, p, ok, x');
    case InsertTag(p) => InsertTagFine(x, p, x');
    case MapPages(p, e) =>
      if x.flights[p].mapped {
        assert x'.flights == x.flights;
        TableFine(x, kb, e, x');
      } else {
        FirstMapFine(x, kb, p, e, x');
      }
    case Commit(p) => CommitFine(x, p, x');
    case BeginFree(a) => BeginFreeFine(x, a, x');
    case UnmapFreed(s) => UnmapFreedFine(x, kb, s, x');
    case EndFree => EndFreeFine(x, x');
    case OtherPages(e) => TableFine(x, kb, e, x');
    case SwitchOn => SwitchOnFine(x, kb, x');
    case SwitchOff => SwitchOffFine(x, kb, x');
  }

  lemma QuietIsWhole(x: Shared)
    requires Quiet(x)
    ensures Whole(x) == x.mem
  {
    assert Landed(x.flights) == map[];
    assert SumBytes(map[]) == 0;
    assert LiveOf(x) == x.mem.live;
    assert TagsOf(x) == x.mem.ilc.tagged;
  }

  /** From a state with no call under way and matching books. */
  ghost predicate IsFineRun(run: seq<Shared>, ops: seq<FineOp>, kb: PageKb) {
    && |run| == |ops| + 1 && Quiet(run[0]) && Match(run[0].mem, kb)
    && forall i | 0 <= i < |ops| :: FineStepAt(run, ops, kb, i)
  }

  ghost predicate FineStepAt(run: seq<Shared>, ops: seq<FineOp>, kb: PageKb, i: nat)
    requires |run| == |ops| + 1 && i < |ops|
  {
    FineStep(run[i], kb, ops[i], run[i + 1])
  }

  ghost function WholeRun(run: seq<Shared>): (w: seq<Mem>)
    ensures |w| == |run| && forall i | 0 <= i < |run| :: w[i] == Whole(run[i])
  {
    seq(|run|, i requires 0 <= i < |run| => Whole(run[i]))
  }

  ghost function WholeOps(run: seq<Shared>, ops: seq<FineOp>): (w: seq<MemOp>)
    requires |run| == |ops| + 1
    ensures |w| == |ops| && forall i | 0 <= i < |ops| :: w[i] == WholeOp(run[i], ops[i])
  {
    seq(|ops|, i requires 0 <= i < |ops| => WholeOp(run[i], ops[i]))
  }

  lemma {:induction false} FineRunInv(run: seq<Shared>, ops: seq<FineOp>, kb: PageKb, i: nat)
    requires IsFineRun(run, ops, kb) && i < |run|
    ensures FineInv(run[i])
  {
    if i > 0 {
      FineRunInv(run, ops, kb, i - 1);
      assert FineStepAt(run, ops, kb, i - 1);
      FineStepIsWhole(run[i - 1], kb, ops[i - 1], run[i]);
    }
  }

  /** Every interleaving is, in the whole-call view, a run of whole calls; and whenever
      no call is under way the manager's own books are that view. */
  lemma InterleavingIsWholeRun(run: seq<Shared>, ops: seq<FineOp>, kb: PageKb)
    requires IsFineRun(run, ops, kb)
    ensures IsMemRun(WholeRun(run), WholeOps(run, ops), kb)
    ensures forall i | 0 <= i < |run| && Quiet(run[i]) :: WholeRun(run)[i] == run[i].mem
  {
    QuietIsWhole(run[0]);
    forall i | 0 <= i < |ops| ensures MemStepAt(WholeRun(run), WholeOps(run, ops), kb, i) {
      FineRunInv(run, ops, kb, i);
      assert FineStepAt(run, ops, kb, i);
      FineStepIsWhole(run[i], kb, ops[i], run[i + 1]);
    }
    forall i | 0 <= i < |run| && Quiet(run[i]) ensures Whole(run[i]) == run[i].mem {
      QuietIsWhole(run[i]);
    }
  }

  /** In every interleaving the books match, in that view, throughout if and only if
      every whole call met its condition where it took effect. */
  lemma InterleavedRunMatchesIff(run: seq<Shared>, ops: seq<FineOp>, kb: PageKb)
    requires IsFineRun(run, ops, kb)
    ensures (forall i | 0 <= i <= |ops| :: Match(WholeRun(run)[i], kb))
       <==> (forall i | 0 <= i < |ops| :: KeepsAt(WholeRun(run), WholeOps(run, ops), kb, i))
  {
    InterleavingIsWholeRun(run, ops, kb);
    RunMatchesIff(WholeRun(run), WholeOps(run, ops), kb, |ops|);
  }

  // ---- Disciplined clients --------------------------------------------------

  /** Clients pass fresh records to `alloc` and those records to `free`, after unpinning;
      the device hands out pages of their own and takes them back; other page-table calls
      leave the mapped set alone; and compression goes off only when nothing is tagged. */
  ghost predicate Disciplined(x: Shared, kb: PageKb, op: FineOp, x': Shared) {
    match op
    case Reserve(out0, out) =>
      && !out0.ilcTagged && PagesFree(LiveOf(x), kb, out)
      && forall q | q in x.flights :: PagesOf(x.flights[q].out, kb) !! PagesOf(out, kb)
    case BeginFree(a) => a.hbmPtr in x.mem.live && x.mem.live[a.hbmPtr] == a
    case UnmapFreed(s) => s.Ok? && x.freeing.Untagged? && PinnedIn(x.mem.table, PagesOf(x.freeing.a, kb)) == {}
    case OtherPages(e) => x'.mem.table.Keys == x.mem.table.Keys
    case SwitchOff => forall p | p in LiveOf(x) :: !LiveOf(x)[p].ilcTagged
    case _ => true
  }

  ghost predicate FlightsApart(flights: map<Word, Flight>, kb: PageKb) {
    forall p, q | p in flights && q in flights && p != q :: PagesOf(flights[p].out, kb) !! PagesOf(flights[q].out, kb)
  }

  /** Where the flights not mapped yet will land there is room. */
  ghost predicate RoomAhead(x: Shared, kb: PageKb) {
    forall p | p in x.flights && !x.flights[p].mapped ::
      PagesFree(LiveOf(x), kb, x.flights[p].out) && !x.flights[p].out0.ilcTagged
  }

  ghost predicate DisciplineInv(x: Shared, kb: PageKb) {
    && Agree(Whole(x), kb)
    && FlightsApart(x.flights, kb)
    && RoomAhead(x, kb)
    && (x.freeing.Untagged? ==> x.freeing.a.hbmPtr in x.mem.live && x.mem.live[x.freeing.a.hbmPtr] == x.freeing.a)
  }

  lemma LandedIsMapped(x: Shared, kb: PageKb, p: Word)
    requires MappedExactly(Whole(x), kb) && p in x.flights && x.flights[p].mapped
    ensures PagesOf(x.flights[p].out, kb) <= x.mem.table.Keys
  {
    forall a | a in PagesOf(x.flights[p].out, kb) ensures a in x.mem.table {
      assert LiveOwns(Whole(x), kb, p, a);
    }
  }

  lemma OwnFreeKeeps(m: Mem, kb: PageKb, a: Allocation)
    requires Agree(m, kb) && a.hbmPtr in m.live && m.live[a.hbmPtr] == a
    requires PinnedIn(m.table, PagesOf(a, kb)) == {}
    ensures FreeKeeps(m, kb, a)
  {
    UnsharedAlone(m, kb, a.hbmPtr);
    AloneIsMapped(m, kb, a.hbmPtr);
    RemovableAllIff(m.table, PagesOf(a, kb));
  }

  lemma MappingKeeps(x: Shared, kb: PageKb, p: Word, e: PtEvent, x': Shared)
    requires FlightsOk(x) && MappedExactly(Whole(x), kb) && RoomAhead(x, kb) && MapPagesStep(x, kb, p, e, x')
    ensures var op := WholeOp(x, MapPages(p, e)); Keeps(Whole(x), kb, op, Whole(x')) && KeepsApart(Whole(x), kb, op)
  {
    assert FlightOk(x, p);
    if x.flights[p].mapped {
      LandedIsMapped(x, kb, p);
      assert x'.mem.table.Keys == x.mem.table.Keys;
    } else {
      ReservedNotLive(x, p);
    }
  }

  lemma FreeingKeeps(x: Shared, kb: PageKb)
    requires FlightsOk(x) && DisciplineInv(x, kb) && x.freeing.Untagged?
    requires PinnedIn(x.mem.table, PagesOf(x.freeing.a, kb)) == {}
    ensures Keeps(Whole(x), kb, Free(x.freeing.a, Ok), Whole(x))
  {
    LiveNotFlying(x, x.freeing.a.hbmPtr);
    OwnFreeKeeps(Whole(x), kb, x.freeing.a);
  }

  /** A disciplined step meets the condition of the whole call it amounts to. */
  lemma DisciplineKeeps(x: Shared, kb: PageKb, op: FineOp, x': Shared)
    requires FineInv(x) && DisciplineInv(x, kb) && FineStep(x, kb, op, x') && Disciplined(x, kb, op, x')
    ensures Keeps(Whole(x), kb, WholeOp(x, op), Whole(x')) && KeepsApart(Whole(x), kb, WholeOp(x, op))
  {
    match op
    case MapPages(p, e) => MappingKeeps(x, kb, p, e, x');
    case UnmapFreed(s) => FreeingKeeps(x, kb);
    case _ =>
  }

  /** The flights of `x'` are some of those of `x`, none less far. */
  ghost predicate FewerFlights(x: Shared, kb: PageKb, x': Shared) {
    forall p | p in x'.flights ::
      && p in x.flights
      && PagesOf(x'.flights[p].out, kb) == PagesOf(x.flights[p].out, kb)
      && x'.flights[p].out0 == x.flights[p].out0
      && (x.flights[p].mapped ==> x'.flights[p].mapped)
  }

  ghost predicate FewerLive(x: Shared, x': Shared) {
    forall p | p in LiveOf(x') :: p in LiveOf(x) && LiveOf(x')[p] == LiveOf(x)[p]
  }

  lemma StepFewerFlights(x: Shared, kb: PageKb, op: FineOp, x': Shared)
    requires RawStep(x, kb, op, x') && !op.Reserve?
    ensures FewerFlights(x, kb, x')
  {
  }

  lemma StepFewerLive(x: Shared, kb: PageKb, op: FineOp, x': Shared)
    requires FineInv(x) && FineStep(x, kb, op, x') && !WholeOp(x, op).Alloc?
    ensures FewerLive(x, x')
  {
    FineStepIsWhole(x, kb, op, x');
    assert LiveOf(x) == Whole(x).live && LiveOf(x') == Whole(x').live;
  }

  lemma FewerKeepRoom(x: Shared, kb: PageKb, x': Shared)
    requires FlightsApart(x.flights, kb) && RoomAhead(x, kb) && FewerFlights(x, kb, x') && FewerLive(x, x')
    ensures FlightsApart(x'.flights, kb) && RoomAhead(x', kb)
  {
  }

  lemma LandingKeepsRoom(x: Shared, kb: PageKb, p: Word, x': Shared)
    requires FlightsApart(x.flights, kb) && RoomAhead(x, kb) && Lands(x, p, x')
    ensures FlightsApart(x'.flights, kb) && RoomAhead(x', kb)
  {
    LandsView(x, p, x');
  }

  lemma ReserveKeepsRoom(x: Shared, kb: PageKb, out0: Allocation, out: Allocation, x': Shared)
    requires FlightsApart(x.flights, kb) && RoomAhead(x, kb) && ReserveStep(x, out0, out, x')
    requires Disciplined(x, kb, Reserve(out0, out), x')
    ensures FlightsApart(x'.flights, kb) && RoomAhead(x', kb)
  {
    ReserveLanded(x, out0, out, x');
    SameLanded(x, x');
  }

  lemma FlightsKeepRoom(x: Shared, kb: PageKb, op: FineOp, x': Shared)
    requires FineInv(x) && DisciplineInv(x, kb) && FineStep(x, kb, op, x') && Disciplined(x, kb, op, x')
    ensures FlightsApart(x'.flights, kb) && RoomAhead(x', kb)
  {
    if op.Reserve? {
      ReserveKeepsRoom(x, kb, op.out0, op.out, x');
    } else if WholeOp(x, op).Alloc? {
      LandingKeepsRoom(x, kb, op.p, x');
    } else {
      StepFewerFlights(x, kb, op, x');
      StepFewerLive(x, kb, op, x');
      FewerKeepRoom(x, kb, x');
    }
  }

  lemma FreeingKept(x: Shared, kb: PageKb, op: FineOp, x': Shared)
    requires FineStep(x, kb, op, x') && Disciplined(x, kb, op, x')
    requires x.freeing.Untagged? ==> x.freeing.a.hbmPtr in x.mem.live && x.mem.live[x.freeing.a.hbmPtr] == x.freeing.a
    ensures x'.freeing.Untagged? ==>
              x'.freeing.a.hbmPtr in x'.mem.live && x'.mem.live[x'.freeing.a.hbmPtr] == x'.freeing.a
  {
  }

  lemma DisciplineKept(x: Shared, kb: PageKb, op: FineOp, x': Shared)
    requires FineInv(x) && DisciplineInv(x, kb) && FineStep(x, kb, op, x') && Disciplined(x, kb, op, x')
    ensures FineInv(x') && DisciplineInv(x', kb)
  {
    FineStepIsWhole(x, kb, op, x');
    DisciplineKeeps(x, kb, op, x');
    StepAgreesIff(Whole(x), kb, WholeOp(x, op), Whole(x'));
    FlightsKeepRoom(x, kb, op, x');
    FreeingKept(x, kb, op, x');
  }

  /** In every interleaving of disciplined clients the view's books agree throughout, and
      the manager's own books whenever no call is under way. */
  lemma {:induction false} InterleavedRunAgrees(run: seq<Shared>, ops: seq<FineOp>, kb: PageKb, i: nat)
    requires IsFineRun(run, ops, kb) && Unshared(run[0].mem, kb) && i < |run|
    requires forall j | 0 <= j < |ops| :: Disciplined(run[j], kb, ops[j], run[j + 1])
    ensures FineInv(run[i]) && DisciplineInv(run[i], kb)
    ensures Quiet(run[i]) ==> Agree(run[i].mem, kb)
  {
    if i == 0 {
      QuietIsWhole(run[0]);
    } else {
      InterleavedRunAgrees(run, ops, kb, i - 1);
      assert FineStepAt(run, ops, kb, i - 1);
      DisciplineKept(run[i - 1], kb, ops[i - 1], run[i]);
    }
    if Quiet(run[i]) {
      QuietIsWhole(run[i]);
    }
  }
}
