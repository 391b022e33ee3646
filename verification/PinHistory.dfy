/** Pins over whole histories of page-table calls. */
module PinHistory {
  import opened Common
  import opened PageTables

  datatype PtOp =
    | MapRange(v: Word, bytes: Word, res: Residency, phys: Word)
    | UnmapRange(v: Word, bytes: Word)
    | Incref(v: Word)
    | Decref(v: Word)
    | EvictUntil(high: nat, low: nat, pol: EvictionPolicy)

  /** A call with its status and the clock when it began and ended. */
  datatype PtEvent = PtEvent(op: PtOp, s: Status, from: nat, now: nat)

  /** Mapping stamps each page with a reading taken during the call, pinning and
      unpinning with the last one. */
  ghost predicate PtStep(t: Table, kb: PageKb, e: PtEvent, t': Table) {
    && e.from <= e.now
    && match e.op
       case MapRange(v, bytes, res, phys) =>
         && e.s == Ok && MapStep(t, v, bytes, res, phys, kb, t')
         && Stamped(t', Covered(v, bytes, kb), e.from, e.now)
       case UnmapRange(v, bytes) => UnmapStep(t, v, bytes, kb, t', e.s)
       case Incref(v) =>
         IncStep(t, v, kb, t', e.s) && (e.s.Ok? ==> t'[Down(v, kb)].lastAccess == e.now)
       case Decref(v) =>
         DecStep(t, v, kb, t', e.s) && (e.s.Ok? ==> t'[Down(v, kb)].lastAccess == e.now)
       case EvictUntil(high, low, pol) =>
         e.s == Ok && exists gone :: EvictStep(t, high, low, pol, gone, t')
  }

  /** `tables[i + 1]` results from `tables[i]` by `events[i]`, from an empty table, and
      the clock never runs backwards. */
  ghost predicate IsHistory(tables: seq<Table>, events: seq<PtEvent>, kb: PageKb) {
    && |tables| == |events| + 1 && tables[0] == map[]
    && (forall i | 0 <= i < |events| :: StepAt(tables, events, kb, i))
    && (forall i, j | 0 <= i < j < |events| :: events[i].now <= events[j].from)
  }

  ghost predicate StepAt(tables: seq<Table>, events: seq<PtEvent>, kb: PageKb, i: nat)
    requires |tables| == |events| + 1 && i < |events|
  {
    PtStep(tables[i], kb, events[i], tables[i + 1])
  }

  ghost predicate Maps(e: PtEvent, kb: PageKb, a: nat) {
    e.op.MapRange? && a in Covered(e.op.v, e.op.bytes, kb)
  }

  ghost predicate Pins(e: PtEvent, kb: PageKb, a: nat) {
    e.op.Incref? && e.s == Ok && Down(e.op.v, kb) == a
  }

  ghost predicate Unpins(e: PtEvent, kb: PageKb, a: nat) {
    e.op.Decref? && e.s == Ok && Down(e.op.v, kb) == a
  }

  /** Successful increfs less successful decrefs of page `a` since it was last mapped. */
  ghost function PinBalance(events: seq<PtEvent>, kb: PageKb, a: nat): int {
    if events == [] then 0
    else
      var e, before := events[|events| - 1], events[..|events| - 1];
      if Maps(e, kb, a) then 0
      else if Pins(e, kb, a) then PinBalance(before, kb, a) + 1
      else if Unpins(e, kb, a) then PinBalance(before, kb, a) - 1
      else PinBalance(before, kb, a)
  }

  lemma MapKeepsTableOk(t: Table, v: Word, bytes: Word, res: Residency, phys: Word, kb: PageKb, t': Table)
    requires TableOk(t, kb) && MapStep(t, v, bytes, res, phys, kb, t')
    ensures TableOk(t', kb)
  {
    forall a | a in t' ensures a < U64 && IsPage(a, kb) && t'[a].vaddr == a && t'[a].refcount <= 0xFFFF {
      if a in Covered(v, bytes, kb) {
        assert a < RangeEnd(v, bytes, kb);
      }
    }
  }

  lemma StepKeepsTableOk(t: Table, kb: PageKb, e: PtEvent, t': Table)
    requires TableOk(t, kb) && PtStep(t, kb, e, t')
    ensures TableOk(t', kb)
  {
    match e.op
    case MapRange(v, bytes, res, phys) => MapKeepsTableOk(t, v, bytes, res, phys, kb, t');
    case UnmapRange(v, bytes) =>
    case Incref(v) =>
    case Decref(v) =>
    case EvictUntil(high, low, pol) =>
  }

  /** What one call does to one page that is mapped afterwards. */
  lemma StepOnPage(t: Table, kb: PageKb, e: PtEvent, t': Table, a: nat)
    requires TableOk(t, kb) && PtStep(t, kb, e, t') && a in t'
    ensures Maps(e, kb, a) ==> t'[a].refcount == 0
    ensures !Maps(e, kb, a) ==>
              && a in t
              && t'[a].refcount == t[a].refcount
                   + (if Pins(e, kb, a) then 1 else 0) - (if Unpins(e, kb, a) then 1 else 0)
  {
  }

  /** A pinned page not mapped over survives every call where it is. */
  lemma StepKeepsPinned(t: Table, kb: PageKb, e: PtEvent, t': Table, a: nat)
    requires PtStep(t, kb, e, t') && a in t && t[a].refcount > 0 && !Maps(e, kb, a)
    ensures a in t' && t'[a].residency == t[a].residency && t'[a].physOrHost == t[a].physOrHost
  {
    match e.op
    case MapRange(v, bytes, res, phys) =>
    case UnmapRange(v, bytes) =>
      if a in Covered(v, bytes, kb) {
        assert a in PinnedIn(t, Covered(v, bytes, kb));
      }
    case Incref(v) =>
    case Decref(v) =>
    case EvictUntil(high, low, pol) =>
  }

  /** Pin safety: over any history a mapped page's refcount is its pin balance and
      stays within sixteen bits. */
  lemma {:induction false} RefcountIsBalance(tables: seq<Table>, events: seq<PtEvent>, kb: PageKb, n: nat)
    requires IsHistory(tables, events, kb) && n < |tables|
    ensures TableOk(tables[n], kb)
    ensures forall a | a in tables[n] :: tables[n][a].refcount == PinBalance(events[..n], kb, a) <= 0xFFFF
  {
    if n > 0 {
      RefcountIsBalance(tables, events, kb, n - 1);
      var t, e, t' := tables[n - 1], events[n - 1], tables[n];
      assert StepAt(tables, events, kb, n - 1);
      StepKeepsTableOk(t, kb, e, t');
      assert events[..n][..n - 1] == events[..n - 1];
      forall a | a in t' ensures t'[a].refcount == PinBalance(events[..n], kb, a) {
        StepOnPage(t, kb, e, t', a);
      }
    }
  }

  /** While a page's pin balance stays positive and nothing maps over it, it stays
      mapped, at the same backing address and residency. */
  lemma {:induction false} PinnedPageStays(tables: seq<Table>, events: seq<PtEvent>, kb: PageKb, i: nat, j: nat, a: nat)
    requires IsHistory(tables, events, kb) && i <= j < |tables| && a in tables[i]
    requires forall m | i <= m < j :: !Maps(events[m], kb, a) && PinBalance(events[..m], kb, a) > 0
    ensures a in tables[j]
    ensures tables[j][a].residency == tables[i][a].residency
    ensures tables[j][a].physOrHost == tables[i][a].physOrHost
    decreases j
  {
    if i < j {
      PinnedPageStays(tables, events, kb, i, j - 1, a);
      RefcountIsBalance(tables, events, kb, j - 1);
      assert StepAt(tables, events, kb, j - 1);
      StepKeepsPinned(tables[j - 1], kb, events[j - 1], tables[j], a);
    }
  }

  /** Mapping over a pinned page drops its pins, whatever its refcount was. */
  lemma RemapDropsPins(t: Table, kb: PageKb, v: Word, bytes: Word, res: Residency, phys: Word, t': Table, a: nat)
    requires MapStep(t, v, bytes, res, phys, kb, t') && a in Covered(v, bytes, kb)
    ensures a in t' && t'[a].refcount == 0
    ensures res == Hbm ==> a in Unpinned(t')
  {
  }

  ghost predicate Spares(t: Table, a: nat, high: nat, low: nat, pol: EvictionPolicy, gone: set<nat>, t': Table) {
    EvictStep(t, high, low, pol, gone, t') ==> a in t' && t'[a].residency == Hbm
  }

  /** What keeps a page in HBM through every eviction is a positive pin balance since it
      was last mapped, and nothing else: not the read-mostly hint, which maps once more. */
  lemma EvictionSparesIff(tables: seq<Table>, events: seq<PtEvent>, kb: PageKb, n: nat, a: nat)
    requires IsHistory(tables, events, kb) && n < |tables| && a in HbmPages(tables[n])
    ensures (forall high, low, pol, gone, t' :: Spares(tables[n], a, high, low, pol, gone, t'))
       <==> PinBalance(events[..n], kb, a) > 0
  {
    RefcountIsBalance(tables, events, kb, n);
    var t := tables[n];
    if t[a].refcount == 0 {
      EvictAll(t);
      assert !Spares(t, a, 0, 0, Lru, Unpinned(t), Spill(t, Unpinned(t)));
    }
  }

  /** With watermarks at zero an eviction takes every unpinned page. */
  lemma EvictAll(t: Table)
    ensures EvictStep(t, 0, 0, Lru, Unpinned(t), Spill(t, Unpinned(t)))
  {
    SubsetCard(Unpinned(t), HbmPages(t));
  }

  /** An eviction with excess enough takes every page whose pins and unpins since it was
      last mapped, for instance under the read-mostly hint, are level. */
  lemma LevelPageIsEvicted(tables: seq<Table>, events: seq<PtEvent>, kb: PageKb, n: nat, a: nat,
                           high: nat, low: nat, pol: EvictionPolicy, gone: set<nat>, t': Table)
    requires IsHistory(tables, events, kb) && n < |tables| && a in HbmPages(tables[n])
    requires PinBalance(events[..n], kb, a) == 0
    requires EvictStep(tables[n], high, low, pol, gone, t')
    requires |HbmPages(tables[n])| > high && |HbmPages(tables[n])| - low >= |Unpinned(tables[n])|
    ensures a in gone && t'[a].residency == Spilled
  {
    RefcountIsBalance(tables, events, kb, n);
    SubsetCard(gone, Unpinned(tables[n]));
  }

  /** Over any history a pin is refused exactly on a page that is not mapped or has all
      the pins sixteen bits can count, an unpin exactly on a page that is not mapped or
      has no pin left; a refusal is InvalidArgument and changes nothing. */
  lemma PinAnswers(tables: seq<Table>, events: seq<PtEvent>, kb: PageKb, n: nat)
    requires IsHistory(tables, events, kb) && n < |events|
    ensures events[n].op.Incref? ==>
              var a := Down(events[n].op.v, kb);
              && (events[n].s == Ok <==> a in tables[n] && PinBalance(events[..n], kb, a) < 0xFFFF)
              && (events[n].s != Ok ==> events[n].s == InvalidArgument && tables[n + 1] == tables[n])
    ensures events[n].op.Decref? ==>
              var a := Down(events[n].op.v, kb);
              && (events[n].s == Ok <==> a in tables[n] && PinBalance(events[..n], kb, a) > 0)
              && (events[n].s != Ok ==> events[n].s == InvalidArgument && tables[n + 1] == tables[n])
  {
    RefcountIsBalance(tables, events, kb, n);
    assert StepAt(tables, events, kb, n);
  }

  // ---- What is mapped, and as what ------------------------------------------

  /** Index of the last call that mapped page `a`; -1 if none did. */
  ghost function LastMap(events: seq<PtEvent>, kb: PageKb, a: nat): int {
    if events == [] then -1
    else if Maps(events[|events| - 1], kb, a) then |events| - 1
    else LastMap(events[..|events| - 1], kb, a)
  }

  /** The entry `x` is what mapping by `op` made it, but for pins, stamps and a spill. */
  ghost predicate EntryFrom(x: PageEntry, op: PtOp, kb: PageKb, a: nat) {
    && op.MapRange?
    && x.vaddr == a && x.pageSizeKb == kb
    && x.physOrHost == (op.phys + a - Down(op.v, kb)) % U64
    && ((x.residency == op.res && x.fetchCount == 1) || (op.res == Hbm && x.residency == Spilled && x.fetchCount == 2))
  }

  lemma StepOnEntry(t: Table, kb: PageKb, e: PtEvent, t': Table, a: nat, op: PtOp)
    requires PtStep(t, kb, e, t') && a in t'
    requires Maps(e, kb, a) ==> op == e.op
    requires !Maps(e, kb, a) && a in t ==> EntryFrom(t[a], op, kb, a)
    ensures EntryFrom(t'[a], op, kb, a)
  {
    if Maps(e, kb, a) {
      FreshEntry(t, kb, e, t', a);
    } else {
      match e.op
      case MapRange(v, bytes, res, phys) =>
      case UnmapRange(v, bytes) =>
      case Incref(v) =>
      case Decref(v) =>
      case EvictUntil(high, low, pol) =>
        var gone :| EvictStep(t, high, low, pol, gone, t');
        SpilledEntry(t, gone, a);
    }
  }

  lemma FreshEntry(t: Table, kb: PageKb, e: PtEvent, t': Table, a: nat)
    requires PtStep(t, kb, e, t') && Maps(e, kb, a)
    ensures a in t' && EntryFrom(t'[a], e.op, kb, a)
  {
  }

  /** A spilled page keeps its address, its backing, its pins and its stamp. */
  lemma SpilledEntry(t: Table, gone: set<nat>, a: nat)
    requires gone <= Unpinned(t) && a in t
    ensures a in Spill(t, gone) && Spill(t, gone)[a] ==
              if a in gone then t[a].(residency := Spilled, fetchCount := t[a].fetchCount + 1) else t[a]
    ensures a in gone ==> t[a].residency == Hbm && t[a].refcount == 0
  {
  }

  /** Over any history a mapped page is where its last mapping put it, at the backing
      address it gave and with its residency, unless an eviction has spilled it once. */
  lemma {:induction false} EntryIsLastMapping(tables: seq<Table>, events: seq<PtEvent>, kb: PageKb, n: nat, a: nat)
    requires IsHistory(tables, events, kb) && n < |tables| && a in tables[n]
    ensures var m := LastMap(events[..n], kb, a);
            0 <= m < n && Maps(events[m], kb, a) && EntryFrom(tables[n][a], events[m].op, kb, a)
  {
    assert n > 0;
    assert StepAt(tables, events, kb, n - 1);
    assert events[..n][..n - 1] == events[..n - 1];
    if Maps(events[n - 1], kb, a) {
      StepOnEntry(tables[n - 1], kb, events[n - 1], tables[n], a, events[n - 1].op);
    } else {
      StepMapped(tables[n - 1], kb, events[n - 1], tables[n], a);
      EntryIsLastMapping(tables, events, kb, n - 1, a);
      StepOnEntry(tables[n - 1], kb, events[n - 1], tables[n], a, events[LastMap(events[..n - 1], kb, a)].op);
    }
  }

  /** An unmapping reaches page `a`: nothing mapped in its range up to `a` is pinned. */
  ghost predicate Reached(t: Table, kb: PageKb, e: PtEvent, a: nat) {
    && e.op.UnmapRange? && a in Covered(e.op.v, e.op.bytes, kb)
    && forall b | b in t && b in Covered(e.op.v, e.op.bytes, kb) && b <= a :: t[b].refcount == 0
  }

  lemma StepMapped(t: Table, kb: PageKb, e: PtEvent, t': Table, a: nat)
    requires PtStep(t, kb, e, t')
    ensures a in t' <==> Maps(e, kb, a) || (a in t && !Reached(t, kb, e, a))
  {
    match e.op
    case MapRange(v, bytes, res, phys) =>
    case UnmapRange(v, bytes) =>
      if a in t && a in Covered(v, bytes, kb) && !Reached(t, kb, e, a) {
        var b :| b in t && b in Covered(v, bytes, kb) && b <= a && t[b].refcount > 0;
        assert b in PinnedIn(t, Covered(v, bytes, kb));
      }
    case Incref(v) =>
    case Decref(v) =>
    case EvictUntil(high, low, pol) =>
  }

  /** Call `j` unmapped page `a`, by the pins its range had then. */
  ghost predicate UnmappedAt(tables: seq<Table>, events: seq<PtEvent>, kb: PageKb, j: nat, a: nat)
    requires |tables| == |events| + 1 && j < |events|
  {
    && events[j].op.UnmapRange? && a in Covered(events[j].op.v, events[j].op.bytes, kb)
    && forall b | b in tables[j] && b in Covered(events[j].op.v, events[j].op.bytes, kb) && b <= a ::
         PinBalance(events[..j], kb, b) == 0
  }

  /** Over any history a page is mapped if and only if some call mapped it and none since
      unmapped it. */
  lemma {:induction false} PageMappedIff(tables: seq<Table>, events: seq<PtEvent>, kb: PageKb, n: nat, a: nat)
    requires IsHistory(tables, events, kb) && n < |tables|
    ensures var m := LastMap(events[..n], kb, a);
            a in tables[n] <==> m >= 0 && forall j | m < j < n :: !UnmappedAt(tables, events, kb, j, a)
  {
    if n > 0 {
      PageMappedIff(tables, events, kb, n - 1, a);
      RefcountIsBalance(tables, events, kb, n - 1);
      assert StepAt(tables, events, kb, n - 1);
      assert events[..n][..n - 1] == events[..n - 1];
      StepMapped(tables[n - 1], kb, events[n - 1], tables[n], a);
      assert Reached(tables[n - 1], kb, events[n - 1], a) <==> UnmappedAt(tables, events, kb, n - 1, a);
      LastMapBelow(events[..n - 1], kb, a);
    }
  }

  lemma {:induction false} LastMapBelow(events: seq<PtEvent>, kb: PageKb, a: nat)
    ensures -1 <= LastMap(events, kb, a) < |events|
  {
    if events != [] {
      LastMapBelow(events[..|events| - 1], kb, a);
    }
  }

  /** An unmapping answers Ok if and only if nothing mapped in its range is pinned, and
      ContractViolation otherwise. */
  lemma UnmapAnswers(tables: seq<Table>, events: seq<PtEvent>, kb: PageKb, n: nat)
    requires IsHistory(tables, events, kb) && n < |events| && events[n].op.UnmapRange?
    ensures events[n].s == Ok <==>
              forall a | a in tables[n] && a in Covered(events[n].op.v, events[n].op.bytes, kb) ::
                PinBalance(events[..n], kb, a) == 0
    ensures events[n].s in {Ok, ContractViolation}
  {
    RefcountIsBalance(tables, events, kb, n);
    assert StepAt(tables, events, kb, n);
    var pages := Covered(events[n].op.v, events[n].op.bytes, kb);
    assert forall a :: a in PinnedIn(tables[n], pages) <==>
      a in tables[n] && a in pages && PinBalance(events[..n], kb, a) != 0;
  }

  // ---- Use and eviction over histories --------------------------------------

  ghost predicate Uses(e: PtEvent, kb: PageKb, a: nat) {
    Maps(e, kb, a) || Pins(e, kb, a) || Unpins(e, kb, a)
  }

  /** Index of the last call that mapped, pinned or unpinned page `a`; -1 if none did. */
  ghost function LastUse(events: seq<PtEvent>, kb: PageKb, a: nat): int {
    if events == [] then -1
    else if Uses(events[|events| - 1], kb, a) then |events| - 1
    else LastUse(events[..|events| - 1], kb, a)
  }

  lemma StepStamp(t: Table, kb: PageKb, e: PtEvent, t': Table, a: nat)
    requires PtStep(t, kb, e, t') && a in t'
    ensures Uses(e, kb, a) ==> e.from <= t'[a].lastAccess <= e.now
    ensures !Uses(e, kb, a) ==> a in t && t'[a].lastAccess == t[a].lastAccess
  {
  }

  /** Over any history a mapped page's access time lies within its last use. */
  lemma {:induction false} StampIsLastUse(tables: seq<Table>, events: seq<PtEvent>, kb: PageKb, n: nat, a: nat)
    requires IsHistory(tables, events, kb) && n < |tables| && a in tables[n]
    ensures var u := LastUse(events[..n], kb, a);
            0 <= u < n && events[u].from <= tables[n][a].lastAccess <= events[u].now
  {
    assert n > 0;
    assert StepAt(tables, events, kb, n - 1);
    StepStamp(tables[n - 1], kb, events[n - 1], tables[n], a);
    assert events[..n][..n - 1] == events[..n - 1];
    if !Uses(events[n - 1], kb, a) {
      StampIsLastUse(tables, events, kb, n - 1, a);
    }
  }

  /** Over any history a least-recently-used eviction takes no page whose last use came
      after the last use of an unpinned HBM page that stays, unless the clock had not
      moved from the end of the one to the start of the other. */
  lemma EvictedUsedFirst(tables: seq<Table>, events: seq<PtEvent>, kb: PageKb, n: nat,
                         high: nat, low: nat, pol: EvictionPolicy, gone: set<nat>, t': Table, x: nat, y: nat)
    requires IsHistory(tables, events, kb) && n < |tables| && pol != Arc
    requires EvictStep(tables[n], high, low, pol, gone, t') && x in gone && y in Unpinned(tables[n]) - gone
    ensures var ux, uy := LastUse(events[..n], kb, x), LastUse(events[..n], kb, y);
            0 <= ux < n && 0 <= uy < n && (ux <= uy || events[uy].now == events[ux].from)
  {
    StampIsLastUse(tables, events, kb, n, x);
    StampIsLastUse(tables, events, kb, n, y);
  }
}
