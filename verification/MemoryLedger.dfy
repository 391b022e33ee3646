/** The memory manager as a value: the page table, the live allocations, the byte
    counter and the set of compressed (ILC) allocations, and when they agree. */
module MemoryLedger {
  import opened Common
  import opened PageTables
  import opened PinHistory

  datatype AllocHints = AllocHints(ilc: bool, readMostly: bool, pinnedHost: bool, gdsReadable: bool, grdmaVisible: bool)

  datatype Allocation = Allocation(vaddr: Word, bytes: Word, hints: AllocHints, hbmPtr: Word, ilcTagged: bool)

  /** The ILC manager, present only where the device supports it. */
  datatype Ilc = Ilc(present: bool, enabled: bool, tagged: set<Word>)

  datatype Mem = Mem(table: Table, live: map<Word, Allocation>, bytes: Word, ilc: Ilc)

  ghost function SumBytes(live: map<Word, Allocation>): nat {
    if live == map[] then 0
    else
      var p :| p in live;
      live[p].bytes + SumBytes(live - {p})
  }

  lemma {:induction false} SumBytesWithout(live: map<Word, Allocation>, p: Word)
    requires p in live
    ensures SumBytes(live) == live[p].bytes + SumBytes(live - {p})
    decreases |live|
  {
    var q :| q in live && SumBytes(live) == live[q].bytes + SumBytes(live - {q});
    if q != p {
      SumBytesWithout(live - {q}, p);
      SumBytesWithout(live - {p}, q);
      assert live - {q} - {p} == live - {p} - {q};
    }
  }

  lemma SumBytesWith(live: map<Word, Allocation>, p: Word, a: Allocation)
    requires p !in live
    ensures SumBytes(live[p := a]) == SumBytes(live) + a.bytes
  {
    SumBytesWithout(live[p := a], p);
    assert live[p := a] - {p} == live;
  }

  function PagesOf(a: Allocation, kb: PageKb): set<nat> {
    Covered(a.vaddr, a.bytes, kb)
  }

  // ---- Steps ----------------------------------------------------------------

  ghost predicate TagTried(m: Mem, hints: AllocHints) {
    hints.ilc && m.ilc.present && m.ilc.enabled
  }

  /** A successful `alloc`. `out0` is the caller's record as it was passed in: its
      tag flag is overwritten only when a tag is tried. */
  ghost predicate AllocOkStep(m: Mem, bytes: Word, hints: AllocHints, out0: Allocation, kb: PageKb,
                              m': Mem, out: Allocation)
  {
    var p := out.hbmPtr;
    && bytes > 0
    && out == Allocation(p, bytes, hints, p, out.ilcTagged)
    && (!TagTried(m, hints) ==> out.ilcTagged == out0.ilcTagged)
    && m'.ilc == (if TagTried(m, hints) && out.ilcTagged then m.ilc.(tagged := m.ilc.tagged + {p}) else m.ilc)
    && MapStep(m.table, p, bytes, Hbm, p, kb, m'.table)
    && m'.live == m.live[p := out]
    && m'.bytes == (m.bytes + bytes) % U64
  }

  ghost predicate AllocStep(m: Mem, bytes: Word, hints: AllocHints, out0: Allocation, kb: PageKb,
                            m': Mem, out: Allocation, s: Status)
  {
    if s.Ok? then AllocOkStep(m, bytes, hints, out0, kb, m', out)
    else m' == m && out == out0 && (bytes == 0 ==> s == InvalidArgument)
  }

  /** `free`: everything it does follows the caller's record `a`, and the status of
      the unmapping is ignored. When the device refuses, the record stays live. */
  ghost predicate FreeStep(m: Mem, a: Allocation, kb: PageKb, m': Mem, s: Status) {
    if a.hbmPtr !in m.live then m' == m && s == InvalidArgument
    else
      && m'.ilc == (if a.ilcTagged && m.ilc.present && m.ilc.enabled
                    then m.ilc.(tagged := m.ilc.tagged - {a.hbmPtr}) else m.ilc)
      && (exists u :: UnmapStep(m.table, a.vaddr, a.bytes, kb, m'.table, u))
      && m'.live == (if s.Ok? then m.live - {a.hbmPtr} else m.live)
      && m'.bytes == (if s.Ok? then (m.bytes + U64 - a.bytes) % U64 else m.bytes)
  }

  ghost predicate DisableStep(m: Mem, m': Mem) {
    m' == if m.ilc.present && m.ilc.enabled then m.(ilc := Ilc(true, false, {})) else m
  }

  /** Enabling changes nothing where the device does not support it. */
  ghost predicate EnableStep(m: Mem, m': Mem) {
    m' == m || (m.ilc.present && m' == m.(ilc := m.ilc.(enabled := true)))
  }

  /** A call: an Ok allocation, a free with its answer, a page-table call made past the
      manager, or switching compression. `Nothing` is any call that changes nothing. */
  datatype MemOp =
    | Nothing
    | Alloc(bytes: Word, hints: AllocHints, out0: Allocation, out: Allocation)
    | Free(a: Allocation, s: Status)
    | Pages(e: PtEvent)
    | Enable
    | Disable

  ghost predicate MemStep(m: Mem, kb: PageKb, op: MemOp, m': Mem) {
    match op
    case Nothing => m' == m
    case Alloc(bytes, hints, out0, out) => AllocOkStep(m, bytes, hints, out0, kb, m', out)
    case Free(a, s) => FreeStep(m, a, kb, m', s)
    case Pages(e) => m' == m.(table := m'.table) && PtStep(m.table, kb, e, m'.table)
    case Enable => EnableStep(m, m')
    case Disable => DisableStep(m, m')
  }

  // ---- Agreement ------------------------------------------------------------

  ghost predicate RecordsOk(m: Mem) {
    forall p | p in m.live :: m.live[p].hbmPtr == p == m.live[p].vaddr && m.live[p].bytes > 0
  }

  ghost predicate LiveOwns(m: Mem, kb: PageKb, p: Word, a: nat) {
    p in m.live && a in PagesOf(m.live[p], kb)
  }

  /** The mapped pages are exactly those of live allocations. */
  ghost predicate MappedExactly(m: Mem, kb: PageKb) {
    forall a :: a in m.table <==> exists p :: LiveOwns(m, kb, p, a)
  }

  /** No page belongs to two live allocations. */
  ghost predicate Unshared(m: Mem, kb: PageKb) {
    forall p, q, a | LiveOwns(m, kb, p, a) && LiveOwns(m, kb, q, a) :: p == q
  }

  /** The ILC set is exactly the live allocations recorded as tagged. */
  ghost predicate TagsAgree(m: Mem) {
    && (forall p :: p in m.ilc.tagged <==> p in m.live && m.live[p].ilcTagged)
    && (m.ilc.tagged != {} ==> m.ilc.present && m.ilc.enabled)
  }

  /** Table, live map, byte counter and tags say the same. */
  ghost predicate Match(m: Mem, kb: PageKb) {
    && TableOk(m.table, kb)
    && RecordsOk(m)
    && m.bytes == SumBytes(m.live) % U64
    && MappedExactly(m, kb)
    && TagsAgree(m)
  }

  /** They do, and every allocation has its pages to itself. */
  ghost predicate Agree(m: Mem, kb: PageKb) {
    Match(m, kb) && Unshared(m, kb)
  }

  ghost predicate PagesFree(live: map<Word, Allocation>, kb: PageKb, out: Allocation) {
    forall p | p in live :: PagesOf(live[p], kb) !! PagesOf(out, kb)
  }

  /** The pages only allocation `p` owns. */
  ghost function Alone(m: Mem, kb: PageKb, p: Word): set<nat>
    requires p in m.live
  {
    set a | a in PagesOf(m.live[p], kb) && forall q | q != p :: !LiveOwns(m, kb, q, a)
  }

  // ---- Allocation -----------------------------------------------------------

  lemma AllocOwns(m: Mem, bytes: Word, hints: AllocHints, out0: Allocation, kb: PageKb, m': Mem, out: Allocation,
                  p: Word, a: nat)
    requires AllocOkStep(m, bytes, hints, out0, kb, m', out)
    ensures p != out.hbmPtr ==> (LiveOwns(m', kb, p, a) <==> LiveOwns(m, kb, p, a))
    ensures LiveOwns(m', kb, out.hbmPtr, a) <==> a in PagesOf(out, kb)
  {
  }

  /** Mapped pages stay those of live allocations if and only if the pages an
      overwritten record owned alone are all mapped again. */
  lemma AllocMapsExactlyIff(m: Mem, bytes: Word, hints: AllocHints, out0: Allocation, kb: PageKb,
                            m': Mem, out: Allocation)
    requires MappedExactly(m, kb) && AllocOkStep(m, bytes, hints, out0, kb, m', out)
    ensures MappedExactly(m', kb)
       <==> (out.hbmPtr in m.live ==> Alone(m, kb, out.hbmPtr) <= PagesOf(out, kb))
  {
    var p := out.hbmPtr;
    forall a ensures a in m'.table <==> a in PagesOf(out, kb) || a in m.table {
    }
    if p !in m.live || Alone(m, kb, p) <= PagesOf(out, kb) {
      forall a ensures a in m'.table <==> exists q :: LiveOwns(m', kb, q, a) {
        AllocOwners(m, bytes, hints, out0, kb, m', out, a);
        OwnersLeft(m, kb, p, a);
      }
    } else {
      var a :| a in Alone(m, kb, p) && a !in PagesOf(out, kb);
      AllocOwners(m, bytes, hints, out0, kb, m', out, a);
      OwnersLeft(m, kb, p, a);
      AloneIsMapped(m, kb, p);
      assert a in m'.table;
    }
  }

  /** The mapped pages some allocation other than `p` owns. */
  lemma OwnersLeft(m: Mem, kb: PageKb, p: Word, x: nat)
    requires MappedExactly(m, kb)
    ensures (exists q :: q != p && LiveOwns(m, kb, q, x)) <==> x in m.table && !(p in m.live && x in Alone(m, kb, p))
  {
    if x in m.table {
      var q :| LiveOwns(m, kb, q, x);
      if q == p && x !in Alone(m, kb, p) {
        assert x in PagesOf(m.live[p], kb);
      }
    }
  }

  lemma AllocOwners(m: Mem, bytes: Word, hints: AllocHints, out0: Allocation, kb: PageKb, m': Mem, out: Allocation,
                    a: nat)
    requires AllocOkStep(m, bytes, hints, out0, kb, m', out)
    ensures (exists q :: LiveOwns(m', kb, q, a))
       <==> a in PagesOf(out, kb) || exists q :: q != out.hbmPtr && LiveOwns(m, kb, q, a)
  {
    if q :| LiveOwns(m', kb, q, a) {
      AllocOwns(m, bytes, hints, out0, kb, m', out, q, a);
    }
    if q :| q != out.hbmPtr && LiveOwns(m, kb, q, a) {
      assert LiveOwns(m', kb, q, a);
    }
    AllocOwns(m, bytes, hints, out0, kb, m', out, out.hbmPtr, a);
  }

  lemma AllocTags(m: Mem, bytes: Word, hints: AllocHints, out0: Allocation, kb: PageKb, m': Mem, out: Allocation)
    requires TagsAgree(m) && AllocOkStep(m, bytes, hints, out0, kb, m', out) && out.hbmPtr !in m.live
    ensures TagsAgree(m') <==> TagTried(m, hints) || !out0.ilcTagged
  {
    assert out.hbmPtr !in m.ilc.tagged;
    if !TagTried(m, hints) && out0.ilcTagged {
      assert out.hbmPtr in m'.live && m'.live[out.hbmPtr].ilcTagged && out.hbmPtr !in m'.ilc.tagged;
    }
  }

  /** A successful allocation keeps the books matching, whatever pages it shares, if and
      only if its pointer is new and the caller's record did not carry an old tag flag
      past an allocation that tags nothing. */
  lemma AllocMatchesIff(m: Mem, bytes: Word, hints: AllocHints, out0: Allocation, kb: PageKb,
                        m': Mem, out: Allocation)
    requires Match(m, kb) && AllocOkStep(m, bytes, hints, out0, kb, m', out)
    ensures Match(m', kb) <==> out.hbmPtr !in m.live && (TagTried(m, hints) || !out0.ilcTagged)
  {
    if out.hbmPtr in m.live {
      AllocOverLive(m, bytes, hints, out0, kb, m', out);
    } else {
      AllocMapsExactlyIff(m, bytes, hints, out0, kb, m', out);
      MapKeepsTableOk(m.table, out.hbmPtr, bytes, Hbm, out.hbmPtr, kb, m'.table);
      AllocTags(m, bytes, hints, out0, kb, m', out);
      SumBytesWith(m.live, out.hbmPtr, out);
      SumAdd(SumBytes(m.live), bytes);
      AllocRecords(m, bytes, hints, out0, kb, m', out);
    }
  }

  lemma AllocSharesNone(m: Mem, bytes: Word, hints: AllocHints, out0: Allocation, kb: PageKb,
                        m': Mem, out: Allocation)
    requires Unshared(m, kb) && AllocOkStep(m, bytes, hints, out0, kb, m', out) && out.hbmPtr !in m.live
    ensures Unshared(m', kb) <==> PagesFree(m.live, kb, out)
  {
    if PagesFree(m.live, kb, out) {
      forall p, q, a | LiveOwns(m', kb, p, a) && LiveOwns(m', kb, q, a) ensures p == q {
        AllocOwns(m, bytes, hints, out0, kb, m', out, p, a);
        AllocOwns(m, bytes, hints, out0, kb, m', out, q, a);
      }
    } else {
      var p, a :| p in m.live && a in PagesOf(m.live[p], kb) && a in PagesOf(out, kb);
      assert LiveOwns(m', kb, p, a) && LiveOwns(m', kb, out.hbmPtr, a);
    }
  }

  /** It keeps every allocation's pages apart as well if and only if the device gave it
      pages of its own. */
  lemma AllocAgreesIff(m: Mem, bytes: Word, hints: AllocHints, out0: Allocation, kb: PageKb, m': Mem, out: Allocation)
    requires Agree(m, kb) && AllocOkStep(m, bytes, hints, out0, kb, m', out)
    ensures Agree(m', kb) <==>
              && out.hbmPtr !in m.live
              && PagesFree(m.live, kb, out)
              && (TagTried(m, hints) || !out0.ilcTagged)
  {
    AllocMatchesIff(m, bytes, hints, out0, kb, m', out);
    if out.hbmPtr !in m.live {
      AllocSharesNone(m, bytes, hints, out0, kb, m', out);
    }
  }

  lemma AllocRecords(m: Mem, bytes: Word, hints: AllocHints, out0: Allocation, kb: PageKb, m': Mem, out: Allocation)
    requires RecordsOk(m) && AllocOkStep(m, bytes, hints, out0, kb, m', out)
    ensures RecordsOk(m')
  {
  }

  lemma SumAdd(sum: nat, added: nat)
    ensures (sum % U64 + added) % U64 == (sum + added) % U64
  {
  }

  /** A pointer handed out twice spoils the byte counter. */
  lemma AllocOverLive(m: Mem, bytes: Word, hints: AllocHints, out0: Allocation, kb: PageKb, m': Mem, out: Allocation)
    requires RecordsOk(m) && m.bytes == SumBytes(m.live) % U64
    requires AllocOkStep(m, bytes, hints, out0, kb, m', out) && out.hbmPtr in m.live
    ensures m'.bytes != SumBytes(m'.live) % U64
  {
    var p := out.hbmPtr;
    SumBytesWithout(m.live, p);
    SumBytesWithout(m'.live, p);
    assert m.live - {p} == m'.live - {p};
    SumShift(SumBytes(m.live - {p}), m.live[p].bytes, bytes);
  }

  /** Counting an overwritten allocation twice is noticed modulo 2^64. */
  lemma SumShift(rest: nat, before: nat, added: nat)
    requires 0 < before < U64
    ensures ((before + rest) % U64 + added) % U64 != (added + rest) % U64
  {
  }

  /** Nothing is tagged that did not ask for it of an enabled manager. */
  lemma AllocTagsAsked(m: Mem, bytes: Word, hints: AllocHints, out0: Allocation, kb: PageKb, m': Mem, out: Allocation)
    requires AllocOkStep(m, bytes, hints, out0, kb, m', out)
    ensures m'.ilc == m.ilc
         || (hints.ilc && m.ilc.present && m.ilc.enabled && out.ilcTagged
             && m'.ilc == m.ilc.(tagged := m.ilc.tagged + {out.hbmPtr}))
    ensures hints.ilc && m.ilc.present && m.ilc.enabled && out.ilcTagged ==> out.hbmPtr in m'.ilc.tagged
  {
  }

  /** An allocation is entered under its pointer as it was asked for, every page of it is in
      HBM and unpinned, and at a page boundary each of its addresses backs itself. */
  lemma AllocBacksItself(m: Mem, bytes: Word, hints: AllocHints, out0: Allocation, kb: PageKb, m': Mem, out: Allocation)
    requires AllocOkStep(m, bytes, hints, out0, kb, m', out)
    ensures m'.live.Keys == m.live.Keys + {out.hbmPtr} && m'.live[out.hbmPtr] == out
    ensures out.vaddr == out.hbmPtr && out.bytes == bytes && out.hints == hints
    ensures forall a | a in PagesOf(out, kb) ::
              a in m'.table && m'.table[a].residency == Hbm && m'.table[a].refcount == 0
    ensures IsPage(out.hbmPtr, kb) ==>
              forall x: Word | Down(x, kb) in PagesOf(out, kb) :: Translate(m'.table, x, kb) == Some(x)
  {
    if IsPage(out.hbmPtr, kb) {
      forall x: Word | Down(x, kb) in PagesOf(out, kb) ensures Translate(m'.table, x, kb) == Some(x) {
        BacksItself(m.table, out.hbmPtr, bytes, kb, m'.table, x);
      }
    }
  }

  lemma BacksItself(t: Table, v: Word, bytes: Word, kb: PageKb, t': Table, x: Word)
    requires MapStep(t, v, bytes, Hbm, v, kb, t') && IsPage(v, kb) && Down(x, kb) in Covered(v, bytes, kb)
    ensures Translate(t', x, kb) == Some(x)
  {
    CoveredTranslation(t, v, bytes, Hbm, v, kb, t', x);
    DownOfPage(v, kb);
    AtOffset(v, x);
  }

  lemma AtOffset(v: Word, x: Word)
    requires v <= x
    ensures (v + (x - v)) % U64 == x
  {
  }

  // ---- Freeing --------------------------------------------------------------

  lemma FreeOwns(m: Mem, a: Allocation, kb: PageKb, m': Mem)
    requires a.hbmPtr in m.live && FreeStep(m, a, kb, m', Ok)
    ensures forall q, x :: LiveOwns(m', kb, q, x) <==> q != a.hbmPtr && LiveOwns(m, kb, q, x)
    ensures m'.table == m.table - Removable(m.table, PagesOf(a, kb))
  {
  }

  /** After an Ok free by any record of a live pointer the mapped pages are those of
      live allocations if and only if the unmapping removed exactly the pages that
      pointer's allocation owned alone. */
  lemma FreeMapsExactlyIff(m: Mem, a: Allocation, kb: PageKb, m': Mem)
    requires MappedExactly(m, kb) && a.hbmPtr in m.live && FreeStep(m, a, kb, m', Ok)
    ensures MappedExactly(m', kb) <==> Removable(m.table, PagesOf(a, kb)) == Alone(m, kb, a.hbmPtr)
  {
    var p, gone := a.hbmPtr, Removable(m.table, PagesOf(a, kb));
    FreeOwns(m, a, kb, m');
    forall x ensures (exists q :: LiveOwns(m', kb, q, x)) <==> x in m.table && x !in Alone(m, kb, p) {
      OwnersLeft(m, kb, p, x);
      if q :| q != p && LiveOwns(m, kb, q, x) {
        assert LiveOwns(m', kb, q, x);
      }
    }
    AloneIsMapped(m, kb, p);
    if MappedExactly(m', kb) {
      forall x | x in m.table ensures x in gone <==> x in Alone(m, kb, p) {
        assert x in m'.table <==> exists q :: LiveOwns(m', kb, q, x);
      }
    }
  }

  lemma AloneIsMapped(m: Mem, kb: PageKb, p: Word)
    requires MappedExactly(m, kb) && p in m.live
    ensures Alone(m, kb, p) <= m.table.Keys
  {
    forall x | x in Alone(m, kb, p) ensures x in m.table {
      assert LiveOwns(m, kb, p, x);
    }
  }

  lemma FreeTags(m: Mem, a: Allocation, kb: PageKb, m': Mem)
    requires TagsAgree(m) && a.hbmPtr in m.live && FreeStep(m, a, kb, m', Ok)
    ensures TagsAgree(m') <==> (m.live[a.hbmPtr].ilcTagged ==> a.ilcTagged)
  {
    var p := a.hbmPtr;
    assert p in m.ilc.tagged <==> m.live[p].ilcTagged;
    if m.live[p].ilcTagged && !a.ilcTagged {
      assert p in m'.ilc.tagged && p !in m'.live;
    }
  }

  lemma FreeBytes(m: Mem, a: Allocation, kb: PageKb, m': Mem)
    requires m.bytes == SumBytes(m.live) % U64 && a.hbmPtr in m.live && FreeStep(m, a, kb, m', Ok)
    ensures m'.bytes == SumBytes(m'.live) % U64 <==> a.bytes == m.live[a.hbmPtr].bytes
  {
    var p := a.hbmPtr;
    SumBytesWithout(m.live, p);
    SumLessIff(SumBytes(m.live - {p}), m.live[p].bytes, a.bytes);
  }

  ghost predicate FreeKeeps(m: Mem, kb: PageKb, a: Allocation)
    requires a.hbmPtr in m.live
  {
    && a.bytes == m.live[a.hbmPtr].bytes
    && (m.live[a.hbmPtr].ilcTagged ==> a.ilcTagged)
    && Removable(m.table, PagesOf(a, kb)) == Alone(m, kb, a.hbmPtr)
  }

  ghost predicate RefusalKeeps(m: Mem, kb: PageKb, a: Allocation)
    requires a.hbmPtr in m.live
  {
    !(a.ilcTagged && m.live[a.hbmPtr].ilcTagged) && Removable(m.table, PagesOf(a, kb)) == {}
  }

  /** An Ok free by any record of a live pointer keeps the books matching, whatever
      pages are shared or pinned, if and only if the record has the recorded size, is
      tagged if the live one is, and its range unmaps exactly the pages that the
      allocation owned alone. */
  lemma FreeMatchesIff(m: Mem, a: Allocation, kb: PageKb, m': Mem)
    requires Match(m, kb) && a.hbmPtr in m.live && FreeStep(m, a, kb, m', Ok)
    ensures Match(m', kb) <==> FreeKeeps(m, kb, a)
  {
    FreeMapsExactlyIff(m, a, kb, m');
    FreeTags(m, a, kb, m');
    FreeBytes(m, a, kb, m');
    FreeOwns(m, a, kb, m');
  }

  lemma UnsharedAlone(m: Mem, kb: PageKb, p: Word)
    requires Unshared(m, kb) && p in m.live
    ensures Alone(m, kb, p) == PagesOf(m.live[p], kb)
  {
    forall a, q | a in PagesOf(m.live[p], kb) && LiveOwns(m, kb, q, a) ensures q == p {
      assert LiveOwns(m, kb, p, a);
    }
  }

  /** The same where no page is shared, which a free never changes. */
  lemma AnyFreeAgreesIff(m: Mem, a: Allocation, kb: PageKb, m': Mem)
    requires Agree(m, kb) && a.hbmPtr in m.live && FreeStep(m, a, kb, m', Ok)
    ensures Agree(m', kb) <==>
              && a.bytes == m.live[a.hbmPtr].bytes
              && (m.live[a.hbmPtr].ilcTagged ==> a.ilcTagged)
              && Removable(m.table, PagesOf(a, kb)) == PagesOf(m.live[a.hbmPtr], kb)
  {
    FreeMatchesIff(m, a, kb, m');
    UnsharedAlone(m, kb, a.hbmPtr);
    FreeOwns(m, a, kb, m');
  }

  /** Freeing a live allocation by its own record keeps the books if and only if none
      of its pages is pinned; with a pin it still answers Ok. */
  lemma FreeAgreesIff(m: Mem, a: Allocation, kb: PageKb, m': Mem)
    requires Agree(m, kb) && a.hbmPtr in m.live && m.live[a.hbmPtr] == a && FreeStep(m, a, kb, m', Ok)
    ensures Agree(m', kb) <==> PinnedIn(m.table, PagesOf(a, kb)) == {}
  {
    AnyFreeAgreesIff(m, a, kb, m');
    UnsharedAlone(m, kb, a.hbmPtr);
    AloneIsMapped(m, kb, a.hbmPtr);
    RemovableAllIff(m.table, PagesOf(a, kb));
  }

  lemma RemovableAllIff(t: Table, pages: set<nat>)
    requires pages <= t.Keys
    ensures Removable(t, pages) == pages <==> PinnedIn(t, pages) == {}
  {
    if b :| b in PinnedIn(t, pages) {
      assert b in pages && b !in Removable(t, pages);
    }
  }

  lemma SumLess(rest: nat, gone: nat)
    requires gone < U64
    ensures ((gone + rest) % U64 + U64 - gone) % U64 == rest % U64
  {
  }

  lemma SumLessIff(rest: nat, recorded: nat, given: nat)
    requires recorded < U64 && given < U64
    ensures ((recorded + rest) % U64 + U64 - given) % U64 == rest % U64 <==> given == recorded
  {
    if given == recorded {
      SumLess(rest, given);
    } else {
      SumMismatch(rest, recorded, given);
    }
  }

  /** When the device refuses the free, by any record of a live pointer, the allocation
      stays live but its pages and its tag are already gone: the books survive only if
      there was nothing to lose. */
  lemma RefusedFreeMatchesIff(m: Mem, a: Allocation, kb: PageKb, m': Mem, s: Status)
    requires Match(m, kb) && a.hbmPtr in m.live && FreeStep(m, a, kb, m', s) && !s.Ok?
    ensures Match(m', kb) <==> RefusalKeeps(m, kb, a)
  {
    var gone := Removable(m.table, PagesOf(a, kb));
    assert m'.table == m.table - gone;
    assert forall q, x :: LiveOwns(m', kb, q, x) <==> LiveOwns(m, kb, q, x);
    assert a.hbmPtr in m.ilc.tagged <==> m.live[a.hbmPtr].ilcTagged;
    if x :| x in gone {
      assert x in m.table && x !in m'.table;
      var q :| LiveOwns(m, kb, q, x);
      assert LiveOwns(m', kb, q, x);
    } else {
      assert m'.table == m.table;
    }
  }

  lemma RefusedFreeAgreesIff(m: Mem, a: Allocation, kb: PageKb, m': Mem, s: Status)
    requires Agree(m, kb) && a.hbmPtr in m.live && FreeStep(m, a, kb, m', s) && !s.Ok?
    ensures Agree(m', kb) <==> RefusalKeeps(m, kb, a)
  {
    RefusedFreeMatchesIff(m, a, kb, m', s);
    assert forall q, x :: LiveOwns(m', kb, q, x) <==> LiveOwns(m, kb, q, x);
  }

  /** Freeing by a record of another size always leaves the books wrong. A record
      holding nothing but the pointer, of size zero, is one such. */
  lemma WrongSizeDisagrees(m: Mem, a: Allocation, kb: PageKb, m': Mem)
    requires Match(m, kb) && a.hbmPtr in m.live && a.bytes != m.live[a.hbmPtr].bytes && FreeStep(m, a, kb, m', Ok)
    ensures !Match(m', kb)
  {
    FreeMatchesIff(m, a, kb, m');
  }

  lemma SumMismatch(rest: nat, recorded: nat, given: nat)
    requires recorded < U64 && given < U64 && recorded != given
    ensures ((recorded + rest) % U64 + U64 - given) % U64 != rest % U64
  {
  }

  // ---- There and back -------------------------------------------------------

  /** Allocating at a new pointer and then freeing the record puts table, live map, byte
      counter and tags back as they were if and only if the allocation had its pages to
      itself. */
  lemma AllocFreeRestoresIff(m: Mem, bytes: Word, hints: AllocHints, out0: Allocation, kb: PageKb,
                             m1: Mem, out: Allocation, m2: Mem)
    requires Match(m, kb) && AllocOkStep(m, bytes, hints, out0, kb, m1, out) && out.hbmPtr !in m.live
    requires FreeStep(m1, out, kb, m2, Ok)
    ensures m2 == m <==> PagesFree(m.live, kb, out)
  {
    AllocFreeTable(m, bytes, hints, out0, kb, m1, out, m2);
    assert m.live[out.hbmPtr := out] - {out.hbmPtr} == m.live;
    assert out.hbmPtr !in m.ilc.tagged;
    assert m.ilc.tagged + {out.hbmPtr} - {out.hbmPtr} == m.ilc.tagged;
    assert m.ilc.tagged - {out.hbmPtr} == m.ilc.tagged;
    SumBack(m.bytes, bytes);
  }

  lemma SumBack(sum: Word, added: Word)
    ensures ((sum + added) % U64 + U64 - added) % U64 == sum
  {
  }

  lemma AllocFreeTable(m: Mem, bytes: Word, hints: AllocHints, out0: Allocation, kb: PageKb,
                       m1: Mem, out: Allocation, m2: Mem)
    requires MappedExactly(m, kb) && AllocOkStep(m, bytes, hints, out0, kb, m1, out)
    requires FreeStep(m1, out, kb, m2, Ok)
    ensures m2.table == m.table <==> PagesFree(m.live, kb, out)
  {
    var u :| UnmapStep(m1.table, out.vaddr, out.bytes, kb, m2.table, u);
    MapUnmapRestoresIff(m.table, out.vaddr, bytes, Hbm, out.hbmPtr, kb, m1.table, m2.table, u);
    FreeOfTable(m, kb, out);
  }

  lemma FreeOfTable(m: Mem, kb: PageKb, out: Allocation)
    requires MappedExactly(m, kb)
    ensures m.table.Keys !! PagesOf(out, kb) <==> PagesFree(m.live, kb, out)
  {
    forall a | a in m.table && a in PagesOf(out, kb) ensures !PagesFree(m.live, kb, out) {
      var p :| LiveOwns(m, kb, p, a);
    }
    forall p, a | p in m.live && a in PagesOf(m.live[p], kb) ensures a in m.table {
      assert LiveOwns(m, kb, p, a);
    }
  }

  // ---- Disabling compression ------------------------------------------------

  /** Disabling the ILC manager keeps the books if and only if no live allocation is
      recorded as tagged. */
  lemma DisableMatchesIff(m: Mem, kb: PageKb, m': Mem)
    requires Match(m, kb) && DisableStep(m, m')
    ensures Match(m', kb) <==> forall p | p in m.live :: !m.live[p].ilcTagged
    ensures Unshared(m', kb) <==> Unshared(m, kb)
  {
    assert forall p, a :: LiveOwns(m', kb, p, a) <==> LiveOwns(m, kb, p, a);
    if p :| p in m.live && m.live[p].ilcTagged {
      assert p in m.ilc.tagged;
    }
  }

  /** Mapping the same range twice is mapping it once. */
  lemma MapTwice(t: Table, v: Word, bytes: Word, res: Residency, phys: Word, kb: PageKb, t1: Table, t2: Table)
    requires MapStep(t, v, bytes, res, phys, kb, t1) && MapStep(t1, v, bytes, res, phys, kb, t2)
    ensures MapStep(t, v, bytes, res, phys, kb, t2)
  {
  }

  // ---- Whole runs -----------------------------------------------------------

  /** What each call must meet for the books to go on matching. */
  ghost predicate Keeps(m: Mem, kb: PageKb, op: MemOp, m': Mem) {
    match op
    case Nothing => true
    case Alloc(bytes, hints, out0, out) => out.hbmPtr !in m.live && (TagTried(m, hints) || !out0.ilcTagged)
    case Free(a, s) => a.hbmPtr in m.live ==> if s.Ok? then FreeKeeps(m, kb, a) else RefusalKeeps(m, kb, a)
    case Pages(e) => m'.table.Keys == m.table.Keys
    case Enable => true
    case Disable => forall p | p in m.live :: !m.live[p].ilcTagged
  }

  /** No allocation lands on pages of another. */
  ghost predicate KeepsApart(m: Mem, kb: PageKb, op: MemOp) {
    op.Alloc? ==> PagesFree(m.live, kb, op.out)
  }

  lemma PagesMatchIff(m: Mem, kb: PageKb, e: PtEvent, m': Mem)
    requires Match(m, kb) && m' == m.(table := m'.table) && PtStep(m.table, kb, e, m'.table)
    ensures Match(m', kb) <==> m'.table.Keys == m.table.Keys
    ensures Unshared(m', kb) <==> Unshared(m, kb)
  {
    StepKeepsTableOk(m.table, kb, e, m'.table);
    assert forall q, x :: LiveOwns(m', kb, q, x) <==> LiveOwns(m, kb, q, x);
    if MappedExactly(m', kb) {
      assert forall x :: x in m'.table <==> x in m.table;
    }
  }

  lemma EnableMatches(m: Mem, kb: PageKb, m': Mem)
    requires Match(m, kb) && EnableStep(m, m')
    ensures Match(m', kb) && (Unshared(m', kb) <==> Unshared(m, kb))
  {
    assert forall q, x :: LiveOwns(m', kb, q, x) <==> LiveOwns(m, kb, q, x);
  }

  /** One call on matching books leaves them matching if and only if it meets its condition. */
  lemma StepMatchesIff(m: Mem, kb: PageKb, op: MemOp, m': Mem)
    requires Match(m, kb) && MemStep(m, kb, op, m')
    ensures Match(m', kb) <==> Keeps(m, kb, op, m')
  {
    match op
    case Nothing =>
    case Alloc(bytes, hints, out0, out) => AllocMatchesIff(m, bytes, hints, out0, kb, m', out);
    case Free(a, s) =>
      if a.hbmPtr in m.live {
        if s.Ok? {
          FreeMatchesIff(m, a, kb, m');
        } else {
          RefusedFreeMatchesIff(m, a, kb, m', s);
        }
      }
    case Pages(e) => PagesMatchIff(m, kb, e, m');
    case Enable => EnableMatches(m, kb, m');
    case Disable => DisableMatchesIff(m, kb, m');
  }

  lemma FreeSharesNone(m: Mem, a: Allocation, kb: PageKb, m': Mem, s: Status)
    requires Unshared(m, kb) && FreeStep(m, a, kb, m', s)
    ensures Unshared(m', kb)
  {
    assert forall q, x | LiveOwns(m', kb, q, x) :: LiveOwns(m, kb, q, x);
  }

  /** Calls that go on matching share pages only from an allocation on another's pages. */
  lemma StepSharesNone(m: Mem, kb: PageKb, op: MemOp, m': Mem)
    requires Agree(m, kb) && MemStep(m, kb, op, m') && Keeps(m, kb, op, m')
    ensures Unshared(m', kb) <==> KeepsApart(m, kb, op)
  {
    match op
    case Nothing =>
    case Alloc(bytes, hints, out0, out) => AllocSharesNone(m, bytes, hints, out0, kb, m', out);
    case Free(a, s) => FreeSharesNone(m, a, kb, m', s);
    case Pages(e) => PagesMatchIff(m, kb, e, m');
    case Enable => EnableMatches(m, kb, m');
    case Disable => DisableMatchesIff(m, kb, m');
  }

  /** `run[i + 1]` results from `run[i]` by `ops[i]`; the books match at the start. */
  ghost predicate IsMemRun(run: seq<Mem>, ops: seq<MemOp>, kb: PageKb) {
    && |run| == |ops| + 1 && Match(run[0], kb)
    && forall i | 0 <= i < |ops| :: MemStepAt(run, ops, kb, i)
  }

  ghost predicate MemStepAt(run: seq<Mem>, ops: seq<MemOp>, kb: PageKb, i: nat)
    requires |run| == |ops| + 1 && i < |ops|
  {
    MemStep(run[i], kb, ops[i], run[i + 1])
  }

  ghost predicate KeepsAt(run: seq<Mem>, ops: seq<MemOp>, kb: PageKb, i: nat)
    requires |run| == |ops| + 1 && i < |ops|
  {
    Keeps(run[i], kb, ops[i], run[i + 1])
  }

  /** Over any run of whole calls the books match throughout if and only if every call
      met its condition. */
  lemma {:induction false} RunMatchesIff(run: seq<Mem>, ops: seq<MemOp>, kb: PageKb, n: nat)
    requires IsMemRun(run, ops, kb) && n <= |ops|
    ensures (forall i | 0 <= i <= n :: Match(run[i], kb)) <==> (forall i | 0 <= i < n :: KeepsAt(run, ops, kb, i))
  {
    if n > 0 {
      RunMatchesIff(run, ops, kb, n - 1);
      assert MemStepAt(run, ops, kb, n - 1);
      if Match(run[n - 1], kb) {
        StepMatchesIff(run[n - 1], kb, ops[n - 1], run[n]);
        assert Match(run[n], kb) <==> KeepsAt(run, ops, kb, n - 1);
      }
    }
  }

  lemma StepAgreesIff(m: Mem, kb: PageKb, op: MemOp, m': Mem)
    requires Agree(m, kb) && MemStep(m, kb, op, m')
    ensures Agree(m', kb) <==> Keeps(m, kb, op, m') && KeepsApart(m, kb, op)
  {
    StepMatchesIff(m, kb, op, m');
    if Keeps(m, kb, op, m') {
      StepSharesNone(m, kb, op, m');
    }
  }

  ghost predicate KeepsApartAt(run: seq<Mem>, ops: seq<MemOp>, kb: PageKb, i: nat)
    requires |run| == |ops| + 1 && i < |ops|
  {
    Keeps(run[i], kb, ops[i], run[i + 1]) && KeepsApart(run[i], kb, ops[i])
  }

  /** And from unshared pages they agree throughout if and only if, besides, no
      allocation landed on pages of another. */
  lemma {:induction false} RunAgreesIff(run: seq<Mem>, ops: seq<MemOp>, kb: PageKb, n: nat)
    requires IsMemRun(run, ops, kb) && Unshared(run[0], kb) && n <= |ops|
    ensures (forall i | 0 <= i <= n :: Agree(run[i], kb)) <==> (forall i | 0 <= i < n :: KeepsApartAt(run, ops, kb, i))
  {
    if n > 0 {
      RunAgreesIff(run, ops, kb, n - 1);
      assert MemStepAt(run, ops, kb, n - 1);
      if Agree(run[n - 1], kb) {
        StepAgreesIff(run[n - 1], kb, ops[n - 1], run[n]);
        assert Agree(run[n], kb) <==> KeepsApartAt(run, ops, kb, n - 1);
      }
    }
  }

  ghost predicate AskedFor(ops: seq<MemOp>, p: Word) {
    exists j :: 0 <= j < |ops| && ops[j].Alloc? && ops[j].out.hbmPtr == p && ops[j].hints.ilc
  }

  /** Over any run from an empty tag set, every tag is of a pointer whose allocation asked
      for it. */
  lemma {:induction false} RunTagsAsked(run: seq<Mem>, ops: seq<MemOp>, kb: PageKb, i: nat)
    requires IsMemRun(run, ops, kb) && run[0].ilc.tagged == {} && i < |run|
    ensures forall p | p in run[i].ilc.tagged :: AskedFor(ops[..i], p)
  {
    if i > 0 {
      RunTagsAsked(run, ops, kb, i - 1);
      assert MemStepAt(run, ops, kb, i - 1);
      var op := ops[i - 1];
      forall p | p in run[i].ilc.tagged ensures AskedFor(ops[..i], p) {
        if AskedFor(ops[..i - 1], p) {
          var j :| 0 <= j < i - 1 && ops[j].Alloc? && ops[j].out.hbmPtr == p && ops[j].hints.ilc;
          assert ops[..i][j] == ops[j];
        } else {
          StepTagsAsked(run[i - 1], kb, op, run[i], p);
          assert ops[..i][i - 1] == op;
        }
      }
    }
  }

  lemma StepTagsAsked(m: Mem, kb: PageKb, op: MemOp, m': Mem, p: Word)
    requires MemStep(m, kb, op, m') && p in m'.ilc.tagged && p !in m.ilc.tagged
    ensures op.Alloc? && op.out.hbmPtr == p && op.hints.ilc
  {
  }

  /** A free of an unknown pointer is refused, and nothing happens. */
  lemma UnknownFreeRefused(m: Mem, a: Allocation, kb: PageKb, m': Mem, s: Status)
    requires FreeStep(m, a, kb, m', s) && a.hbmPtr !in m.live
    ensures s == InvalidArgument && m' == m
  {
  }

  /** Nothing allocated and nothing mapped: the books agree. */
  lemma EmptyAgrees(m: Mem, kb: PageKb)
    requires m.table == map[] && m.live == map[] && m.bytes == 0 && m.ilc.tagged == {}
    ensures Agree(m, kb)
  {
    assert SumBytes(map[]) == 0;
    assert forall p, a :: !LiveOwns(m, kb, p, a);
  }
}
