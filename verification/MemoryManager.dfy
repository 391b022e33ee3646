/** The ILC manager and the memory manager: classes taking the steps of
    `MemoryLedger` on one page table, one live map and one tag set. */
module MemoryManagers {
  import opened Common
  import opened PageTables
  import opened PageTableManagers
  import opened MemoryLedger

  /** What the platform answers a request: a status, and a pointer where one is asked for. */
  datatype Reply = Reply(s: Status, ptr: Word)

  class IlcManager {
    const supported: bool
    /** The platform's answers, whatever they are, in the order of the requests. */
    const device: nat -> Status
    var asked: nat
    var enabled: bool
    var tagged: set<Word>
    var totalBytes: nat
    var totalAllocs: nat

    constructor (supported: bool, device: nat -> Status)
      ensures this.supported == supported && this.device == device && !enabled && tagged == {}
    {
      this.supported := supported;
      this.device, asked := device, 0;
      enabled, tagged, totalBytes, totalAllocs := false, {}, 0, 0;
    }

    method Ask() returns (s: Status)
      modifies this`asked
      ensures s == device(old(asked)) && asked == old(asked) + 1
    {
      s := device(asked);
      asked := asked + 1;
    }

    method Enable() returns (s: Status)
      modifies this`enabled
      ensures s == (if supported then Ok else NotImplemented)
      ensures enabled == (old(enabled) || supported)
    {
      if !supported { return NotImplemented; }
      enabled := true;
      s := Ok;
    }

    method Disable() returns (s: Status)
      modifies this`enabled, this`tagged
      ensures s == Ok && !enabled
      ensures tagged == if old(enabled) then {} else old(tagged)
    {
      if !enabled { return Ok; }
      tagged := {};
      enabled := false;
      s := Ok;
    }

    method Tag(p: Word, bytes: Word) returns (s: Status)
      modifies this`tagged, this`totalBytes, this`totalAllocs, this`asked
      ensures s == if enabled then device(old(asked)) else NotImplemented
      ensures tagged == if s.Ok? then old(tagged) + {p} else old(tagged)
      ensures totalBytes == if s.Ok? then (old(totalBytes) + bytes) % U64 else old(totalBytes)
      ensures totalAllocs == if s.Ok? then (old(totalAllocs) + 1) % U64 else old(totalAllocs)
    {
      if !enabled { return NotImplemented; }
      s := Ask();
      if !s.Ok? { return; }
      tagged := tagged + {p};
      totalBytes := (totalBytes + bytes) % U64;
      totalAllocs := (totalAllocs + 1) % U64;
    }

    method Untag(p: Word) returns (s: Status)
      modifies this`tagged, this`asked
      ensures tagged == if enabled then old(tagged) - {p} else old(tagged)
      ensures s == if !enabled then Ok else if p !in old(tagged) then InvalidArgument else device(old(asked))
    {
      if !enabled { return Ok; }
      if p !in tagged { return InvalidArgument; }
      tagged := tagged - {p};
      s := Ask();
    }
  }

  class MemoryManager {
    const pt: PageTableManager
    const ilc: IlcManager?
    const device: nat -> Reply
    var asked: nat
    var live: map<Word, Allocation>
    var bytesAllocated: Word

    ghost function State(): Mem
      reads this, pt, ilc
    {
      Mem(pt.table, live, bytesAllocated,
          if ilc == null then Ilc(false, false, {}) else Ilc(true, ilc.enabled, ilc.tagged))
    }

    ghost predicate Valid()
      reads this, pt
    {
      pt.Valid()
    }

    constructor (pt: PageTableManager, ilc: IlcManager?, device: nat -> Reply)
      requires pt.Valid()
      ensures Valid() && this.pt == pt && this.ilc == ilc && this.device == device
      ensures live == map[] && bytesAllocated == 0
    {
      this.device, asked := device, 0;
      this.pt := pt;
      this.ilc := ilc;
      live, bytesAllocated := map[], 0;
    }

    method Ask() returns (r: Reply)
      modifies this`asked
      ensures r == device(old(asked)) && asked == old(asked) + 1
    {
      r := device(asked);
      asked := asked + 1;
    }

    /** Enabling compression under the manager. */
    method EnableIlc()
      requires Valid()
      modifies ilc
      ensures Valid() && EnableStep(old(State()), State())
      ensures ilc != null && ilc.supported ==> ilc.enabled
    {
      if ilc != null {
        var s := ilc.Enable();
      }
    }

    /** Disabling compression under the manager. */
    method DisableIlc()
      requires Valid()
      modifies ilc
      ensures Valid() && DisableStep(old(State()), State())
    {
      if ilc != null {
        var s := ilc.Disable();
      }
    }

    method AdviseReadMostly(p: Word, bytes: Word) returns (s: Status)
      requires Valid()
      modifies pt
      ensures Valid() && s == Ok
      ensures MapStep(old(pt.table), p, bytes, Hbm, p, pt.pageKb, pt.table)
      ensures pt.readings == old(pt.readings) + |Covered(p, bytes, pt.pageKb)|
    {
      s := pt.MapRange(p, bytes, Hbm, p);
    }

    /** Tag where compression is asked for and enabled; otherwise the record's flag is
        left as it was. */
    method TagIfAsked(out0: Allocation) returns (out: Allocation)
      modifies ilc
      ensures out == out0.(ilcTagged := out.ilcTagged)
      ensures out.ilcTagged == if out0.hints.ilc && ilc != null && old(ilc.enabled)
                               then ilc.device(old(ilc.asked)) == Ok else out0.ilcTagged
      ensures State() == old(State()).(ilc :=
                if TagTried(old(State()), out0.hints) && out.ilcTagged
                then old(State()).ilc.(tagged := old(State()).ilc.tagged + {out0.hbmPtr}) else old(State()).ilc)
    {
      out := out0;
      if out.hints.ilc && ilc != null && ilc.enabled {
        var tagStatus := ilc.Tag(out.hbmPtr, out.bytes);
        out := out.(ilcTagged := tagStatus.Ok?);
      }
    }

    /** Map the range, and once more for the read-mostly hint. */
    method MapHinted(hbm: Word, bytes: Word, readMostly: bool)
      requires Valid()
      modifies pt
      ensures Valid() && State() == old(State()).(table := pt.table)
      ensures MapStep(old(pt.table), hbm, bytes, Hbm, hbm, pt.pageKb, pt.table)
    {
      var mapStatus := pt.MapRange(hbm, bytes, Hbm, hbm);
      if readMostly {
        ghost var once := pt.table;
        mapStatus := AdviseReadMostly(hbm, bytes);
        MapTwice(old(pt.table), hbm, bytes, Hbm, hbm, pt.pageKb, once, pt.table);
      }
    }

    /** `out0` is the record the caller passes in, `out` what it is left holding. */
    method Alloc(bytes: Word, hints: AllocHints, out0: Allocation) returns (s: Status, out: Allocation)
      requires Valid()
      modifies this, pt, ilc
      ensures Valid()
      ensures AllocStep(old(State()), bytes, hints, out0, pt.pageKb, State(), out, s)
      ensures s == if bytes == 0 then InvalidArgument else device(old(asked)).s
      ensures s != Ok ==> out == out0 && State() == old(State())
      ensures s == Ok ==>
                && out == Allocation(out.hbmPtr, bytes, hints, out.hbmPtr, out.ilcTagged)
                && out.hbmPtr == device(old(asked)).ptr && live == old(live)[out.hbmPtr := out]
    {
      out := out0;
      if bytes == 0 { return InvalidArgument, out; }
      var r := Ask();
      s := r.s;
      if !s.Ok? { return; }
      out := Enter(r.ptr, bytes, hints, out0);
    }

    /** With the memory in hand: tag, map, and enter in the live map. */
    method Enter(hbm: Word, bytes: Word, hints: AllocHints, out0: Allocation) returns (out: Allocation)
      requires Valid() && bytes > 0
      modifies this`live, this`bytesAllocated, pt, ilc
      ensures Valid() && out.hbmPtr == hbm
      ensures AllocOkStep(old(State()), bytes, hints, out0, pt.pageKb, State(), out)
    {
      out := TagIfAsked(out0.(vaddr := hbm, bytes := bytes, hints := hints, hbmPtr := hbm));
      ghost var m1 := State();
      MapHinted(hbm, bytes, hints.readMostly);
      ghost var m2 := State();
      Record(hbm, out);
      EnteredIsAlloc(old(State()), m1, m2, hbm, bytes, hints, out0, out, pt.pageKb, State());
    }

    /** The live map and the byte counter, under the lock. */
    method Record(hbm: Word, out: Allocation)
      modifies this`live, this`bytesAllocated
      ensures State() == old(State()).(live := old(live)[hbm := out],
                                       bytes := (old(bytesAllocated) + out.bytes) % U64)
    {
      live := live[hbm := out];
      bytesAllocated := (bytesAllocated + out.bytes) % U64;
    }

    lemma EnteredIsAlloc(m0: Mem, m1: Mem, m2: Mem, hbm: Word, bytes: Word, hints: AllocHints, out0: Allocation,
                         out: Allocation, kb: PageKb, m': Mem)
      requires bytes > 0 && out == Allocation(hbm, bytes, hints, hbm, out.ilcTagged)
      requires !TagTried(m0, hints) ==> out.ilcTagged == out0.ilcTagged
      requires m1 == m0.(ilc := if TagTried(m0, hints) && out.ilcTagged
                                then m0.ilc.(tagged := m0.ilc.tagged + {hbm}) else m0.ilc)
      requires m2 == m1.(table := m2.table) && MapStep(m1.table, hbm, bytes, Hbm, hbm, kb, m2.table)
      requires m' == m2.(live := m2.live[hbm := out], bytes := (m2.bytes + bytes) % U64)
      ensures AllocOkStep(m0, bytes, hints, out0, kb, m', out)
    {
    }

    method Free(a: Allocation) returns (s: Status)
      requires Valid()
      modifies this, pt, ilc
      ensures Valid()
      ensures FreeStep(old(State()), a, pt.pageKb, State(), s)
      ensures s == if a.hbmPtr in old(live) then device(old(asked)).s else InvalidArgument
      ensures a.hbmPtr !in old(live) ==> State() == old(State())
    {
      if a.hbmPtr !in live { return InvalidArgument; }
      if a.ilcTagged && ilc != null {
        var untagStatus := ilc.Untag(a.hbmPtr);
      }
      var unmapStatus := pt.UnmapRange(a.vaddr, a.bytes);
      assert UnmapStep(old(pt.table), a.vaddr, a.bytes, pt.pageKb, pt.table, unmapStatus);
      var r := Ask();
      s := r.s;
      if !s.Ok? { return; }
      bytesAllocated := (bytesAllocated + U64 - a.bytes) % U64;
      live := live - {a.hbmPtr};
    }
  }
}
