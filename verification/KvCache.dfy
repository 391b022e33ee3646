/** The KV cache: a class whose methods take the steps of `KvPages`.

    In the source `touch` calls `evict` while it holds the lock that `evict` takes
    again, and the lock is not recursive. Here the body of `evict` is an inner method
    run under the caller's lock, and each public method is one locked step. */
module KvCaches {
  import opened Common
  import opened Sorting
  import opened EvictionCandidates
  import opened KvPages

  type KvCand = Cand<real>

  predicate CandLe(x: KvCand, y: KvCand) {
    x.key < y.key || (x.key == y.key && x.page <= y.page)
  }

  ghost function Attentions(pages: Pages): map<nat, real> {
    map p | p in pages :: pages[p].lastAttention
  }

  class KvCache {
    const maxResident: nat
    const pageSizeTokens: nat
    const evictionBand: nat
    var pages: Pages
    var resident: nat

    ghost function State(): Kv
      reads this
    {
      Kv(pages, resident)
    }

    ghost function Config(): KvConfig {
      KvConfig(maxResident, pageSizeTokens, evictionBand)
    }

    ghost predicate Valid()
      reads this
    {
      KvInv(State())
    }

    constructor (maxResident: nat, pageSizeTokens: nat, evictionBand: nat)
      ensures Valid() && State() == EMPTY_KV
      ensures Config() == KvConfig(maxResident, pageSizeTokens, evictionBand)
    {
      this.maxResident, this.pageSizeTokens, this.evictionBand := maxResident, pageSizeTokens, evictionBand;
      pages, resident := map[], 0;
      assert Resident(map[]) == {};
    }

    method Touch(token: nat, w: real) returns (ghost gone: set<nat>)
      requires Valid()
      modifies this
      ensures Valid()
      ensures TouchStep(old(State()), Config(), token, w, gone, State())
      ensures var p := PageOf(token, pageSizeTokens);
              var was := if p in old(pages) then old(pages)[p].lastAttention else 0.0;
              && p in pages && pages[p].resident && pages[p].lastAttention >= was && pages[p].lastAttention >= w
              && (pages[p].lastAttention == was || pages[p].lastAttention == w)
    {
      var p := PageOf(token, pageSizeTokens);
      var q := if p in pages then pages[p] else DEFAULT_PAGE;
      q := q.(firstTokenIndex := p);
      q := q.(lastAttention := Heavier(q.lastAttention, w));
      pages := pages[p := q];
      NoteMoves(old(pages), p, w);
      gone := {};
      if !q.resident {
        PinnedOrNot(pages);
        gone := MakeRoom();
        pages := pages[p := pages[p].(resident := true)];
        resident := resident + 1;
      }
      TouchKeepsInv(old(State()), Config(), token, w, gone, State());
      TouchAttention(old(State()), Config(), token, w, gone, State());
    }

    /** Evict one band when the cache is full. */
    method MakeRoom() returns (ghost gone: set<nat>)
      requires resident >= |Unpinned(pages)|
      modifies this
      ensures if old(resident) >= maxResident then Victims(old(pages), evictionBand, gone) else gone == {}
      ensures pages == Drop(old(pages), gone) && resident == old(resident) - |gone|
    {
      gone := {};
      if resident >= maxResident {
        var evicted;
        evicted, gone := EvictLocked(evictionBand);
      } else {
        UpdateNothing(pages, DropPage);
      }
    }

    method Evict(n: nat) returns (evicted: nat, ghost gone: set<nat>)
      requires Valid()
      modifies this
      ensures Valid()
      ensures EvictStep(old(State()), n, gone, State()) && evicted == |gone|
    {
      PinnedOrNot(pages);
      evicted, gone := EvictLocked(n);
      EvictKeepsInv(old(State()), n, gone, State());
    }

    /** The body of `evict`, with the lock already held. */
    method EvictLocked(n: nat) returns (evicted: nat, ghost gone: set<nat>)
      requires resident >= |Unpinned(pages)|
      modifies this
      ensures EvictStep(old(State()), n, gone, State()) && evicted == |gone|
    {
      var cands := Candidates();
      cands := PartialSort(cands, |cands|, CandLe);
      CandidateFacts(Attentions(pages), Unpinned(pages), cands);
      evicted := DropCandidates(cands, n);
      gone := PagesIn(cands[..evicted]);
      FirstAreVictims(old(pages), cands, evicted, n);
    }

    /** Take the first `n` candidates, as far as there are that many, out of the cache. */
    method DropCandidates(cands: seq<KvCand>, n: nat) returns (evicted: nat)
      requires CandidatesFor(Attentions(pages), Unpinned(pages), cands) && resident >= |cands|
      modifies this
      ensures evicted == Min(n, |cands|) && |PagesIn(cands[..evicted])| == evicted
      ensures pages == Drop(old(pages), PagesIn(cands[..evicted])) && resident == old(resident) - evicted
    {
      ghost var pages0 := pages;
      evicted := 0;
      UpdateFirst(pages, DropPage, cands);
      var i := 0;
      while i < n && i < |cands|
        invariant 0 <= i <= Min(n, |cands|) && evicted == i
        invariant |PagesIn(cands[..i])| == i && resident == old(resident) - i
        invariant pages == UpdatedTo(pages0, DropPage, cands, i)
        decreases |cands| - i
      {
        UpdateNext(Attentions(pages0), Unpinned(pages0), pages0, DropPage, cands, i);
        pages := UpdateOne(pages, DropPage, cands[i].page);
        resident := resident - 1;
        evicted := evicted + 1;
        i := i + 1;
      }
    }

    method Candidates() returns (c: seq<KvCand>)
      ensures multiset(c) == multiset(CandsOf(Attentions(pages), Unpinned(pages)))
    {
      c := [];
      var todo := pages.Keys;
      ghost var taken: set<nat> := {};
      assert CandsOf(Attentions(pages), taken) == {};
      while todo != {}
        invariant todo <= pages.Keys && taken == Unpinned(pages) - todo
        invariant multiset(c) == multiset(CandsOf(Attentions(pages), taken))
        decreases todo
      {
        var p :| p in todo;
        todo := todo - {p};
        if pages[p].resident && pages[p].refcount == 0 {
          OneMore(Attentions(pages), taken, p);
          taken := taken + {p};
          c := c + [Cand(p, pages[p].lastAttention)];
        }
      }
      assert taken == Unpinned(pages);
    }

    method Pin(token: nat)
      requires Valid()
      modifies this`pages
      ensures Valid() && PinStep(old(State()), Config(), token, State())
    {
      var p := PageOf(token, pageSizeTokens);
      var q := if p in pages then pages[p] else DEFAULT_PAGE;
      pages := pages[p := q.(refcount := (q.refcount + 1) % U32)];
      PinKeepsInv(old(State()), Config(), token, State());
    }

    method Unpin(token: nat)
      requires Valid()
      modifies this`pages
      ensures Valid() && UnpinStep(old(State()), Config(), token, State())
    {
      var p := PageOf(token, pageSizeTokens);
      if p in pages {
        if pages[p].refcount > 0 {
          pages := pages[p := pages[p].(refcount := pages[p].refcount - 1)];
        }
      }
      PinKeepsInv(old(State()), Config(), token, State());
    }
  }

  lemma FirstAreVictims(pages: Pages, cands: seq<KvCand>, i: nat, n: nat)
    requires CandidatesFor(Attentions(pages), Unpinned(pages), cands) && SortedTo(cands, |cands|, CandLe)
    requires i <= |cands| && i == Min(n, |cands|) && |PagesIn(cands[..i])| == i
    ensures Victims(pages, n, PagesIn(cands[..i]))
  {
  }
}
