/** The lists both evictions collect before they sort: every page of a set once,
    together with the key it is ordered by. */
module EvictionCandidates {
  import opened Common

  datatype Cand<K> = Cand(page: nat, key: K)

  ghost function CandsOf<K>(keys: map<nat, K>, some: set<nat>): set<Cand<K>> {
    set p | p in some && p in keys :: Cand(p, keys[p])
  }

  ghost function PagesIn<K>(c: seq<Cand<K>>): set<nat> {
    set x | x in c :: x.page
  }

  /** Every page of `some` once, with its key. */
  ghost predicate CandidatesFor<K>(keys: map<nat, K>, some: set<nat>, c: seq<Cand<K>>) {
    && (forall i | 0 <= i < |c| :: c[i].page in some && c[i].page in keys && c[i].key == keys[c[i].page])
    && (forall i, j | 0 <= i < j < |c| :: c[i].page != c[j].page)
    && |c| == |some|
    && PagesIn(c) == some
  }

  lemma {:induction false} CandsCard<K>(keys: map<nat, K>, some: set<nat>)
    requires some <= keys.Keys
    ensures |CandsOf(keys, some)| == |some|
  {
    if some == {} {
      assert CandsOf(keys, some) == {};
    } else {
      var p :| p in some;
      CandsCard(keys, some - {p});
      assert CandsOf(keys, some) == CandsOf(keys, some - {p}) + {Cand(p, keys[p])};
    }
  }

  lemma CandidateFacts<K>(keys: map<nat, K>, some: set<nat>, c: seq<Cand<K>>)
    requires some <= keys.Keys && multiset(c) == multiset(CandsOf(keys, some))
    ensures CandidatesFor(keys, some, c)
  {
    var all := CandsOf(keys, some);
    forall x ensures x in c <==> x in all {
      assert x in c <==> x in multiset(c);
    }
    WithinSetIsDistinct(c, all);
    forall i | 0 <= i < |c| ensures c[i].page in some && c[i].page in keys && c[i].key == keys[c[i].page] {
      assert c[i] in all;
    }
    forall p | p in some ensures p in PagesIn(c) {
      assert Cand(p, keys[p]) in all;
    }
    CandsCard(keys, some);
    assert |c| == |multiset(c)| == |multiset(all)|;
  }

  lemma OneMore<K>(keys: map<nat, K>, some: set<nat>, p: nat)
    requires p in keys && p !in some
    ensures Cand(p, keys[p]) !in CandsOf(keys, some)
    ensures CandsOf(keys, some + {p}) == CandsOf(keys, some) + {Cand(p, keys[p])}
  {
  }

  /** Each candidate is new to those before it. */
  lemma NextCand<K>(keys: map<nat, K>, some: set<nat>, c: seq<Cand<K>>, i: nat)
    requires CandidatesFor(keys, some, c) && i < |c|
    ensures c[i].page in some && c[i].page !in PagesIn(c[..i])
    ensures PagesIn(c[..i + 1]) == PagesIn(c[..i]) + {c[i].page}
    ensures |PagesIn(c[..i + 1])| == |PagesIn(c[..i])| + 1
  {
    assert c[..i + 1] == c[..i] + [c[i]];
    assert c[i].page !in PagesIn(c[..i]);
    assert PagesIn(c[..i + 1]) == PagesIn(c[..i]) + {c[i].page};
  }

  // ---- Taking candidates out ------------------------------------------------

  /** `m` with the entries of `gone` rewritten by `f`. */
  function Updated<V>(m: map<nat, V>, f: V -> V, gone: set<nat>): map<nat, V> {
    map p | p in m :: if p in gone then f(m[p]) else m[p]
  }

  /** The first `n` candidates rewritten. */
  ghost function UpdatedTo<K, V>(m: map<nat, V>, f: V -> V, c: seq<Cand<K>>, n: nat): map<nat, V>
    requires n <= |c|
  {
    Updated(m, f, PagesIn(c[..n]))
  }

  lemma UpdateNothing<V>(m: map<nat, V>, f: V -> V)
    ensures Updated(m, f, {}) == m
  {
  }

  lemma UpdateFirst<K, V>(m: map<nat, V>, f: V -> V, c: seq<Cand<K>>)
    ensures UpdatedTo(m, f, c, 0) == m && PagesIn(c[..0]) == {}
  {
    assert PagesIn(c[..0]) == {};
    UpdateNothing(m, f);
  }

  /** The next candidate is still as it was at the start, and is rewritten next. */
  lemma UpdateNext<K, V>(keys: map<nat, K>, some: set<nat>, m: map<nat, V>, f: V -> V, c: seq<Cand<K>>, i: nat)
    requires CandidatesFor(keys, some, c) && some <= m.Keys && i < |c|
    ensures c[i].page in UpdatedTo(m, f, c, i)
    ensures UpdatedTo(m, f, c, i + 1) == UpdateOne(UpdatedTo(m, f, c, i), f, c[i].page)
    ensures |PagesIn(c[..i + 1])| == |PagesIn(c[..i])| + 1
  {
    NextCand(keys, some, c, i);
    UpdateOneMore(m, f, PagesIn(c[..i]), c[i].page, PagesIn(c[..i + 1]));
  }

  function UpdateOne<V>(m: map<nat, V>, f: V -> V, p: nat): map<nat, V>
    requires p in m
  {
    m[p := f(m[p])]
  }

  lemma UpdateOneMore<V>(m: map<nat, V>, f: V -> V, gone: set<nat>, p: nat, gone': set<nat>)
    requires p in m && p !in gone && gone' == gone + {p}
    ensures Updated(m, f, gone') == UpdateOne(Updated(m, f, gone), f, p)
  {
  }
}
