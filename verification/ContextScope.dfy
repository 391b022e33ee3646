/** Layered context budgets: the spill from the working layer to the reference layer,
    and prefetch hints for key-value slots. */
module ContextScopes {
  import opened Common

  datatype LayerSpec = LayerSpec(maxTokens: nat, residency: string, hbmBase: nat, bytesUsed: nat)

  /** One prefetch request: address and length. */
  datatype Hint = Hint(addr: nat, bytes: nat)

  const DEFAULT_LAYERS: seq<LayerSpec> := [
    LayerSpec(256, "pinned", 0, 0),
    LayerSpec(512, "pinned", 0, 0),
    LayerSpec(1024, "hbm", 0, 0),
    LayerSpec(8192, "hbm_paged", 0, 0),
    LayerSpec(4096, "hbm_working", 0, 0)]

  // ---- The spill ledger -----------------------------------------------------

  /** Bytes used by the reference layer (L3) and the working layer (L4). */
  datatype Ledger = Ledger(l3: nat, l4: nat)

  /** One generated token: four bytes into L4, and whatever exceeds its budget of
      `max4` tokens out into L3. */
  function StepLedger(u: Ledger, max4: nat): Ledger {
    var grown := u.l4 + 4;
    if grown > max4 * 4 then Ledger(u.l3 + (grown - max4 * 4), max4 * 4) else Ledger(u.l3, grown)
  }

  ghost function Steps(u: Ledger, max4: nat, n: nat): Ledger {
    if n == 0 then u else StepLedger(Steps(u, max4, n - 1), max4)
  }

  /** After any positive number of steps L4 is full or has grown by four bytes a step,
      and L3 holds exactly what did not fit. */
  lemma {:induction false} LedgerClosedForm(u: Ledger, max4: nat, n: nat)
    ensures n >= 1 ==> Steps(u, max4, n).l4 == Min(u.l4 + 4 * n, 4 * max4)
    ensures n >= 1 ==> Steps(u, max4, n).l3 == u.l3 + Max(0, u.l4 + 4 * n - 4 * max4)
    ensures Steps(u, max4, n).l3 + Steps(u, max4, n).l4 == u.l3 + u.l4 + 4 * n
  {
    if n > 0 {
      LedgerClosedForm(u, max4, n - 1);
    }
  }

  ghost function LedgerOf(layers: seq<LayerSpec>): Ledger
    requires |layers| == 5
  {
    Ledger(layers[3].bytesUsed, layers[4].bytesUsed)
  }

  function WithLedger(layers: seq<LayerSpec>, u: Ledger): seq<LayerSpec>
    requires |layers| == 5
  {
    layers[3 := layers[3].(bytesUsed := u.l3)][4 := layers[4].(bytesUsed := u.l4)]
  }

  /** Stepping layers that already carry a ledger steps the ledger. */
  lemma LedgerOfWith(layers: seq<LayerSpec>, u: Ledger, u': Ledger)
    requires |layers| == 5
    ensures LedgerOf(WithLedger(layers, u)) == u
    ensures WithLedger(layers, u)[4].maxTokens == layers[4].maxTokens
    ensures WithLedger(WithLedger(layers, u), u') == WithLedger(layers, u')
    ensures WithLedger(layers, LedgerOf(layers)) == layers
  {
  }

  function TotalUsed(layers: seq<LayerSpec>): nat {
    if layers == [] then 0 else TotalUsed(layers[..|layers| - 1]) + layers[|layers| - 1].bytesUsed
  }

  function TotalBudget(layers: seq<LayerSpec>): nat {
    if layers == [] then 0 else TotalBudget(layers[..|layers| - 1]) + layers[|layers| - 1].maxTokens
  }

  lemma TotalOfFive(layers: seq<LayerSpec>)
    requires |layers| == 5
    ensures TotalUsed(layers) == layers[0].bytesUsed + layers[1].bytesUsed + layers[2].bytesUsed
                                 + layers[3].bytesUsed + layers[4].bytesUsed
  {
    assert layers[..4][..3] == layers[..3] && layers[..3][..2] == layers[..2] && layers[..2][..1] == layers[..1];
    assert layers[..1][..0] == [];
    assert TotalUsed(layers[..1]) == layers[0].bytesUsed;
    assert TotalUsed(layers[..2]) == TotalUsed(layers[..1]) + layers[1].bytesUsed;
    assert TotalUsed(layers[..3]) == TotalUsed(layers[..2]) + layers[2].bytesUsed;
    assert TotalUsed(layers[..4]) == TotalUsed(layers[..3]) + layers[3].bytesUsed;
  }

  lemma BudgetOfFive(layers: seq<LayerSpec>)
    requires |layers| == 5
    ensures TotalBudget(layers) == layers[0].maxTokens + layers[1].maxTokens + layers[2].maxTokens
                                   + layers[3].maxTokens + layers[4].maxTokens
  {
    assert layers[..4][..3] == layers[..3] && layers[..3][..2] == layers[..2] && layers[..2][..1] == layers[..1];
    assert layers[..1][..0] == [];
    assert TotalBudget(layers[..1]) == layers[0].maxTokens;
    assert TotalBudget(layers[..2]) == TotalBudget(layers[..1]) + layers[1].maxTokens;
    assert TotalBudget(layers[..3]) == TotalBudget(layers[..2]) + layers[2].maxTokens;
    assert TotalBudget(layers[..4]) == TotalBudget(layers[..3]) + layers[3].maxTokens;
  }

  /** A new context has room for 14080 tokens, none of it used. */
  lemma DefaultTotals()
    ensures TotalBudget(DEFAULT_LAYERS) == 14080 && TotalUsed(DEFAULT_LAYERS) == 0
  {
    BudgetOfFive(DEFAULT_LAYERS);
    TotalOfFive(DEFAULT_LAYERS);
  }

  /** The context as a whole grows by four bytes a token: spilling loses nothing. */
  lemma StepsGrowTotal(layers: seq<LayerSpec>, n: nat)
    requires |layers| == 5
    ensures TotalUsed(WithLedger(layers, Steps(LedgerOf(layers), layers[4].maxTokens, n))) == TotalUsed(layers) + 4 * n
  {
    LedgerClosedForm(LedgerOf(layers), layers[4].maxTokens, n);
    TotalOfFive(layers);
    TotalOfFive(WithLedger(layers, Steps(LedgerOf(layers), layers[4].maxTokens, n)));
  }

  // ---- Hints ----------------------------------------------------------------

  /** A slot is four kilobytes; slots past the end of the cache get no hint. */
  function HintsFor(slots: seq<nat>, base: nat, kvBytes: nat): seq<Hint> {
    if slots == [] then []
    else
      var before := HintsFor(slots[..|slots| - 1], base, kvBytes);
      var off := slots[|slots| - 1] * 4096;
      if off < kvBytes then before + [Hint(base + off, 4096)] else before
  }

  /** A hint is issued for exactly the slots that start within the cache. */
  lemma {:induction false} HintsExactly(slots: seq<nat>, base: nat, kvBytes: nat, h: Hint)
    ensures h in HintsFor(slots, base, kvBytes)
       <==> exists i :: 0 <= i < |slots| && slots[i] * 4096 < kvBytes && h == Hint(base + slots[i] * 4096, 4096)
  {
    if slots != [] {
      var init, last := slots[..|slots| - 1], slots[|slots| - 1];
      HintsExactly(init, base, kvBytes, h);
      if i :| 0 <= i < |init| && init[i] * 4096 < kvBytes && h == Hint(base + init[i] * 4096, 4096) {
        assert slots[i] == init[i];
      }
      if i :| 0 <= i < |slots| && slots[i] * 4096 < kvBytes && h == Hint(base + slots[i] * 4096, 4096) {
        assert i < |init| ==> init[i] == slots[i];
      }
    }
  }

  /** Hints come in the order of their slots, one for each that starts within the cache,
      as often as it is named. */
  lemma {:induction false} HintsInOrder(a: seq<nat>, b: seq<nat>, slot: nat, base: nat, kvBytes: nat)
    ensures HintsFor(a + b, base, kvBytes) == HintsFor(a, base, kvBytes) + HintsFor(b, base, kvBytes)
    ensures HintsFor([slot], base, kvBytes) == if slot * 4096 < kvBytes then [Hint(base + slot * 4096, 4096)] else []
    decreases |b|
  {
    assert HintsFor([slot][..0], base, kvBytes) == [];
    if b == [] {
      assert a + b == a;
    } else {
      HintsInOrder(a, b[..|b| - 1], slot, base, kvBytes);
      assert (a + b)[..|a + b| - 1] == a + b[..|b| - 1];
    }
  }

  class ContextScope {
    const layers: array<LayerSpec>
    var kvHbm: nat
    var kvBytes: nat
    var maxResident: nat
    var currentResident: nat
    /** Every hint passed to the fault handler, in order. */
    ghost var hints: seq<Hint>

    ghost predicate Valid() {
      layers.Length == 5
    }

    constructor ()
      ensures Valid() && fresh(layers) && layers[..] == DEFAULT_LAYERS
      ensures kvHbm == 0 && hints == []
    {
      layers := new LayerSpec[5](i requires 0 <= i < 5 => DEFAULT_LAYERS[i]);
      kvHbm, kvBytes, maxResident, currentResident, hints := 0, 0, 0, 0, [];
    }

    method SetLayer(l: nat, s: LayerSpec)
      requires Valid() && l < 5
      modifies layers
      ensures layers[..] == old(layers[..])[l := s]
    {
      layers[l] := s;
    }

    method Step() returns (s: Status)
      requires Valid()
      modifies layers
      ensures s == Ok
      ensures layers[..] == WithLedger(old(layers[..]), StepLedger(LedgerOf(old(layers[..])), old(layers[4]).maxTokens))
      // Four bytes more in all, the working layer no fuller than its budget.
      ensures layers[3].bytesUsed + layers[4].bytesUsed == old(layers[3]).bytesUsed + old(layers[4]).bytesUsed + 4
      ensures layers[4].bytesUsed == Min(old(layers[4]).bytesUsed + 4, 4 * old(layers[4]).maxTokens)
      ensures forall i | 0 <= i < 5 :: layers[i] == old(layers[i]).(bytesUsed := layers[i].bytesUsed)
      ensures forall i | 0 <= i < 3 :: layers[i] == old(layers[i])
    {
      layers[4] := layers[4].(bytesUsed := layers[4].bytesUsed + 4);
      if layers[4].bytesUsed > layers[4].maxTokens * 4 {
        var spill := layers[4].bytesUsed - layers[4].maxTokens * 4;
        layers[3] := layers[3].(bytesUsed := layers[3].bytesUsed + spill);
        layers[4] := layers[4].(bytesUsed := layers[4].bytesUsed - spill);
      }
      s := Ok;
    }

    method BindKvCache(kv: nat, bytes: nat, maxRes: nat)
      modifies this
      ensures kvHbm == kv && kvBytes == bytes && maxResident == maxRes && currentResident == 0
      ensures hints == old(hints)
    {
      kvHbm, kvBytes, maxResident, currentResident := kv, bytes, maxRes, 0;
    }

    method PrefetchAttention(slots: seq<nat>) returns (s: Status)
      modifies this`hints
      ensures s == if kvHbm == 0 then InvalidArgument else Ok
      ensures hints == old(hints) + if kvHbm == 0 then [] else HintsFor(slots, kvHbm, kvBytes)
    {
      if kvHbm == 0 { return InvalidArgument; }
      for i := 0 to |slots|
        invariant hints == old(hints) + HintsFor(slots[..i], kvHbm, kvBytes)
      {
        assert slots[..i + 1][..i] == slots[..i];
        var off := slots[i] * 4096;
        if off >= kvBytes { continue; }
        hints := hints + [Hint(kvHbm + off, 4096)];
      }
      assert slots[..|slots|] == slots;
      s := Ok;
    }

    method TotalTokenBudget() returns (t: nat)
      requires Valid()
      ensures t == TotalBudget(layers[..])
    {
      t := 0;
      for i := 0 to layers.Length
        invariant t == TotalBudget(layers[..i])
      {
        assert layers[..i + 1][..i] == layers[..i];
        t := t + layers[i].maxTokens;
      }
      assert layers[..layers.Length] == layers[..];
    }

    method TotalBytesUsed() returns (t: nat)
      requires Valid()
      ensures t == TotalUsed(layers[..])
    {
      t := 0;
      for i := 0 to layers.Length
        invariant t == TotalUsed(layers[..i])
      {
        assert layers[..i + 1][..i] == layers[..i];
        t := t + layers[i].bytesUsed;
      }
      assert layers[..layers.Length] == layers[..];
    }
  }
}
