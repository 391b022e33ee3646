/** Result codes, machine-word sizes and the few facts about finite sets and
    sequences that the other modules share. */
module Common {

  /** Result codes of the runtime; `Ok` is the only non-negative one. */
  datatype Status =
    | Ok
    | InvalidArgument
    | OutOfMemory
    | OutOfHbm
    | DeviceNotFound
    | DriverError
    | NotImplemented
    | FaultBufferOverflow
    | ContractViolation
    | Timeout
    | IoError
    | Aborted

  datatype Option<+T> = None | Some(value: T)

  /** GPU families told apart by the modelled code. */
  datatype Arch = UnknownArch | Ampere | Hopper | AppleSilicon | Pascal | Turing

  const U32: nat := 0x1_0000_0000
  const U64: nat := 0x1_0000_0000_0000_0000

  function Min(a: int, b: int): int {
    if a <= b then a else b
  }

  function Max(a: int, b: int): int {
    if a <= b then b else a
  }

  function Elems<T(==)>(s: seq<T>): set<T> {
    set x | x in s
  }

  ghost predicate Distinct<T>(s: seq<T>) {
    forall i, j | 0 <= i < j < |s| :: s[i] != s[j]
  }

  lemma SubsetCard<T>(a: set<T>, b: set<T>)
    requires a <= b
    ensures |a| <= |b|
    ensures |a| == |b| ==> a == b
  {
    assert b == a + (b - a);
  }

  lemma SameSizeNested<T>(a: set<T>, b: set<T>)
    requires |a| == |b| && (a <= b || b <= a)
    ensures a == b
  {
    if a <= b {
      SubsetCard(a, b);
    } else {
      SubsetCard(b, a);
    }
  }

  lemma {:induction false} ElemsCard<T>(s: seq<T>)
    ensures |Elems(s)| <= |s|
    ensures |Elems(s)| == |s| <==> Distinct(s)
  {
    if s == [] {
    } else {
      var init, x := s[..|s| - 1], s[|s| - 1];
      ElemsCard(init);
      assert s == init + [x];
      assert Elems(s) == Elems(init) + {x};
      if x in init {
        assert Elems(s) == Elems(init);
        var i :| 0 <= i < |init| && init[i] == x;
        assert s[i] == s[|s| - 1];
      } else {
        assert |Elems(s)| == |Elems(init)| + 1;
        if Distinct(init) {
          forall i, j | 0 <= i < j < |s| ensures s[i] != s[j] {
            if j == |s| - 1 { assert s[i] == init[i]; }
          }
        } else {
          var i, j :| 0 <= i < j < |init| && init[i] == init[j];
          assert s[i] == s[j];
        }
      }
    }
  }

  lemma ElemsAppend<T>(s: seq<T>, x: T)
    ensures Elems(s + [x]) == Elems(s) + {x}
  {
  }

  lemma {:induction false} MultisetCount<T>(s: seq<T>, i: nat, j: nat)
    requires i < j < |s| && s[i] == s[j]
    ensures multiset(s)[s[i]] >= 2
  {
    assert s == s[..j] + [s[j]] + s[j + 1..];
    assert s[i] == s[..j][i];
    assert s[i] in multiset(s[..j]);
    assert multiset(s) == multiset(s[..j]) + multiset{s[j]} + multiset(s[j + 1..]);
  }

  /** Without repeats, counting the elements is collecting them. */
  lemma {:induction false} DistinctIsSet<T>(s: seq<T>)
    requires Distinct(s)
    ensures multiset(s) == multiset(Elems(s))
  {
    if s != [] {
      var init, x := s[..|s| - 1], s[|s| - 1];
      DistinctIsSet(init);
      assert s == init + [x];
      assert x !in init;
      assert Elems(s) == Elems(init) + {x};
    } else {
      assert Elems(s) == {};
    }
  }

  /** A sequence whose elements come from a set, each at most once, has no repeats. */
  lemma WithinSetIsDistinct<T>(s: seq<T>, whole: set<T>)
    requires multiset(s) <= multiset(whole)
    ensures Distinct(s)
  {
    forall i, j | 0 <= i < j < |s| ensures s[i] != s[j] {
      if s[i] == s[j] {
        MultisetCount(s, i, j);
        assert false;
      }
    }
  }
}
