/** Small generic helpers on sequences, shared by the validator and the analytics store. */
module Collections {

  datatype Option<+T> = None | Some(value: T)

  /** No value occurs twice in `s`. */
  ghost predicate Distinct<T>(s: seq<T>) {
    forall i, j :: 0 <= i < j < |s| ==> s[i] != s[j]
  }

  /** The set of the values of `s` (Python's `set(s)`). */
  function Elems<T(!new)>(s: seq<T>): (r: set<T>)
    ensures forall x :: x in r <==> x in s
  {
    if s == [] then {} else Elems(s[..|s| - 1]) + {s[|s| - 1]}
  }

  lemma DistinctCons<T>(x: T, s: seq<T>)
    ensures Distinct([x] + s) <==> x !in s && Distinct(s)
  {
    var t := [x] + s;
    if x !in s && Distinct(s) {
      forall i, j | 0 <= i < j < |t| ensures t[i] != t[j] {
        if i > 0 { assert t[i] == s[i - 1] && t[j] == s[j - 1]; }
        else { assert t[j] == s[j - 1]; }
      }
    }
    if Distinct(t) {
      forall i, j | 0 <= i < j < |s| ensures s[i] != s[j] {
        assert s[i] == t[i + 1] && s[j] == t[j + 1];
      }
    }
    if x in s {
      var k :| 0 <= k < |s| && s[k] == x;
      assert t[0] == t[k + 1];
    }
  }

  lemma DistinctSnoc<T>(s: seq<T>, x: T)
    ensures Distinct(s + [x]) <==> x !in s && Distinct(s)
  {
    var t := s + [x];
    assert t[..|s|] == s;
    if x !in s && Distinct(s) {
      forall i, j | 0 <= i < j < |t| ensures t[i] != t[j] {
        if j < |s| { assert t[i] == s[i] && t[j] == s[j]; }
        else { assert t[i] == s[i]; }
      }
    }
    if Distinct(t) {
      forall i, j | 0 <= i < j < |s| ensures s[i] != s[j] {
        assert s[i] == t[i] && s[j] == t[j];
      }
    }
    if x in s {
      var k :| 0 <= k < |s| && s[k] == x;
      assert t[k] == t[|s|];
    }
  }

  /** Python's duplicate test `len(xs) != len(set(xs))` detects exactly the sequences that
      have a repeated value. */
  lemma {:induction false} DistinctIffCard<T(!new)>(s: seq<T>)
    ensures |Elems(s)| <= |s|
    ensures Distinct(s) <==> |Elems(s)| == |s|
  {
    if s != [] {
      var init, x := s[..|s| - 1], s[|s| - 1];
      assert s == init + [x];
      DistinctIffCard(init);
      DistinctSnoc(init, x);
      if x in init {
        assert Elems(s) == Elems(init);
      } else {
        assert |Elems(s)| == |Elems(init)| + 1;
      }
    }
  }

  /** Two sequences holding the same values with the same multiplicities are both
      duplicate-free or both not. */
  lemma DistinctPermutation<T(!new)>(s: seq<T>, t: seq<T>)
    requires multiset(s) == multiset(t)
    ensures Distinct(s) <==> Distinct(t)
  {
    assert |s| == |multiset(s)| == |multiset(t)| == |t|;
    assert Elems(s) == Elems(t) by {
      forall x ensures x in Elems(s) <==> x in Elems(t) {
        assert x in s <==> x in multiset(s);
        assert x in t <==> x in multiset(t);
      }
    }
    DistinctIffCard(s);
    DistinctIffCard(t);
  }
}
