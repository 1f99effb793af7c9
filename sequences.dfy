/** Facts about sequences shared by the attribute map and the dataset functions. */
module Sequences {

  /** No element occurs twice. */
  ghost predicate Distinct<T>(s: seq<T>)
  {
    forall i, j :: 0 <= i < j < |s| ==> s[i] != s[j]
  }

  /** The position of the first occurrence of `x` in `s`. */
  function FirstIndex<T(==)>(s: seq<T>, x: T): (p: nat)
    requires x in s
    ensures p < |s| && s[p] == x && x !in s[..p]
  {
    if s[0] == x then 0
    else
      var p := FirstIndex(s[1..], x);
      assert s[..p + 1] == [s[0]] + s[1..][..p];
      1 + p
  }

  /** Extending a sequence does not move the first occurrence of an element it already had. */
  lemma {:induction false} FirstIndexPrefix<T>(s: seq<T>, t: seq<T>, x: T)
    requires x in s
    ensures x in s + t && FirstIndex(s + t, x) == FirstIndex(s, x)
  {
    assert (s + t)[0] == s[0];
    if s[0] != x {
      assert (s + t)[1..] == s[1..] + t;
      FirstIndexPrefix(s[1..], t, x);
    }
  }

  /** An element appended to a sequence that lacks it first occurs at the end. */
  lemma FirstIndexLast<T>(s: seq<T>, x: T)
    requires x !in s
    ensures x in s + [x] && FirstIndex(s + [x], x) == |s|
  {
    assert (s + [x])[..|s|] == s;
  }

  /** Cutting one element out of a sequence without repetitions leaves one without repetitions that lacks it. */
  lemma DistinctCut<T>(s: seq<T>, p: nat)
    requires Distinct(s) && p < |s|
    ensures Distinct(s[..p] + s[p + 1..]) && s[p] !in s[..p] + s[p + 1..]
  {
    var r := s[..p] + s[p + 1..];
    forall i, j | 0 <= i < j < |r|
      ensures r[i] != r[j]
    {
      var i', j' := if i < p then i else i + 1, if j < p then j else j + 1;
      assert r[i] == s[i'] && r[j] == s[j'];
    }
    forall i | 0 <= i < |r|
      ensures r[i] != s[p]
    {
      var i' := if i < p then i else i + 1;
      assert r[i] == s[i'];
    }
  }
}
