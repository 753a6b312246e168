/** Lists of objects as the linked structures see them. */
module Sequences {

  ghost function Elems<T>(s: seq<T>): set<T> {
    set c | c in s
  }

  ghost predicate Distinct<T>(s: seq<T>) {
    forall i, j :: 0 <= i < j < |s| ==> s[i] != s[j]
  }

  ghost function Without<T>(s: seq<T>, p: nat): (t: seq<T>)
    requires p < |s|
    ensures |t| == |s| - 1
    ensures forall i :: 0 <= i < |t| ==> t[i] == s[if i < p then i else i + 1]
  {
    s[..p] + s[p + 1..]
  }

  lemma DistinctWithout<T>(s: seq<T>, p: nat)
    requires p < |s| && Distinct(s)
    ensures Distinct(Without(s, p)) && Elems(Without(s, p)) == Elems(s) - {s[p]}
  {
    var t := Without(s, p);
    assert forall c :: c in s ==> c in t || c == s[p];
    assert forall c :: c in t ==> c in s && c != s[p];
  }
}
