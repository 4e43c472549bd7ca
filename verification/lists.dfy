/**
 * Sequence helpers used by the library services: finding the first entry
 * with a given identifier and removing one entry while keeping the order of
 * the others (the `append(s[:i], s[i+1:]...)` idiom).
 */
module Lists {
  import opened Wrappers

  /** The index of the first element whose identifier is `key`, scanning from the front. */
  function FirstIndex<T>(s: seq<T>, id: T -> int, key: int): (r: Option<nat>)
    ensures r.None? <==> forall j :: 0 <= j < |s| ==> id(s[j]) != key
    ensures r.Some? ==> r.value < |s| && id(s[r.value]) == key
    ensures r.Some? ==> forall j :: 0 <= j < r.value ==> id(s[j]) != key
  {
    if |s| == 0 then None
    else if id(s[0]) == key then Some(0)
    else
      match FirstIndex(s[1..], id, key)
      case None => None
      case Some(i) => Some(i + 1)
  }

  /** `s` without its element at position `i`; the others keep their relative order. */
  function RemoveAt<T>(s: seq<T>, i: nat): (r: seq<T>)
    requires i < |s|
    ensures |r| == |s| - 1
    ensures forall j :: 0 <= j < i ==> r[j] == s[j]
    ensures forall j :: i <= j < |r| ==> r[j] == s[j + 1]
    ensures multiset(r) + multiset{s[i]} == multiset(s)
  {
    assert s == s[..i] + [s[i]] + s[i + 1..];
    s[..i] + s[i + 1..]
  }

  /** An element appended after all others that lack its key is the first match, and removing it gives back the list. */
  lemma {:induction false} AppendThenRemove<T>(s: seq<T>, x: T, id: T -> int)
    requires forall j :: 0 <= j < |s| ==> id(s[j]) != id(x)
    ensures FirstIndex(s + [x], id, id(x)) == Some(|s|)
    ensures RemoveAt(s + [x], |s|) == s
  {
    var list := s + [x];
    assert list[..|s|] == s;
    if |s| > 0 {
      assert list[0] == s[0] && list[1..] == s[1..] + [x];
      AppendThenRemove(s[1..], x, id);
    }
  }

  /** No element occurs twice. */
  ghost predicate Distinct<T>(s: seq<T>) {
    forall i, j :: 0 <= i < j < |s| ==> s[i] != s[j]
  }

  /** A sequence without repetitions has as many elements as the set of its elements. */
  lemma {:induction false} DistinctCardinality<T>(s: seq<T>)
    requires Distinct(s)
    ensures |set x | x in s| == |s|
  {
    if |s| > 0 {
      var t := s[..|s| - 1];
      var last := s[|s| - 1];
      assert Distinct(t);
      DistinctCardinality(t);
      assert (set x | x in s) == (set x | x in t) + {last};
      assert last !in (set x | x in t);
    }
  }
}
