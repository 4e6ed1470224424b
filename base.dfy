/** Generic helpers shared by the stores: an optional value, and the two
    collection operations a document query performs, "first match in
    natural order" (a `findOne`) and "keep the matching rows" (the rows a
    delete-by-filter leaves behind). */
module Base {

  datatype Option<+T> = None | Some(value: T)

  /** Index of the first element of `s` that satisfies `p`. */
  function FirstIndex<T>(s: seq<T>, p: T -> bool): (r: Option<nat>)
    ensures r.Some? ==> r.value < |s| && p(s[r.value])
    ensures r.Some? ==> forall j :: 0 <= j < r.value ==> !p(s[j])
    ensures r.None? <==> forall j :: 0 <= j < |s| ==> !p(s[j])
  {
    if |s| == 0 then None
    else if p(s[0]) then Some(0)
    else match FirstIndex(s[1..], p)
      case None => None
      case Some(k) => Some(k + 1)
  }

  /** The elements of `s` that satisfy `keep`, in their original order. */
  function Filter<T(!new)>(s: seq<T>, keep: T -> bool): (r: seq<T>)
    ensures |r| <= |s|
    ensures forall x :: x in r <==> x in s && keep(x)
    ensures forall x :: multiset(r)[x] == if keep(x) then multiset(s)[x] else 0
  {
    if |s| == 0 then []
    else
      assert s == [s[0]] + s[1..];
      (if keep(s[0]) then [s[0]] else []) + Filter(s[1..], keep)
  }

  /** Appending an element after a prefix with no match finds that element. */
  lemma FirstIndexAfterNoMatch<T>(s: seq<T>, x: T, p: T -> bool)
    requires FirstIndex(s, p).None? && p(x)
    ensures FirstIndex(s + [x], p) == Some(|s|)
  {
    var t := s + [x];
    assert forall j :: 0 <= j < |s| ==> t[j] == s[j];
    assert t[|s|] == x;
  }
}
