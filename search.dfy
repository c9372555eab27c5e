/// Linear searches over sequences: the first element satisfying a predicate, or
/// the last one. The editor's root lookups, the toolbar's tool lookup and the
/// glyph lookup by codepoint are all of this shape.
module Search {
  import opened Wrappers

  /// Index of the first element at or after `from` that satisfies `p`.
  function FirstWhere<T>(s: seq<T>, p: T -> bool, from: nat): (r: Option<nat>)
    requires from <= |s|
    ensures r.Some? ==> from <= r.value < |s| && p(s[r.value])
    ensures r.Some? ==> forall j :: from <= j < r.value ==> !p(s[j])
    ensures r.None? ==> forall j :: from <= j < |s| ==> !p(s[j])
    decreases |s| - from
  {
    if from == |s| then None
    else if p(s[from]) then Some(from)
    else FirstWhere(s, p, from + 1)
  }

  /// Index of the last element before `upTo` that satisfies `p`.
  function LastWhere<T>(s: seq<T>, p: T -> bool, upTo: nat): (r: Option<nat>)
    requires upTo <= |s|
    ensures r.Some? ==> r.value < upTo && p(s[r.value])
    ensures r.Some? ==> forall j :: r.value < j < upTo ==> !p(s[j])
    ensures r.None? ==> forall j :: 0 <= j < upTo ==> !p(s[j])
  {
    if upTo == 0 then None
    else if p(s[upTo - 1]) then Some(upTo - 1)
    else LastWhere(s, p, upTo - 1)
  }

  /// Position of the first occurrence of `x`, as `iter().position(|y| y == x)`.
  function IndexOf<T(==)>(s: seq<T>, x: T): (r: Option<nat>)
    ensures r.Some? ==> r.value < |s| && s[r.value] == x
    ensures r.Some? ==> forall j :: 0 <= j < r.value ==> s[j] != x
    ensures r.None? <==> x !in s
  {
    FirstWhere(s, y => y == x, 0)
  }

  /// The elements satisfying `p`, in their order (`iter().filter(p).collect()`).
  function Filter<T(!new)>(s: seq<T>, p: T -> bool): (r: seq<T>)
    ensures |r| <= |s|
    ensures forall i :: 0 <= i < |r| ==> r[i] in s && p(r[i])
    ensures forall i :: 0 <= i < |s| && p(s[i]) ==> s[i] in r
  {
    if s == [] then []
    else
      assert forall i :: 1 <= i < |s| ==> s[i] == s[1..][i - 1];
      if p(s[0]) then [s[0]] + Filter(s[1..], p)
      else Filter(s[1..], p)
  }

  /// Filtering keeps every element satisfying `p` as often as it occurs, and
  /// no other.
  lemma {:induction false} FilterCounts<T(!new)>(s: seq<T>, p: T -> bool)
    ensures forall x :: multiset(Filter(s, p))[x] == if p(x) then multiset(s)[x] else 0
  {
    if s != [] {
      FilterCounts(s[1..], p);
      assert s == [s[0]] + s[1..];
      if p(s[0]) {
        assert Filter(s, p) == [s[0]] + Filter(s[1..], p);
      } else {
        assert Filter(s, p) == Filter(s[1..], p);
      }
    }
  }

  /// Filtering works element by element, so it keeps the order: filtering a
  /// concatenation concatenates the filtered parts.
  lemma {:induction false} FilterOfConcat<T(!new)>(a: seq<T>, b: seq<T>, p: T -> bool)
    ensures Filter(a + b, p) == Filter(a, p) + Filter(b, p)
  {
    if a == [] {
      assert a + b == b;
    } else {
      var ab := a + b;
      assert ab[0] == a[0] && ab[1..] == a[1..] + b;
      FilterOfConcat(a[1..], b, p);
      if p(a[0]) {
        assert Filter(ab, p) == [a[0]] + Filter(a[1..] + b, p);
        assert Filter(a, p) == [a[0]] + Filter(a[1..], p);
      } else {
        assert Filter(ab, p) == Filter(a[1..] + b, p);
        assert Filter(a, p) == Filter(a[1..], p);
      }
    }
  }
}
