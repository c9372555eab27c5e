/// Positions in a list that wraps around, shared by the two codepoint cycling
/// functions of the program.
module Cycling {
  import opened Wrappers
  import opened Search
  import opened Sorting

  /// In a list without duplicates an element's position is where it stands.
  lemma IndexOfDistinct<T>(s: seq<T>, i: nat)
    requires Distinct(s) && i < |s|
    ensures IndexOf(s, s[i]) == Some(i)
  {
  }

  /// One place on in a list of `n`, wrapping to the start.
  function NextIndex(i: nat, n: nat): (r: nat)
    requires i < n
    ensures r < n
  {
    if i + 1 < n then i + 1 else 0
  }

  /// One place back in a list of `n`, wrapping to the end.
  function PreviousIndex(i: nat, n: nat): (r: nat)
    requires i < n
    ensures r < n
  {
    if i == 0 then n - 1 else i - 1
  }

  lemma NextIndexIsModulo(i: nat, n: nat)
    requires i < n
    ensures NextIndex(i, n) == (i + 1) % n
  {
  }

  /// A step back undoes a step on, and the other way round.
  lemma StepsUndo(i: nat, n: nat)
    requires i < n
    ensures PreviousIndex(NextIndex(i, n), n) == i
    ensures NextIndex(PreviousIndex(i, n), n) == i
  {
  }
}
