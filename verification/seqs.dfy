/** Small facts about sequences shared by the catalog and the store. */
module Seqs {

  /** No element of `s` occurs twice. */
  predicate NoDuplicates<T(==)>(s: seq<T>) {
    forall i, j :: 0 <= i < j < |s| ==> s[i] != s[j]
  }

  /** The position of the first occurrence of `x` in `s`. */
  function IndexOf<T(==)>(s: seq<T>, x: T): (r: nat)
    requires x in s
    ensures r < |s| && s[r] == x
    ensures x !in s[..r]
  {
    if s[0] == x then 0 else 1 + IndexOf(s[1..], x)
  }

  /** In a sequence without repeats, an element's position is its first position. */
  lemma IndexOfNoDuplicates<T>(s: seq<T>, i: nat)
    requires NoDuplicates(s)
    requires i < |s|
    ensures IndexOf(s, s[i]) == i
  {
  }

  /** The first position of `x` is the one position holding `x` with no `x` before it. */
  lemma IndexOfUnique<T>(s: seq<T>, r: nat, x: T)
    requires r < |s| && s[r] == x && x !in s[..r]
    ensures IndexOf(s, x) == r
  {
  }

  /** Appending one element keeps a sequence free of repeats exactly when the element is new. */
  lemma NoDuplicatesSnoc<T>(s: seq<T>, x: T)
    ensures NoDuplicates(s + [x]) <==> NoDuplicates(s) && x !in s
  {
    var t := s + [x];
    if NoDuplicates(t) {
      assert forall i, j :: 0 <= i < j < |s| ==> s[i] == t[i] && s[j] == t[j];
      assert forall i :: 0 <= i < |s| ==> s[i] == t[i] != t[|s|];
    }
  }

  /** A non-empty sequence is free of repeats exactly when its head is new and its tail is free of repeats. */
  lemma NoDuplicatesCons<T>(s: seq<T>)
    requires |s| > 0
    ensures NoDuplicates(s) <==> s[0] !in s[1..] && NoDuplicates(s[1..])
  {
    if NoDuplicates(s) {
      assert forall i :: 0 <= i < |s| - 1 ==> s[1..][i] == s[i + 1] != s[0];
    }
    if s[0] !in s[1..] && NoDuplicates(s[1..]) {
      forall i, j | 0 <= i < j < |s| ensures s[i] != s[j] {
        if i == 0 {
          assert s[j] == s[1..][j - 1];
        } else {
          assert s[i] == s[1..][i - 1] && s[j] == s[1..][j - 1];
        }
      }
    }
  }
}
