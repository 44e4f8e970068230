/** Small sequence vocabulary shared by the board, the search and the
    Monte-Carlo player. */
module Sequences {

  /** No id occurs twice. */
  predicate NoDuplicates<T(==)>(s: seq<T>)
  {
    forall i, j :: 0 <= i < j < |s| ==> s[i] != s[j]
  }

  /** Every element lies in `[0, bound)`. */
  predicate AllBelow(s: seq<nat>, bound: nat)
  {
    forall k :: 0 <= k < |s| ==> s[k] < bound
  }

  /** The set `{0, ..., n - 1}`. */
  function Below(n: nat): (s: set<nat>)
    ensures forall k: int :: k in s <==> 0 <= k < n
    ensures |s| == n
  {
    if n == 0 then {} else Below(n - 1) + {n - 1}
  }

  /** Dropping the head keeps the ids distinct, and the head is not among
      the rest. */
  lemma NoDuplicatesTail<T>(s: seq<T>)
    requires |s| > 0 && NoDuplicates(s)
    ensures NoDuplicates(s[1..]) && s[0] !in s[1..]
  {
    var rest := s[1..];
    forall i, j | 0 <= i < j < |rest|
      ensures rest[i] != rest[j]
    {
      assert rest[i] == s[i + 1] && rest[j] == s[j + 1];
    }
    forall i | 0 <= i < |rest|
      ensures rest[i] != s[0]
    {
      assert rest[i] == s[i + 1];
    }
  }
}
