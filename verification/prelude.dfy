/** Small value types and sequence facts shared by the other modules. */
module Prelude {

  datatype Option<+T> = None | Some(value: T)

  /** The elements of a sequence, as a set. */
  function Elements<T>(s: seq<T>): set<T> {
    set x | x in s
  }

  ghost predicate Distinct<T>(s: seq<T>) {
    forall i, j :: 0 <= i < j < |s| ==> s[i] != s[j]
  }

  function Max(a: int, b: int): int {
    if a < b then b else a
  }

  function Min(a: int, b: int): int {
    if a < b then a else b
  }

  /** One element more. */
  lemma PrefixElements<T>(s: seq<T>, k: nat)
    requires k < |s|
    ensures Elements(s[..k + 1]) == Elements(s[..k]) + {s[k]}
    ensures Distinct(s) ==> s[k] !in Elements(s[..k])
    ensures Elements(s[..0]) == {} && s[..|s|] == s
  {
    assert s[..k + 1] == s[..k] + [s[k]];
  }

  /** Two duplicate-free sequences without a common element. */
  lemma DistinctConcat<T>(a: seq<T>, b: seq<T>)
    requires Distinct(a) && Distinct(b) && forall x :: x in a ==> x !in b
    ensures Distinct(a + b)
  {
    var s := a + b;
    forall i, j | 0 <= i < j < |s|
      ensures s[i] != s[j]
    {
      if i < |a| && |a| <= j {
        assert s[i] == a[i] && a[i] in a && s[j] == b[j - |a|] && b[j - |a|] in b;
      }
    }
  }

  /** A duplicate-free sequence has as many positions as elements. */
  lemma {:induction false} DistinctCardinality<T>(s: seq<T>)
    requires Distinct(s)
    ensures |Elements(s)| == |s|
  {
    if s != [] {
      var front := s[..|s| - 1];
      DistinctCardinality(front);
      assert s == front + [s[|s| - 1]];
      assert Elements(s) == Elements(front) + {s[|s| - 1]};
    }
  }

  lemma {:induction false} SubsetCardinality<T>(a: set<T>, b: set<T>)
    requires a <= b
    ensures |a| <= |b|
  {
    assert b == a + (b - a);
  }

  /** The swap-from-both-ends loop the Go code uses to turn a chain around. */
  method ReverseChain(chain: seq<string>) returns (r: seq<string>)
    ensures |r| == |chain|
    ensures forall k :: 0 <= k < |chain| ==> r[k] == chain[|chain| - 1 - k]
  {
    r := chain;
    var i, j := 0, |chain| - 1;
    while i < j
      invariant 0 <= i <= j + 1 && i + j == |chain| - 1 && |r| == |chain|
      invariant forall k :: 0 <= k < i ==> r[k] == chain[|chain| - 1 - k]
      invariant forall k :: j < k < |chain| ==> r[k] == chain[|chain| - 1 - k]
      invariant forall k :: i <= k <= j ==> r[k] == chain[k]
    {
      r := r[i := r[j]][j := r[i]];
      i, j := i + 1, j - 1;
    }
  }
}
