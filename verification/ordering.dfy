/** Byte-wise string order, and insertion sorting by a given strict order. */
module Ordering {
  import opened Prelude

  /** Strict lexicographic order, as Go compares strings. */
  predicate Less(a: string, b: string) {
    b != [] && (a == [] || a[0] < b[0] || (a[0] == b[0] && Less(a[1..], b[1..])))
  }

  /** At the first place where they differ the smaller character decides; a proper prefix is smaller. */
  lemma {:induction false} LessIff(a: string, b: string)
    ensures Less(a, b) <==> exists i :: 0 <= i <= |a| && i < |b| && a[..i] == b[..i] && (i == |a| || a[i] < b[i])
  {
    if a != [] && b != [] && a[0] == b[0] {
      LessIff(a[1..], b[1..]);
      if Less(a, b) {
        var a', b' := a[1..], b[1..];
        var i :| 0 <= i <= |a'| && i < |b'| && a'[..i] == b'[..i] && (i == |a'| || a'[i] < b'[i]);
        OneFurther(a, b, i);
      }
      if i :| 0 <= i <= |a| && i < |b| && a[..i] == b[..i] && (i == |a| || a[i] < b[i]) {
        assert i > 0;
        assert a[1..][..i - 1] == a[..i][1..] && b[1..][..i - 1] == b[..i][1..];
      }
    } else {
      assert a[..0] == b[..0];
      if i :| 0 <= i <= |a| && i < |b| && a[..i] == b[..i] && (i == |a| || a[i] < b[i]) {
        SameHead(a, b, i);
      }
    }
  }

  lemma SameHead(a: string, b: string, i: nat)
    requires i <= |a| && i <= |b| && a[..i] == b[..i]
    ensures i > 0 ==> a[0] == b[0]
  {
    if i > 0 {
      assert a[..i][0] == b[..i][0];
    }
  }

  lemma OneFurther(a: string, b: string, i: nat)
    requires a != [] && b != [] && a[0] == b[0] && i <= |a[1..]| && i <= |b[1..]| && a[1..][..i] == b[1..][..i]
    ensures a[..i + 1] == b[..i + 1]
  {
    assert a[..i + 1] == [a[0]] + a[1..][..i] && b[..i + 1] == [b[0]] + b[1..][..i];
  }

  lemma {:induction false} LessIrreflexive(a: string)
    ensures !Less(a, a)
  {
    if a != [] {
      LessIrreflexive(a[1..]);
    }
  }

  lemma {:induction false} LessTransitive(a: string, b: string, c: string)
    requires Less(a, b) && Less(b, c)
    ensures Less(a, c)
  {
    if a != [] && a[0] == b[0] && b[0] == c[0] {
      LessTransitive(a[1..], b[1..], c[1..]);
    }
  }

  lemma {:induction false} LessTotal(a: string, b: string)
    ensures a == b || Less(a, b) || Less(b, a)
  {
    if a != [] && b != [] && a[0] == b[0] {
      LessTotal(a[1..], b[1..]);
      assert a == [a[0]] + a[1..] && b == [b[0]] + b[1..];
    }
  }

  lemma {:induction false} LessAsymmetric(a: string, b: string)
    requires Less(a, b)
    ensures !Less(b, a) && a != b
  {
    LessIrreflexive(a);
    if Less(b, a) {
      LessTransitive(a, b, a);
    }
  }

  /** A strict weak order: what a sort needs of its comparison. */
  ghost predicate StrictWeak<T(!new)>(less: (T, T) -> bool) {
    && (forall a, b :: less(a, b) ==> !less(b, a))
    && (forall a, b, c :: less(c, a) ==> less(b, a) || less(c, b))
  }

  ghost predicate SortedBy<T(!new)>(s: seq<T>, less: (T, T) -> bool) {
    forall i, j :: 0 <= i < j < |s| ==> !less(s[j], s[i])
  }

  /** Puts x before the first element that x precedes. */
  function Insert<T>(x: T, s: seq<T>, less: (T, T) -> bool): (r: seq<T>)
    ensures multiset(r) == multiset(s) + multiset{x}
  {
    if s == [] then [x]
    else if less(x, s[0]) then [x] + s
    else
      assert s == [s[0]] + s[1..];
      [s[0]] + Insert(x, s[1..], less)
  }

  /** A stable sort: equal elements keep their order. */
  function SortBy<T>(s: seq<T>, less: (T, T) -> bool): (r: seq<T>)
    ensures multiset(r) == multiset(s)
  {
    if s == [] then []
    else
      assert s == s[..|s| - 1] + [s[|s| - 1]];
      Insert(s[|s| - 1], SortBy(s[..|s| - 1], less), less)
  }

  lemma SameElements<T>(a: seq<T>, b: seq<T>)
    requires multiset(a) == multiset(b)
    ensures |a| == |b| && Elements(a) == Elements(b)
    ensures Distinct(a) <==> Distinct(b)
  {
    assert |a| == |multiset(a)| && |b| == |multiset(b)|;
    forall x
      ensures x in a <==> x in b
    {
      assert x in a <==> x in multiset(a);
    }
    DistinctIsMultiplicityOne(a);
    DistinctIsMultiplicityOne(b);
  }

  lemma {:induction false} DistinctIsMultiplicityOne<T>(s: seq<T>)
    ensures Distinct(s) <==> forall x :: x in s ==> multiset(s)[x] == 1
  {
    if s != [] {
      var front, last := s[..|s| - 1], s[|s| - 1];
      assert s == front + [last];
      DistinctIsMultiplicityOne(front);
      assert multiset(s) == multiset(front) + multiset{last};
      if Distinct(s) {
        assert last !in front;
      }
      if forall x :: x in s ==> multiset(s)[x] == 1 {
        assert last in s;
        assert multiset(front)[last] == 0;
        forall x | x in front
          ensures multiset(front)[x] == 1
        {
          assert x in s;
        }
      }
    }
  }

  lemma {:induction false} InsertSorts<T(!new)>(x: T, s: seq<T>, less: (T, T) -> bool)
    requires StrictWeak(less) && SortedBy(s, less)
    ensures SortedBy(Insert(x, s, less), less)
  {
    if s != [] && !less(x, s[0]) {
      var rest := Insert(x, s[1..], less);
      InsertSorts(x, s[1..], less);
      forall j | 0 <= j < |rest|
        ensures !less(rest[j], s[0])
      {
        assert rest[j] in multiset(rest);
        assert rest[j] == x || rest[j] in s[1..];
      }
    }
  }

  lemma {:induction false} SortBySorts<T(!new)>(s: seq<T>, less: (T, T) -> bool)
    requires StrictWeak(less)
    ensures SortedBy(SortBy(s, less), less)
  {
    if s != [] {
      SortBySorts(s[..|s| - 1], less);
      InsertSorts(s[|s| - 1], SortBy(s[..|s| - 1], less), less);
    }
  }

  function Strings(): (string, string) -> bool {
    (a, b) => Less(a, b)
  }

  lemma NoElements<T>(s: seq<T>)
    ensures Elements(s) == {} <==> s == []
  {
    if s != [] {
      assert s[0] in Elements(s);
    }
  }

  /** Two duplicate-free sorted lists of the same names are one list. */
  lemma {:induction false} SortedUnique(a: seq<string>, b: seq<string>)
    requires Distinct(a) && Distinct(b) && Elements(a) == Elements(b)
    requires SortedBy(a, Strings()) && SortedBy(b, Strings())
    ensures a == b
  {
    if a == [] || b == [] {
      NoElements(a);
      NoElements(b);
    } else {
      var fa, x, fb, y := a[..|a| - 1], a[|a| - 1], b[..|b| - 1], b[|b| - 1];
      assert x in Elements(b) && y in Elements(a);
      LessTotal(x, y);
      var i :| 0 <= i < |a| && a[i] == y;
      var j :| 0 <= j < |b| && b[j] == x;
      assert i < |a| - 1 ==> !Strings()(x, y);
      assert j < |b| - 1 ==> !Strings()(y, x);
      assert x == y;
      PrefixElements(a, |a| - 1);
      PrefixElements(b, |b| - 1);
      SortedUnique(fa, fb);
      assert a == fa + [x] && b == fb + [y];
    }
  }

  lemma StringsAreOrdered()
    ensures StrictWeak(Strings())
  {
    forall a, b | Less(a, b)
      ensures !Less(b, a)
    {
      LessAsymmetric(a, b);
    }
    forall a, b, c | Less(c, a)
      ensures Less(b, a) || Less(c, b)
    {
      LessTotal(b, a);
      if Less(a, b) {
        LessTransitive(c, a, b);
      }
    }
  }
}
