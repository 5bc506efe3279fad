/** The canonical key under which import cycles are deduplicated. */
module CycleKeys {
  import opened Prelude
  import opened Ordering

  /** The index x brought back into 0..n by at most one turn. */
  function Wrap(x: int, n: nat): (r: int)
    requires 0 < n && 0 <= x + n < 3 * n
    ensures 0 <= r < n
  {
    if x < 0 then x + n else if x < n then x else x - n
  }

  /** Wrap is what the remainder in the source computes. */
  lemma WrapIsMod(x: int, n: nat)
    requires 0 < n && 0 <= x + n < 3 * n
    ensures (x + n * 2) % n == Wrap(x, n)
    ensures 0 <= x ==> x % n == Wrap(x, n)
  {
    var r := Wrap(x, n);
    ModIs(x + n * 2, n, if x < 0 then 1 else if x < n then 2 else 3, r);
    if 0 <= x {
      ModIs(x, n, if x < n then 0 else 1, r);
    }
  }

  lemma ModIs(x: int, n: nat, q: int, r: int)
    requires 0 < n && 0 <= r < n && x == n * q + r
    ensures x % n == r
  {
    DivisionUnique(n, q, r, x / n, x % n);
  }

  lemma DivisionUnique(n: int, q: int, r: int, p: int, s: int)
    requires 0 <= r < n && 0 <= s < n && n * p + s == n * q + r
    ensures r == s
  {
    Distribute(n, p, q);
    if p < q {
      AtLeastOnce(n, q - p);
      Distribute(n, q, p);
    } else if q < p {
      AtLeastOnce(n, p - q);
    }
  }

  lemma Distribute(n: int, a: int, b: int)
    ensures n * (a - b) == n * a - n * b
  {
  }

  lemma AtLeastOnce(n: int, d: int)
    requires 0 < n && 1 <= d
    ensures n * d >= n
  {
  }

  /** c read forwards from index k, and backwards from index k. */
  function Turn(c: seq<string>, k: nat): (r: seq<string>)
    requires k < |c|
    ensures |r| == |c|
  {
    seq(|c|, i requires 0 <= i < |c| => c[Wrap(k + i, |c|)])
  }

  function Flip(c: seq<string>, k: nat): (r: seq<string>)
    requires k < |c|
    ensures |r| == |c|
  {
    seq(|c|, i requires 0 <= i < |c| => c[Wrap(k - i, |c|)])
  }

  /** d is a rotation of c, or a rotation of c read backwards. */
  ghost predicate SameCycle(c: seq<string>, d: seq<string>) {
    |c| == |d| && exists k: nat :: k < |c| && (d == Turn(c, k) || d == Flip(c, k))
  }

  lemma MovedAt(c: seq<string>, k: nat, i: nat)
    requires k < |c| && i < |c|
    ensures Turn(c, k)[i] == c[Wrap(k + i, |c|)]
    ensures Flip(c, k)[i] == c[Wrap(k - i, |c|)]
  {
  }

  /** Reading backwards from k is rotating the reversed list. */
  lemma FlipIsTurnOfReverse(c: seq<string>, k: nat, reversed: seq<string>)
    requires k < |c| == |reversed|
    requires forall i :: 0 <= i < |c| ==> reversed[i] == c[|c| - 1 - i]
    ensures Flip(c, k) == Turn(reversed, |c| - 1 - k)
  {
    var n := |c|;
    forall i | 0 <= i < n
      ensures Flip(c, k)[i] == Turn(reversed, n - 1 - k)[i]
    {
      assert Wrap(k - i, n) == n - 1 - Wrap(n - 1 - k + i, n);
    }
  }

  lemma TurnTurn(c: seq<string>, a: nat, b: nat)
    requires a < |c| && b < |c|
    ensures Turn(Turn(c, a), b) == Turn(c, Wrap(a + b, |c|))
    ensures Flip(Turn(c, a), b) == Flip(c, Wrap(a + b, |c|))
    ensures Turn(Flip(c, a), b) == Flip(c, Wrap(a - b, |c|))
    ensures Flip(Flip(c, a), b) == Turn(c, Wrap(a - b, |c|))
  {
    hide Wrap;
    var n := |c|;
    forall i | 0 <= i < n
      ensures Turn(Turn(c, a), b)[i] == Turn(c, Wrap(a + b, n))[i]
      ensures Turn(Flip(c, a), b)[i] == Flip(c, Wrap(a - b, n))[i]
      ensures Flip(Turn(c, a), b)[i] == Flip(c, Wrap(a + b, n))[i]
      ensures Flip(Flip(c, a), b)[i] == Turn(c, Wrap(a - b, n))[i]
    {
      WrapWrap(a, b, i, n);
    }
  }

  lemma WrapWrap(a: nat, b: nat, i: nat, n: nat)
    requires a < n && b < n && i < n
    ensures Wrap(a + Wrap(b + i, n), n) == Wrap(Wrap(a + b, n) + i, n)
    ensures Wrap(a - Wrap(b + i, n), n) == Wrap(Wrap(a - b, n) - i, n)
    ensures Wrap(a + Wrap(b - i, n), n) == Wrap(Wrap(a + b, n) - i, n)
    ensures Wrap(a - Wrap(b - i, n), n) == Wrap(Wrap(a - b, n) + i, n)
  {
  }

  lemma TurnZero(c: seq<string>)
    requires c != []
    ensures Turn(c, 0) == c
  {
    forall i | 0 <= i < |c|
      ensures Turn(c, 0)[i] == c[i]
    {
      MovedAt(c, 0, i);
    }
  }

  lemma TurnBack(c: seq<string>, a: nat)
    requires a < |c|
    ensures Turn(Turn(c, a), Wrap(0 - a, |c|)) == c
    ensures Flip(Flip(c, a), a) == c
  {
    assert Wrap(a + Wrap(0 - a, |c|), |c|) == 0 == Wrap(a - a, |c|);
    TurnTurn(c, a, Wrap(0 - a, |c|));
    TurnTurn(c, a, a);
    TurnZero(c);
    hide Turn, Flip;
  }

  lemma SameCycleSymmetric(c: seq<string>, d: seq<string>)
    requires SameCycle(c, d)
    ensures SameCycle(d, c)
  {
    var k: nat :| k < |c| && (d == Turn(c, k) || d == Flip(c, k));
    TurnBack(c, k);
    if d == Turn(c, k) {
      assert c == Turn(d, Wrap(0 - k, |c|));
    } else {
      assert c == Flip(d, k);
    }
  }

  lemma SameCycleTransitive(c: seq<string>, d: seq<string>, e: seq<string>)
    requires SameCycle(c, d) && SameCycle(d, e)
    ensures SameCycle(c, e)
  {
    var a: nat :| a < |c| && (d == Turn(c, a) || d == Flip(c, a));
    var b: nat :| b < |d| && (e == Turn(d, b) || e == Flip(d, b));
    TurnTurn(c, a, b);
    var up, down := Wrap(a + b, |c|), Wrap(a - b, |c|);
    assert e == Turn(c, up) || e == Flip(c, up) || e == Turn(c, down) || e == Flip(c, down);
  }

  lemma SameCycleElements(c: seq<string>, d: seq<string>)
    requires SameCycle(c, d)
    ensures Elements(c) == Elements(d)
  {
    SameCycleSymmetric(c, d);
    MovesWithin(c, d);
    MovesWithin(d, c);
  }

  lemma MovesWithin(c: seq<string>, d: seq<string>)
    requires SameCycle(c, d)
    ensures Elements(d) <= Elements(c)
  {
    var k: nat :| k < |c| && (d == Turn(c, k) || d == Flip(c, k));
    forall i | 0 <= i < |d|
      ensures d[i] in c
    {
      assert d[i] == c[Wrap(k + i, |c|)] || d[i] == c[Wrap(k - i, |c|)];
    }
  }

  // ---- the key ----

  const ARROW: string := "->"

  /** The names joined by arrows. */
  function Join(xs: seq<string>): string {
    if xs == [] then ""
    else if |xs| == 1 then xs[0]
    else Join(xs[..|xs| - 1]) + ARROW + xs[|xs| - 1]
  }

  /** Joining two lists puts one arrow between them. */
  lemma {:induction false} JoinConcat(a: seq<string>, b: seq<string>)
    requires a != [] && b != []
    ensures Join(a + b) == Join(a) + "->" + Join(b)
    ensures |a| == 1 ==> Join(a) == a[0]
  {
    if |b| == 1 {
      assert (a + b)[..|a|] == a;
    } else {
      var front := b[..|b| - 1];
      assert (a + b)[..|a + b| - 1] == a + front;
      JoinConcat(a, front);
      assert Join(a) + "->" + (Join(front) + ARROW + b[|b| - 1]) == (Join(a) + "->" + Join(front)) + ARROW + b[|b| - 1];
    }
  }

  method JoinArrow(xs: seq<string>) returns (out: string)
    ensures out == Join(xs)
  {
    out := "";
    for i := 0 to |xs|
      invariant out == Join(xs[..i])
    {
      assert xs[..i + 1][..i] == xs[..i];
      if i > 0 {
        out := out + ARROW;
      }
      out := out + xs[i];
    }
    assert xs[..|xs|] == xs;
  }

  predicate HasArrow(x: string) {
    exists i :: 0 <= i < |x| - 1 && x[i] == '-' && x[i + 1] == '>'
  }

  ghost predicate PlainNames(xs: seq<string>) {
    forall i :: 0 <= i < |xs| ==> !HasArrow(xs[i])
  }

  lemma ArrowInTail(front: string, last: string, q: nat)
    requires var s := front + ARROW + last; q < |s| - 1 && s[q] == '-' && s[q + 1] == '>'
    ensures q > |front| ==> HasArrow(last)
  {
    var s := front + ARROW + last;
    assert s[|front|] == '-' && s[|front| + 1] == '>';
    if q > |front| {
      var i := q - |front| - 2;
      assert last[i] == s[q] && last[i + 1] == s[q + 1];
    }
  }

  lemma {:induction false} JoinInjective(xs: seq<string>, ys: seq<string>)
    requires xs != [] && ys != [] && PlainNames(xs) && PlainNames(ys)
    requires Join(xs) == Join(ys)
    ensures xs == ys
  {
    if |xs| == 1 || |ys| == 1 {
      JoinOne(xs, ys);
    } else {
      var fx, lx, fy, ly := xs[..|xs| - 1], xs[|xs| - 1], ys[..|ys| - 1], ys[|ys| - 1];
      var p, q := |Join(fx)|, |Join(fy)|;
      var s := Join(xs);
      assert s == Join(fx) + ARROW + lx && s == Join(fy) + ARROW + ly;
      assert s[p] == '-' && s[p + 1] == '>' && s[q] == '-' && s[q + 1] == '>';
      ArrowInTail(Join(fx), lx, q);
      ArrowInTail(Join(fy), ly, p);
      assert Join(fx) == s[..p] && lx == s[p + 2..];
      assert Join(fy) == s[..q] && ly == s[q + 2..];
      JoinInjective(fx, fy);
      assert xs == fx + [lx] && ys == fy + [ly];
    }
  }

  lemma {:induction false} JoinOne(xs: seq<string>, ys: seq<string>)
    requires xs != [] && ys != [] && PlainNames(xs) && PlainNames(ys)
    requires Join(xs) == Join(ys) && (|xs| == 1 || |ys| == 1)
    ensures xs == ys
  {
    JoinHasArrow(xs);
    JoinHasArrow(ys);
    assert |xs| == 1 ==> xs == [xs[0]];
    assert |ys| == 1 ==> ys == [ys[0]];
  }

  lemma {:induction false} JoinHasArrow(xs: seq<string>)
    ensures |xs| > 1 ==> HasArrow(Join(xs))
  {
    if |xs| > 1 {
      var p := |Join(xs[..|xs| - 1])|;
      assert Join(xs)[p] == '-' && Join(xs)[p + 1] == '>';
    }
  }

  /** The index of the first least name. */
  function MinIndex(c: seq<string>): (m: nat)
    requires c != []
    ensures m < |c|
    ensures forall i :: 0 <= i < |c| ==> !Less(c[i], c[m])
    ensures forall i :: 0 <= i < m ==> Less(c[m], c[i])
  {
    if |c| == 1 then LessIrreflexive(c[0]); 0
    else
      var m, last := MinIndex(c[..|c| - 1]), |c| - 1;
      assert forall i :: 0 <= i < last ==> c[i] == c[..last][i];
      MinStep(c, m);
      if Less(c[last], c[m]) then last else m
  }

  lemma MinStep(c: seq<string>, m: nat)
    requires m < |c| - 1
    requires forall i :: 0 <= i < |c| - 1 ==> !Less(c[i], c[m])
    ensures var last := |c| - 1;
            && (forall i :: 0 <= i < |c| ==> !Less(c[i], c[if Less(c[last], c[m]) then last else m]))
            && (Less(c[last], c[m]) ==> forall i :: 0 <= i < last ==> Less(c[last], c[i]))
  {
    var last := |c| - 1;
    LessIrreflexive(c[last]);
    forall i | 0 <= i < |c|
      ensures !Less(c[i], c[if Less(c[last], c[m]) then last else m])
    {
      if Less(c[last], c[m]) && i < last && Less(c[i], c[last]) {
        LessTransitive(c[i], c[last], c[m]);
      }
    }
    forall i | 0 <= i < last && Less(c[last], c[m])
      ensures Less(c[last], c[i])
    {
      LessTotal(c[m], c[i]);
      if Less(c[m], c[i]) {
        LessTransitive(c[last], c[m], c[i]);
      }
    }
  }

  /** A closing copy of the first name is dropped. */
  function Trim(c: seq<string>): seq<string> {
    if c != [] && c[0] == c[|c| - 1] then c[..|c| - 1] else c
  }

  function Key(cycle: seq<string>): string {
    var c := Trim(cycle);
    if c == [] then ""
    else
      var forward, backward := Join(Turn(c, MinIndex(c))), Join(Flip(c, MinIndex(c)));
      if Less(forward, backward) then forward else backward
  }

  method ReadForward(c: seq<string>, m: nat) returns (r: seq<string>)
    requires m < |c|
    ensures r == Turn(c, m)
  {
    var rotated := new string[|c|];
    for i := 0 to |c|
      invariant forall j :: 0 <= j < i ==> rotated[j] == c[Wrap(m + j, |c|)]
    {
      WrapIsMod(m + i, |c|);
      rotated[i] := c[(m + i) % |c|];
    }
    r := rotated[..];
  }

  method ReadBackward(c: seq<string>, m: nat) returns (r: seq<string>)
    requires m < |c|
    ensures r == Flip(c, m)
  {
    var reverse := new string[|c|];
    for i := 0 to |c|
      invariant forall j :: 0 <= j < i ==> reverse[j] == c[Wrap(m - j, |c|)]
    {
      WrapIsMod(m - i, |c|);
      reverse[i] := c[(m - i + |c| * 2) % |c|];
    }
    r := reverse[..];
  }

  method CanonicalKey(cycle: seq<string>) returns (key: string)
    ensures key == Key(cycle)
  {
    hide Less, Join;
    if |cycle| == 0 {
      return "";
    }
    var trimmed := cycle;
    if trimmed[0] == trimmed[|trimmed| - 1] {
      trimmed := trimmed[..|trimmed| - 1];
    }
    if |trimmed| == 0 {
      return "";
    }
    var n := |trimmed|;
    var minIdx := 0;
    assert trimmed[..1] == [trimmed[0]];
    for i := 1 to n
      invariant 0 <= minIdx < i && minIdx == MinIndex(trimmed[..i])
    {
      assert trimmed[..i + 1][..i] == trimmed[..i];
      if Less(trimmed[i], trimmed[minIdx]) {
        minIdx := i;
      }
    }
    assert trimmed[..n] == trimmed;
    hide Turn, Flip;
    var rotated := ReadForward(trimmed, minIdx);
    var reverse := ReadBackward(trimmed, minIdx);
    var fwd := JoinArrow(rotated);
    var rev := JoinArrow(reverse);
    if Less(fwd, rev) {
      return fwd;
    }
    return rev;
  }

  /** The lists the key is defined for: at least two names, none twice. */
  ghost predicate Simple(c: seq<string>) {
    |c| >= 2 && Distinct(c)
  }

  lemma {:induction false} UniqueMin(c: seq<string>, j: nat)
    requires Simple(c) && j < |c|
    requires forall i :: 0 <= i < |c| ==> !Less(c[i], c[j])
    ensures j == MinIndex(c)
  {
    LessTotal(c[j], c[MinIndex(c)]);
  }

  /** Where the least name of a rotated list stands. */
  lemma {:induction false} MinOfTurn(c: seq<string>, k: nat)
    requires Simple(c) && k < |c|
    ensures MinIndex(Turn(c, k)) == Wrap(MinIndex(c) - k, |c|)
  {
    hide *;
    var t, j := Turn(c, k), Wrap(MinIndex(c) - k, |c|);
    MovesDistinct(c, k);
    LeastMoves(c, k);
    UniqueMin(t, j);
  }

  /** Where the least name of a list read backwards stands. */
  lemma {:induction false} MinOfFlip(c: seq<string>, k: nat)
    requires Simple(c) && k < |c|
    ensures MinIndex(Flip(c, k)) == Wrap(k - MinIndex(c), |c|)
  {
    hide *;
    var f, j := Flip(c, k), Wrap(k - MinIndex(c), |c|);
    MovesDistinct(c, k);
    LeastMoves(c, k);
    UniqueMin(f, j);
  }

  lemma {:induction false} LeastMoves(c: seq<string>, k: nat)
    requires k < |c|
    ensures var m, n := MinIndex(c), |c|;
            && (forall i :: 0 <= i < n ==> !Less(Turn(c, k)[i], Turn(c, k)[Wrap(m - k, n)]))
            && (forall i :: 0 <= i < n ==> !Less(Flip(c, k)[i], Flip(c, k)[Wrap(k - m, n)]))
  {
    hide Less, MinIndex, Turn, Flip;
    var m, n := MinIndex(c), |c|;
    MovedAt(c, k, Wrap(m - k, n));
    MovedAt(c, k, Wrap(k - m, n));
    forall i | 0 <= i < n
      ensures !Less(Turn(c, k)[i], c[m]) && !Less(Flip(c, k)[i], c[m])
    {
      MovedAt(c, k, i);
    }
  }

  lemma MovesDistinct(c: seq<string>, k: nat)
    requires Simple(c) && k < |c|
    ensures Simple(Turn(c, k)) && Simple(Flip(c, k))
  {
    forall i, j | 0 <= i < j < |c|
      ensures Turn(c, k)[i] != Turn(c, k)[j] && Flip(c, k)[i] != Flip(c, k)[j]
    {
      assert Wrap(k + i, |c|) != Wrap(k + j, |c|) && Wrap(k - i, |c|) != Wrap(k - j, |c|);
    }
  }

  lemma TurnKeepsKey(c: seq<string>, k: nat)
    requires Simple(c) && k < |c|
    ensures Key(Turn(c, k)) == Key(c)
  {
    hide Turn, Flip, Join, MinIndex, Simple, Key;
    var d, m := Turn(c, k), MinIndex(c);
    var t := Wrap(m - k, |c|);
    MovesDistinct(c, k);
    MinOfTurn(c, k);
    TurnTurn(c, k, t);
    SimpleKey(c);
    SimpleKey(d);
    assert Wrap(k + t, |c|) == m;
  }

  lemma FlipKeepsKey(c: seq<string>, k: nat)
    requires Simple(c) && k < |c|
    ensures Key(Flip(c, k)) == Key(c)
  {
    hide Turn, Flip, Join, MinIndex, Simple, Key;
    var d, m := Flip(c, k), MinIndex(c);
    var t := Wrap(k - m, |c|);
    MovesDistinct(c, k);
    MinOfFlip(c, k);
    TurnTurn(c, k, t);
    SimpleKey(c);
    SimpleKey(d);
    assert Wrap(k - t, |c|) == m;
    SmallerIsSymmetric(Join(Turn(c, m)), Join(Flip(c, m)));
  }

  function Smaller(a: string, b: string): string {
    if Less(a, b) then a else b
  }

  lemma SmallerIsSymmetric(a: string, b: string)
    ensures Smaller(a, b) == Smaller(b, a)
  {
    LessTotal(a, b);
    if Less(a, b) {
      LessAsymmetric(a, b);
    }
  }

  lemma {:induction false} SimpleKey(c: seq<string>)
    requires Simple(c)
    ensures Key(c) == Smaller(Join(Turn(c, MinIndex(c))), Join(Flip(c, MinIndex(c))))
  {
  }

  /** The key is one of the two readings from the least name, and the other one is not smaller. */
  lemma {:induction false} KeyIsSmaller(c: seq<string>)
    requires Simple(c)
    ensures var m := MinIndex(c);
            && (Key(c) == Join(Turn(c, m)) || Key(c) == Join(Flip(c, m)))
            && !Less(Join(Turn(c, m)), Key(c)) && !Less(Join(Flip(c, m)), Key(c))
  {
    hide Join, Less, Turn, Flip;
    var forward, backward := Join(Turn(c, MinIndex(c))), Join(Flip(c, MinIndex(c)));
    LessIrreflexive(forward);
    LessIrreflexive(backward);
    if Less(forward, backward) {
      LessAsymmetric(forward, backward);
    }
  }

  lemma PlainMoves(c: seq<string>, k: nat)
    requires PlainNames(c) && k < |c|
    ensures PlainNames(Turn(c, k)) && PlainNames(Flip(c, k))
  {
    forall i | 0 <= i < |c|
      ensures !HasArrow(Turn(c, k)[i]) && !HasArrow(Flip(c, k)[i])
    {
      assert !HasArrow(c[Wrap(k + i, |c|)]) && !HasArrow(c[Wrap(k - i, |c|)]);
    }
  }

  /** For all names the same cycle up to rotation and direction has the same key. */
  lemma SameCycleSameKey(c: seq<string>, d: seq<string>)
    requires Simple(c) && SameCycle(c, d)
    ensures Key(c) == Key(d)
  {
    hide Key, Turn, Flip;
    var k: nat :| k < |c| && (d == Turn(c, k) || d == Flip(c, k));
    TurnKeepsKey(c, k);
    FlipKeepsKey(c, k);
  }

  /** Equal keys mean the same cycle up to rotation and direction, and the other way round. */
  lemma KeyIffSameCycle(c: seq<string>, d: seq<string>)
    requires Simple(c) && Simple(d) && PlainNames(c) && PlainNames(d)
    ensures Key(c) == Key(d) <==> SameCycle(c, d)
  {
    if SameCycle(c, d) {
      SameCycleSameKey(c, d);
    }
    if Key(c) == Key(d) {
      var m, l := MinIndex(c), MinIndex(d);
      KeyIsSmaller(c);
      KeyIsSmaller(d);
      PlainMoves(c, m);
      PlainMoves(d, l);
      var x := if Key(c) == Join(Turn(c, m)) then Turn(c, m) else Flip(c, m);
      var y := if Key(d) == Join(Turn(d, l)) then Turn(d, l) else Flip(d, l);
      JoinInjective(x, y);
      assert SameCycle(c, x) && SameCycle(d, x);
      SameCycleSymmetric(d, x);
      SameCycleTransitive(c, x, d);
    }
  }

  lemma {:induction false} TwoCycleKey(a: string, b: string)
    requires Less(a, b)
    ensures Simple([a, b]) && Key([a, b]) == a + ARROW + b
  {
    LessAsymmetric(a, b);
    LessIrreflexive(a);
    var c := [a, b];
    UniqueMin(c, 0);
    hide Less, MinIndex;
    TurnZero(c);
    MovedAt(c, 0, 0);
    MovedAt(c, 0, 1);
    assert Flip(c, 0) == c;
    assert c[..1] == [a];
    assert Join(c) == Join([a]) + ARROW + b;
    SimpleKey(c);
  }

  /** Names that contain the arrow break it: two disjoint cycles share one key. */
  lemma ArrowNamesCollide()
    ensures var c, d := ["a->b", "c"], ["a", "b->c"];
            Simple(c) && Simple(d) && Key(c) == Key(d) && !SameCycle(c, d) && Elements(c) !! Elements(d)
  {
    hide Less, Key, SameCycle;
    var c, d := ["a->b", "c"], ["a", "b->c"];
    CollidingNames();
    TwoCycleKey("a->b", "c");
    TwoCycleKey("a", "b->c");
    Disjoint(c, d);
  }

  lemma CollidingNames()
    ensures Less("a->b", "c") && Less("a", "b->c")
    ensures "a->b" + ARROW + "c" == "a" + ARROW + "b->c"
    ensures Elements(["a->b", "c"]) !! Elements(["a", "b->c"])
  {
    assert "c"[0] == 'c' && "b->c"[0] == 'b';
  }

  lemma Disjoint(c: seq<string>, d: seq<string>)
    requires c != [] && Elements(c) !! Elements(d)
    ensures !SameCycle(c, d)
  {
    assert c[0] in Elements(c);
    if SameCycle(c, d) {
      SameCycleElements(c, d);
      assert false;
    }
  }
}
