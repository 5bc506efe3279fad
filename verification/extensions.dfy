/** File extensions: the walker compares the last one, the incremental build any suffix. */
module Extensions {
  import opened Prelude

  function LowerAscii(c: char): (r: char)
    ensures if 'A' <= c <= 'Z' then 'a' <= r <= 'z' && r - 'a' == c - 'A' else r == c
  {
    if 'A' <= c <= 'Z' then ((c as int) + 32) as char else c
  }

  /** A lower-case table: right on ASCII, and no other letter becomes a dot or a slash. */
  ghost predicate IsLowerCase(fold: char -> char) {
    forall c :: if c < '\U{80}' then fold(c) == LowerAscii(c) else fold(c) != '.' && fold(c) != '/'
  }

  type LowerCase = fold: char -> char | IsLowerCase(fold) witness LowerAscii

  /** The table in use; what is proved here holds for any. */
  const LOWER: LowerCase

  function LowerChar(c: char): char {
    LOWER(c)
  }

  function Lower(s: string): (r: string)
    ensures |r| == |s|
  {
    if s == "" then "" else Lower(s[..|s| - 1]) + [LowerChar(s[|s| - 1])]
  }

  /** From the last dot of the last path element on; nothing if it has none. */
  function Ext(name: string): string {
    if name == "" || name[|name| - 1] == '/' then ""
    else if name[|name| - 1] == '.' then "."
    else
      var e := Ext(name[..|name| - 1]);
      if e == "" then "" else e + [name[|name| - 1]]
  }

  predicate HasSuffix(s: string, t: string) {
    |t| <= |s| && s[|s| - |t|..] == t
  }

  /** The incremental build's test: any extension is a suffix of the path, case aside. */
  method HasExt(path: string, exts: seq<string>) returns (ok: bool)
    ensures ok <==> SomeSuffix(path, exts)
  {
    for i := 0 to |exts|
      invariant forall j :: 0 <= j < i ==> !HasSuffix(Lower(path), Lower(exts[j]))
    {
      if exts[i] == "" || HasSuffix(Lower(path), Lower(exts[i])) {
        assert HasSuffix(Lower(path), Lower(exts[i]));
        return true;
      }
    }
    ok := false;
  }

  ghost predicate SomeSuffix(path: string, exts: seq<string>) {
    exists i :: 0 <= i < |exts| && HasSuffix(Lower(path), Lower(exts[i]))
  }

  /** The walker's set of extensions. */
  method ExtSet(exts: seq<string>) returns (listed: set<string>)
    ensures listed == LowerSet(exts)
  {
    listed := {};
    for i := 0 to |exts|
      invariant listed == LowerSet(exts[..i])
    {
      assert exts[..i + 1] == exts[..i] + [exts[i]];
      listed := listed + {Lower(exts[i])};
    }
    assert exts[..|exts|] == exts;
  }

  function LowerSet(exts: seq<string>): set<string> {
    set e | e in exts :: Lower(e)
  }

  /** The walker's test: the last extension is listed, case aside. */
  predicate Listed(name: string, exts: seq<string>) {
    Lower(Ext(name)) in LowerSet(exts)
  }

  /** Every extension has a dot, and its own last extension is listed too. */
  predicate Plain(exts: seq<string>) {
    forall e :: e in exts ==> '.' in e && Lower(Ext(e)) in LowerSet(exts)
  }

  lemma {:induction false} LowerConcat(a: string, b: string)
    ensures Lower(a + b) == Lower(a) + Lower(b)
  {
    LowerSnoc(a, 'x');
    if b == "" {
      assert a + b == a;
    } else {
      var front, last := b[..|b| - 1], b[|b| - 1];
      LowerConcat(a, front);
      LowerSnoc(front, last);
      LowerSnoc(a + front, last);
      hide Lower;
      assert b == front + [last];
      assert a + b == (a + front) + [last];
    }
  }

  lemma {:induction false} ExtOfLower(s: string)
    ensures Ext(Lower(s)) == Lower(Ext(s))
  {
    if s != "" {
      var front, last := s[..|s| - 1], s[|s| - 1];
      ExtOfLower(front);
      hide Ext, Lower;
      assert s == front + [last];
      LowerSnoc(front, last);
      ExtSnoc(front, last);
      ExtSnoc(Lower(front), LowerChar(last));
      LowerSnoc(Ext(front), last);
      if last != '/' && last != '.' {
        assert LowerChar(last) != '/' && LowerChar(last) != '.';
      }
    }
  }

  lemma {:induction false} LowerSnoc(s: string, c: char)
    ensures Lower(s + [c]) == Lower(s) + [LowerChar(c)]
    ensures Lower("") == "" && Lower(".") == "."
    ensures Lower(s) == "" <==> s == ""
  {
    assert (s + [c])[..|s|] == s;
    assert Lower(".") == Lower("") + [LowerChar('.')];
  }

  lemma {:induction false} ExtSnoc(s: string, c: char)
    ensures Ext(s + [c]) == if c == '/' then "" else if c == '.' then "." else if Ext(s) == "" then "" else Ext(s) + [c]
  {
    assert (s + [c])[..|s|] == s;
  }

  /** What comes before a suffix with a dot and no slash does not matter for the extension. */
  lemma {:induction false} ExtOfSuffix(front: string, t: string)
    requires '.' in t && '/' !in t
    ensures Ext(front + t) == Ext(t) && Ext(t) != ""
  {
    var rest, last := t[..|t| - 1], t[|t| - 1];
    assert t == rest + [last] && front + t == (front + rest) + [last];
    ExtSnoc(front + rest, last);
    ExtSnoc(rest, last);
    if last != '.' {
      ExtOfSuffix(front, rest);
    }
  }

  lemma {:induction false} ExtIsSuffix(s: string)
    ensures HasSuffix(s, Ext(s))
  {
    if s != "" {
      var front, last := s[..|s| - 1], s[|s| - 1];
      assert s == front + [last];
      ExtIsSuffix(front);
      ExtSnoc(front, last);
      hide Ext;
      var e := Ext(front);
      assert s[|s| - |e| - 1..] == front[|front| - |e|..] + [last];
    }
  }

  /** An extension is one dot and what follows it. */
  lemma {:induction false} ExtShape(s: string)
    ensures Ext(s) == "" || (Ext(s)[0] == '.' && '.' !in Ext(s)[1..])
  {
    if s != "" {
      var front, last := s[..|s| - 1], s[|s| - 1];
      assert s == front + [last];
      ExtShape(front);
      ExtSnoc(front, last);
      hide Ext;
      if last != '/' && last != '.' && Ext(front) != "" {
        assert Ext(s)[1..] == Ext(front)[1..] + [last];
      }
    }
  }

  /** A dot and then neither dots nor slashes is all extension. */
  lemma {:induction false} ExtOfWhole(t: string)
    requires '.' !in t && '/' !in t
    ensures Ext("." + t) == "." + t
  {
    if t == "" {
      assert "." + t == ".";
    } else {
      var front, last := t[..|t| - 1], t[|t| - 1];
      ExtOfWhole(front);
      assert "." + t == ("." + front) + [last];
      ExtSnoc("." + front, last);
    }
  }

  lemma {:induction false} LongerThanAll(exts: seq<string>) returns (n: nat)
    ensures forall e :: e in exts ==> |e| < n
  {
    n := 1;
    for i := 0 to |exts|
      invariant forall j :: 0 <= j < i ==> |exts[j]| < n
    {
      n := Max(n, |exts[i]| + 1);
    }
  }

  ghost predicate SameTest(name: string, exts: seq<string>) {
    SomeSuffix(name, exts) <==> Listed(name, exts)
  }

  /** The two tests agree on every file name exactly when the extensions are plain. */
  lemma TestsAgreeIffPlain(exts: seq<string>)
    requires forall e :: e in exts ==> '/' !in e
    ensures (forall name :: '/' !in name ==> SameTest(name, exts)) <==> Plain(exts)
  {
    if Plain(exts) {
      forall name | '/' !in name
        ensures SameTest(name, exts)
      {
        PlainAgrees(exts, name);
      }
    } else {
      var e :| e in exts && !('.' in e && Lower(Ext(e)) in LowerSet(exts));
      var name := Witness(exts, e);
      assert !SameTest(name, exts);
    }
  }

  lemma PlainAgrees(exts: seq<string>, name: string)
    requires Plain(exts) && '/' !in name && forall e :: e in exts ==> '/' !in e
    ensures SameTest(name, exts)
  {
    hide Ext, Lower;
    ExtOfLower(name);
    if SomeSuffix(name, exts) {
      var i :| 0 <= i < |exts| && HasSuffix(Lower(name), Lower(exts[i]));
      var e, front := exts[i], Lower(name)[..|name| - |exts[i]|];
      assert e in exts;
      LowerKeeps(e);
      ExtOfLower(e);
      ExtOfSuffix(front, Lower(e));
      assert Lower(name) == front + Lower(e);
    }
    if Listed(name, exts) {
      var e :| e in exts && Lower(e) == Lower(Ext(name));
      var i :| 0 <= i < |exts| && exts[i] == e;
      ExtIsSuffix(Lower(name));
      assert HasSuffix(Lower(name), Lower(exts[i]));
    }
  }

  lemma {:induction false} LowerKeeps(s: string)
    ensures '.' in Lower(s) <==> '.' in s
    ensures '/' in Lower(s) <==> '/' in s
  {
    if s != "" {
      LowerKeeps(s[..|s| - 1]);
      assert s == s[..|s| - 1] + [s[|s| - 1]];
    }
  }

  /** A name on which the tests differ, from an extension that is not plain. */
  lemma Witness(exts: seq<string>, e: string) returns (name: string)
    requires forall x :: x in exts ==> '/' !in x
    requires e in exts && !('.' in e && Lower(Ext(e)) in LowerSet(exts))
    ensures '/' !in name && !SameTest(name, exts)
  {
    var i :| 0 <= i < |exts| && exts[i] == e;
    hide Ext, Lower;
    if '.' in e {
      name := e;
      assert HasSuffix(Lower(name), Lower(exts[i]));
    } else {
      var n := LongerThanAll(exts);
      var fill := seq(n, _ => 'q');
      name := "." + (fill + e);
      ExtOfWhole(fill + e);
      assert name == ("." + fill) + e;
      LowerConcat("." + fill, e);
      assert HasSuffix(Lower(name), Lower(exts[i]));
      forall x | x in exts
        ensures Lower(x) != Lower(name)
      {
        assert |Lower(x)| < |Lower(name)|;
      }
    }
  }
}
