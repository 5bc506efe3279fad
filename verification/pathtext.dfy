/** Slash-separated paths, and what byte order says about the directories they share. */
module PathText {
  import opened Ordering

  /** Path elements are not empty and hold no slash. */
  ghost predicate Clean(parts: seq<string>) {
    parts != [] && forall part :: part in parts ==> part != "" && '/' !in part
  }

  function Text(parts: seq<string>): string {
    if parts == [] then "" else if |parts| == 1 then parts[0] else parts[0] + "/" + Text(parts[1..])
  }

  /** d is a directory above the file at parts. */
  predicate Above(d: seq<string>, parts: seq<string>) {
    d < parts
  }

  /** Strings that begin alike lie together in byte order. */
  lemma {:induction false} SharedStart(start: string, a: string, b: string, c: string)
    requires start <= a && start <= c && Less(a, b) && Less(b, c)
    ensures start <= b
  {
    if start != "" {
      assert a[0] == c[0] == start[0];
      SharedStart(start[1..], a[1..], b[1..], c[1..]);
      assert b == [b[0]] + b[1..];
    }
  }

  lemma {:induction false} FirstElement(x: string, y: string, s: string, t: string)
    requires '/' !in x && '/' !in y && x + "/" + s == y + "/" + t
    ensures x == y && s == t
  {
    var a, b := x + "/" + s, y + "/" + t;
    assert a[..|x|] == x && b[..|y|] == y;
    assert a[|x|] == '/' && b[|y|] == '/';
    assert a[|x| + 1..] == s && b[|y| + 1..] == t;
  }

  lemma {:induction false} TextBelow(d: seq<string>, parts: seq<string>)
    requires d != [] && Above(d, parts)
    ensures Text(d) + "/" <= Text(parts)
    decreases |d|
  {
    var rest := parts[1..];
    if |d| == 1 {
      assert Text(parts) == (parts[0] + "/") + Text(rest);
    } else {
      assert d[1..] < rest by { assert forall i :: 0 <= i < |d| - 1 ==> d[1..][i] == parts[i + 1]; }
      TextBelow(d[1..], rest);
      var tail := Text(rest)[|Text(d[1..])| + 1..];
      assert Text(rest) == Text(d[1..]) + "/" + tail;
      assert Text(parts) == parts[0] + "/" + (Text(d[1..]) + "/" + tail);
      assert Text(d) == d[0] + "/" + Text(d[1..]);
      assert Text(parts) == (Text(d) + "/") + tail;
    }
  }

  lemma {:induction false} BelowText(d: seq<string>, parts: seq<string>)
    requires Clean(d) && Clean(parts) && Text(d) + "/" <= Text(parts)
    ensures Above(d, parts)
    decreases |d|
  {
    var tail := Text(parts)[|Text(d)| + 1..];
    assert Text(parts) == Text(d) + "/" + tail;
    SlashInText(parts, |Text(d)|);
    TextCons(d);
    TextCons(parts);
    hide Text, Clean;
    var rest := parts[1..];
    FirstIsPlain(d);
    FirstIsPlain(parts);
    if |d| == 1 {
      FirstElement(d[0], parts[0], tail, Text(rest));
      assert d == [parts[0]];
    } else {
      var below := Text(d[1..]) + "/" + tail;
      assert Text(d) + "/" + tail == d[0] + "/" + below;
      CleanRest(d);
      CleanRest(parts);
      FirstElement(d[0], parts[0], below, Text(rest));
      BelowText(d[1..], rest);
      assert d == [d[0]] + d[1..] && parts == [parts[0]] + rest;
    }
  }

  lemma {:induction false} TextCons(parts: seq<string>)
    requires parts != []
    ensures Text(parts) == if |parts| == 1 then parts[0] else parts[0] + "/" + Text(parts[1..])
  {
  }

  lemma FirstIsPlain(parts: seq<string>)
    requires Clean(parts)
    ensures parts != [] && '/' !in parts[0]
  {
    assert parts[0] in parts;
  }

  lemma {:induction false} SlashInText(parts: seq<string>, i: nat)
    requires Clean(parts) && i < |Text(parts)| && Text(parts)[i] == '/'
    ensures |parts| > 1
  {
    assert parts[0] in parts;
  }

  lemma CleanRest(parts: seq<string>)
    requires Clean(parts) && |parts| > 1
    ensures Clean(parts[1..])
  {
    assert forall x :: x in parts[1..] ==> x in parts;
  }

  /** In byte order the files below one directory lie together. */
  lemma {:induction false} SharedDirectory(d: seq<string>, p: seq<string>, q: seq<string>, r: seq<string>)
    requires Clean(p) && Clean(q) && Clean(r) && Above(d, p) && Above(d, r)
    requires Less(Text(p), Text(q)) && Less(Text(q), Text(r))
    ensures Above(d, q)
  {
    if d != [] {
      assert Clean(d) by { assert forall x :: x in d ==> x in p; }
      TextBelow(d, p);
      TextBelow(d, r);
      SharedStart(Text(d) + "/", Text(p), Text(q), Text(r));
      BelowText(d, q);
    }
  }
}
