/** Positioning a log file at its last n lines by reading it backwards in chunks. */
module LogTail {
  import opened Prelude

  const CHUNK: nat := 4096

  class File {
    const content: string
    var offset: nat

    constructor (content: string)
      ensures this.content == content && offset == 0
    {
      this.content, offset := content, 0;
    }

    method Seek(to: nat)
      modifies this
      ensures offset == to
    {
      offset := to;
    }

    /** Fills the first n cells of buf and moves on by n. */
    method ReadFull(buf: array<char>, n: nat)
      requires offset + n <= |content| && n <= buf.Length
      modifies this, buf
      ensures offset == old(offset) + n
      ensures buf[..n] == content[old(offset)..old(offset) + n]
    {
      for i := 0 to n
        invariant offset == old(offset)
        invariant buf[..i] == content[offset..offset + i]
      {
        buf[i] := content[offset + i];
      }
      offset := offset + n;
    }
  }

  function CountNewlines(s: string): nat {
    if s == "" then 0 else (if s[0] == '\n' then 1 else 0) + CountNewlines(s[1..])
  }

  predicate EndsWithNewline(s: string) {
    s == "" || s[|s| - 1] == '\n'
  }

  /** How many newlines, counted from the end, precede the n-th line from the end. */
  function Target(s: string, n: nat): nat {
    if EndsWithNewline(s) then n + 1 else n
  }

  /** p stands just after the target-th newline from the end, or at 0 when there are too few. */
  ghost predicate AfterTarget(s: string, n: nat, p: nat) {
    if CountNewlines(s) < Target(s, n) then p == 0
    else 0 < p <= |s| && s[p - 1] == '\n' && CountNewlines(s[p - 1..]) == Target(s, n)
  }

  lemma {:induction false} CountSuffix(s: string, k: nat)
    requires k <= |s|
    ensures CountNewlines(s[k..]) <= CountNewlines(s)
  {
    if k > 0 {
      CountSuffix(s[1..], k - 1);
      assert s[k..] == s[1..][k - 1..];
    }
  }

  method SeekBackNLines(f: File, n: int)
    modifies f
    ensures n <= 0 || f.content == "" ==> f.offset == old(f.offset)
    ensures n > 0 && f.content != "" ==> f.offset <= |f.content| && AfterTarget(f.content, n, f.offset)
  {
    hide CountNewlines;
    if n <= 0 {
      return;
    }
    var size := |f.content|;
    if size == 0 {
      return;
    }
    var target := n + 1;
    if !EndsWithNewline(f.content) {
      target := n;
    }
    var offset := size;
    var newlines := 0;
    var buf := new char[CHUNK];
    assert f.content[size..] == "";
    CountNone();
    while offset > 0
      invariant 0 <= offset <= size
      invariant newlines == CountNewlines(f.content[offset..]) < target
      decreases offset
    {
      var readSize := CHUNK;
      if offset < readSize {
        readSize := offset;
      }
      offset := offset - readSize;
      f.Seek(offset);
      f.ReadFull(buf, readSize);
      ghost var chunk := f.content[offset..offset + readSize];
      var i := readSize - 1;
      while i >= 0
        invariant -1 <= i < readSize
        invariant buf[..readSize] == chunk
        invariant newlines == CountNewlines(f.content[offset + i + 1..]) < target
        decreases i
      {
        CountStep(f.content, offset + i);
        assert buf[i] == buf[..readSize][i] == chunk[i] == f.content[offset + i];
        if buf[i] == '\n' {
          newlines := newlines + 1;
          if newlines == target {
            f.Seek(offset + i + 1);
            CountSuffix(f.content, offset + i);
            return;
          }
        }
        i := i - 1;
      }
    }
    assert f.content[0..] == f.content;
    f.Seek(0);
  }

  lemma CountNone()
    ensures CountNewlines("") == 0
  {
  }

  lemma CountStep(s: string, k: nat)
    requires k < |s|
    ensures CountNewlines(s[k..]) == (if s[k] == '\n' then 1 else 0) + CountNewlines(s[k + 1..])
  {
    assert s[k..][1..] == s[k + 1..];
  }

  // ---- the meaning of the position ----

  /** A character in front of a text, seen line by line. */
  function Prepend(c: char, lines: seq<string>): (r: seq<string>)
    ensures r != []
  {
    if c == '\n' || lines == [] then [[c]] + lines else [[c] + lines[0]] + lines[1..]
  }

  /** The lines of a text, each with its newline; the last one may lack it. */
  function Lines(s: string): (r: seq<string>)
    ensures s != "" ==> r != []
  {
    if s == "" then [] else Prepend(s[0], Lines(s[1..]))
  }

  function Flatten(ls: seq<string>): string {
    if ls == [] then "" else ls[0] + Flatten(ls[1..])
  }

  lemma {:induction false} FlattenLines(s: string)
    ensures Flatten(Lines(s)) == s
  {
    if s != "" {
      hide Prepend, Flatten;
      FlattenLines(s[1..]);
      FlattenPrepend(s[0], Lines(s[1..]));
      assert s == [s[0]] + s[1..];
    }
  }

  lemma {:induction false} FlattenPrepend(c: char, lines: seq<string>)
    ensures Flatten(Prepend(c, lines)) == [c] + Flatten(lines)
  {
    if c == '\n' || lines == [] {
      assert Prepend(c, lines)[1..] == lines;
    } else {
      assert Prepend(c, lines)[1..] == lines[1..];
    }
  }

  lemma PrependConcat(c: char, lines: seq<string>, more: seq<string>)
    requires c == '\n' || lines != []
    ensures Prepend(c, lines + more) == Prepend(c, lines) + more
  {
    if c != '\n' {
      assert (lines + more)[1..] == lines[1..] + more;
    }
  }

  /** Cutting a text just after a newline cuts its list of lines. */
  lemma {:induction false} LinesConcat(a: string, b: string)
    requires EndsWithNewline(a)
    ensures Lines(a + b) == Lines(a) + Lines(b)
  {
    if a == "" {
      assert a + b == b;
    } else {
      hide Prepend;
      assert (a + b)[1..] == a[1..] + b;
      LinesConcat(a[1..], b);
      PrependConcat(a[0], Lines(a[1..]), Lines(b));
    }
  }

  lemma {:induction false} LineCount(s: string)
    ensures |Lines(s)| == CountNewlines(s) + (if EndsWithNewline(s) then 0 else 1)
  {
    if s != "" {
      LineCount(s[1..]);
      if |s| > 1 {
        assert s[1..][|s| - 2] == s[|s| - 1];
      }
    }
  }

  function LastLines(ls: seq<string>, n: nat): seq<string> {
    if |ls| <= n then ls else ls[|ls| - n..]
  }

  /** A position just after the target-th newline leaves exactly n lines. */
  lemma SuffixHasNLines(s: string, n: nat, p: nat)
    requires n > 0 && 0 < p <= |s| && s[p - 1] == '\n' && CountNewlines(s[p - 1..]) == Target(s, n)
    ensures |Lines(s[p..])| == n
  {
    hide CountNewlines, Lines;
    CountStep(s, p - 1);
    LineCount(s[p..]);
    CountNone();
    assert p < |s| ==> s[p..][|s| - p - 1] == s[|s| - 1];
  }

  /** The chosen position is a line start, and what follows it is exactly the last n lines. */
  lemma {:induction false} TailIsLastLines(s: string, n: nat, p: nat)
    requires n > 0 && s != "" && p <= |s| && AfterTarget(s, n, p)
    ensures p == 0 || s[p - 1] == '\n'
    ensures Lines(s[p..]) == LastLines(Lines(s), n)
    ensures s[p..] == Flatten(LastLines(Lines(s), n))
    ensures |Lines(s[p..])| == Min(n, |Lines(s)|)
  {
    hide CountNewlines, Lines, Flatten;
    LineCount(s);
    FlattenLines(s[p..]);
    var front, tail := s[..p], s[p..];
    assert front + tail == s;
    if CountNewlines(s) < Target(s, n) {
      assert tail == s;
    } else {
      SuffixHasNLines(s, n, p);
      LinesConcat(front, tail);
      assert Lines(s)[|Lines(front)|..] == Lines(tail);
    }
  }

  /** Only one position qualifies. */
  lemma TailIsUnique(s: string, n: nat, p: nat, q: nat)
    requires n > 0 && s != "" && p <= |s| && q <= |s|
    requires AfterTarget(s, n, p) && AfterTarget(s, n, q)
    ensures p == q
  {
    hide CountNewlines;
    if CountNewlines(s) >= Target(s, n) {
      CountStep(s, p - 1);
      CountStep(s, q - 1);
      CountBetween(s, p, q - 1);
      CountBetween(s, q, p - 1);
    }
  }

  lemma CountBetween(s: string, p: nat, q: nat)
    requires p <= |s| && q <= |s|
    ensures p <= q ==> CountNewlines(s[q..]) <= CountNewlines(s[p..])
  {
    if p <= q {
      CountSuffix(s[p..], q - p);
      assert s[p..][q - p..] == s[q..];
    }
  }
}
