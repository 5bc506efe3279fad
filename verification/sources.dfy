/** The directory walk, the check up, the filter and the poller as the path rules of one frontend. */
module Sources {
  import opened Prelude
  import opened Extensions
  import opened PathText
  import opened Walk
  import opened Filtering
  import opened Ingest
  import opened Build
  import opened Incremental
  import opened Coalescing
  import opened Polling
  import Wakeup
  import Watcher

  function BaseOf(p: string): string {
    var parts := Split(p);
    parts[|parts| - 1]
  }

  /** The frontend's path rules are those of the walk down and the check up. */
  ghost predicate FromRules(fe: Frontend, r: Rules) {
    && (forall p :: fe.handles(p) <==> Listed(BaseOf(p), r.exts))
    && (forall p :: fe.reached(p) <==> WayOpen(r, r.root, Split(p)))
    && (forall p :: fe.accepted(p) <==> Indexable(r, Split(p)))
  }

  /** Names in a directory tree are not empty and hold no slash. */
  ghost predicate CleanTree(nodes: seq<Node>)
    decreases nodes
  {
    forall i :: 0 <= i < |nodes| ==>
      && nodes[i].name != "" && '/' !in nodes[i].name
      && (nodes[i].Dir? ==> CleanTree(nodes[i].children))
  }

  /** The files of the tree, by relative path. */
  ghost predicate FilesOf(tree: seq<Node>, fs: Files) {
    forall p :: p in fs <==> HasFile(tree, Split(p))
  }

  // ---- splitting and joining ----

  lemma {:induction false} SplitSnoc(p: string, c: char)
    ensures Split(p + [c]) == Longer(Split(p), c)
  {
    assert (p + [c])[..|p|] == p;
  }

  /** Putting a slash between two paths puts their elements one after the other. */
  lemma {:induction false} SplitJoin(a: string, b: string)
    ensures Split(a + "/" + b) == Split(a) + Split(b)
  {
    if b == "" {
      assert Split(b) == [""];
      SplitSnoc(a, '/');
      hide *;
      assert a + "/" + b == a + ['/'];
    } else {
      hide *;
      var front, c := b[..|b| - 1], b[|b| - 1];
      SplitJoin(a, front);
      SplitJoinStep(a, front, c);
      assert b == front + [c];
    }
  }

  lemma {:induction false} SplitJoinStep(a: string, front: string, c: char)
    requires Split(a + "/" + front) == Split(a) + Split(front)
    ensures Split(a + "/" + (front + [c])) == Split(a) + Split(front + [c])
  {
    hide *;
    var left := a + "/" + front;
    SplitSnoc(left, c);
    SplitSnoc(front, c);
    LongerBoth(Split(a), Split(front), c);
    assert a + "/" + (front + [c]) == left + [c];
  }

  /** One character more in a list of elements: a new element after a slash, else a longer last one. */
  ghost function Longer(parts: seq<string>, c: char): seq<string>
    requires parts != []
  {
    if c == '/' then parts + [""] else parts[..|parts| - 1] + [parts[|parts| - 1] + [c]]
  }

  lemma LongerBoth(a: seq<string>, b: seq<string>, c: char)
    requires b != []
    ensures Longer(a + b, c) == a + Longer(b, c)
  {
  }

  lemma {:induction false} SplitPlain(x: string)
    requires '/' !in x
    ensures Split(x) == [x]
  {
    if x != "" {
      var front, c := x[..|x| - 1], x[|x| - 1];
      SplitPlain(front);
      SplitSnoc(front, c);
      assert x == front + [c];
    }
  }

  /** Clean elements come back from the joined path. */
  lemma {:induction false} SplitText(parts: seq<string>)
    requires Clean(parts)
    ensures Split(Text(parts)) == parts
  {
    assert parts[0] in parts;
    SplitPlain(parts[0]);
    if |parts| == 1 {
      assert parts == [parts[0]];
    } else {
      CleanRest(parts);
      SplitText(parts[1..]);
      SplitJoin(parts[0], Text(parts[1..]));
      hide Split;
      assert parts == [parts[0]] + parts[1..];
    }
  }

  lemma {:induction false} TextSnoc(parts: seq<string>, x: string)
    requires parts != []
    ensures Text(parts + [x]) == Text(parts) + "/" + x
  {
    if |parts| > 1 {
      TextSnoc(parts[1..], x);
      assert (parts + [x])[1..] == parts[1..] + [x];
    } else {
      assert parts + [x] == [parts[0], x] && (parts + [x])[1..] == [x];
    }
  }

  lemma {:induction false} TextLast(parts: seq<string>, c: char)
    requires parts != []
    ensures var last := |parts| - 1; Text(parts[last := parts[last] + [c]]) == Text(parts) + [c]
  {
    var last := |parts| - 1;
    if last > 0 {
      TextLast(parts[1..], c);
      assert parts[last := parts[last] + [c]][1..] == parts[1..][last - 1 := parts[last] + [c]];
    }
  }

  lemma {:induction false} TextSplit(p: string)
    ensures Text(Split(p)) == p
  {
    if p != "" {
      var front, c := p[..|p| - 1], p[|p| - 1];
      var parts := Split(front);
      TextSplit(front);
      if c == '/' {
        TextSnoc(parts, "");
      } else {
        TextLast(parts, c);
        assert parts[|parts| - 1 := parts[|parts| - 1] + [c]] == parts[..|parts| - 1] + [parts[|parts| - 1] + [c]];
      }
    }
  }

  // ---- what the walk reports ----

  /** The relative paths the walk hands to its visitor. */
  ghost function Reported(root: Path, visited: seq<Path>): seq<string>
    requires forall i :: 0 <= i < |visited| ==> |root| < |visited[i]|
  {
    seq(|visited|, i requires 0 <= i < |visited| => Text(visited[i][|root|..]))
  }

  lemma {:induction false} FilesAreClean(nodes: seq<Node>, rel: seq<string>)
    requires CleanTree(nodes) && HasFile(nodes, rel)
    ensures Clean(rel)
    decreases |rel|
  {
    if |rel| == 1 {
      var i :| 0 <= i < |nodes| && nodes[i] == File(rel[0]);
      assert rel == [rel[0]];
    } else {
      var children :| Dir(rel[0], children) in nodes && HasFile(children, rel[1..]);
      var i :| 0 <= i < |nodes| && nodes[i] == Dir(rel[0], children);
      FilesAreClean(children, rel[1..]);
      assert rel == [rel[0]] + rel[1..];
    }
  }

  lemma {:induction false} VisitedHasRel(r: Rules, tree: seq<Node>, p: Path)
    requires p in VisitAll(r, r.root, tree)
    ensures |r.root| < |p| && p == r.root + p[|r.root|..] && p[..|r.root|] == r.root
    ensures HasFile(tree, p[|r.root|..]) && WayOpen(r, r.root, p[|r.root|..])
    ensures Listed(p[|p| - 1], r.exts)
  {
    BelowDir(r, r.root, tree, p);
    assert p == r.root + p[|r.root|..];
    WalkVisits(r, tree, p[|r.root|..]);
  }

  /** The walk over a tree gives the listing a build starts from. */
  lemma {:induction false} WalkGivesListing(fe: Frontend, r: Rules, tree: seq<Node>, fs: Files)
    requires FromRules(fe, r) && FilesOf(tree, fs) && CleanTree(tree) && DistinctNames(tree)
    ensures var visited := VisitAll(r, r.root, tree);
            && (forall i :: 0 <= i < |visited| ==> |r.root| < |visited[i]|)
            && Listing(fe, fs, Reported(r.root, visited))
  {
    var visited := VisitAll(r, r.root, tree);
    VisitsOnce(r, r.root, tree);
    forall i | 0 <= i < |visited|
      ensures |r.root| < |visited[i]| && visited[i][..|r.root|] == r.root
      ensures var rel := visited[i][|r.root|..]; Clean(rel) && Split(Text(rel)) == rel && HasFile(tree, rel)
    {
      assert visited[i] in visited;
      VisitedHasRel(r, tree, visited[i]);
      FilesAreClean(tree, visited[i][|r.root|..]);
      SplitText(visited[i][|r.root|..]);
    }
    hide VisitAll, HasFile, Split, Text, CleanTree, DistinctNames, FromRules, FilesOf, Clean;
    ReportedOnce(r.root, visited);
    forall p
      ensures p in Reported(r.root, visited) <==> p in fs && fe.handles(p) && fe.reached(p)
      ensures p in Reported(r.root, visited) ==> p != ""
    {
      ReportedIff(fe, r, tree, fs, visited, p);
    }
  }

  lemma ReportedOnce(root: Path, visited: seq<Path>)
    requires Distinct(visited)
    requires forall i :: 0 <= i < |visited| ==> |root| < |visited[i]| && visited[i][..|root|] == root
    requires forall i :: 0 <= i < |visited| ==> Split(Text(visited[i][|root|..])) == visited[i][|root|..]
    ensures Distinct(Reported(root, visited))
  {
    hide Split, Text;
    var out := Reported(root, visited);
    forall i, j | 0 <= i < j < |out|
      ensures out[i] != out[j]
    {
      assert visited[i] == root + visited[i][|root|..] && visited[j] == root + visited[j][|root|..];
      assert Split(out[i]) == visited[i][|root|..] && Split(out[j]) == visited[j][|root|..];
    }
  }

  lemma {:induction false} ReportedIff(fe: Frontend, r: Rules, tree: seq<Node>, fs: Files, visited: seq<Path>,
                                       p: string)
    requires FromRules(fe, r) && FilesOf(tree, fs) && visited == VisitAll(r, r.root, tree)
    requires forall i :: 0 <= i < |visited| ==> |r.root| < |visited[i]|
    requires forall i :: 0 <= i < |visited| ==> Split(Text(visited[i][|r.root|..])) == visited[i][|r.root|..]
    requires forall i :: 0 <= i < |visited| ==> Clean(visited[i][|r.root|..])
    ensures p in Reported(r.root, visited) <==> p in fs && fe.handles(p) && fe.reached(p)
    ensures p in Reported(r.root, visited) ==> p != ""
  {
    hide VisitAll, HasFile, WayOpen, Split, Text;
    if p in Reported(r.root, visited) {
      var i :| 0 <= i < |visited| && Text(visited[i][|r.root|..]) == p;
      assert visited[i] in visited;
      VisitedHasRel(r, tree, visited[i]);
      EmptyIsNotClean(p);
    }
    if p in fs && fe.handles(p) && fe.reached(p) {
      WalkVisits(r, tree, Split(p));
      var i :| 0 <= i < |visited| && visited[i] == r.root + Split(p);
      assert visited[i][|r.root|..] == Split(p);
      TextSplit(p);
      assert Reported(r.root, visited)[i] == p;
    }
  }

  lemma {:induction false} EmptyIsNotClean(p: string)
    ensures Clean(Split(p)) ==> p != ""
  {
    assert Split("") == [""] && "" in Split("");
  }

  // ---- the hypotheses of the other modules ----

  /** The check up accepts a path exactly when the walk would get there and the root is enterable. */
  lemma AcceptedIff(fe: Frontend, r: Rules, p: string)
    requires FromRules(fe, r)
    ensures fe.accepted(p) <==> Enterable(r, r.root) && fe.reached(p)
  {
    var abs := r.root + Split(p);
    hide Split, Enterable;
    assert abs[..|r.root|] == r.root;
    assert Indexable(r, Split(p)) ==> Enterable(r, abs[..|r.root|]);
    forall k | |r.root| < k < |r.root| + |Split(p)|
      ensures Indexable(r, Split(p)) ==> !SkipDir(r, abs[..k])
      ensures WayOpen(r, r.root, Split(p)) ==> Enterable(r, abs[..k])
    {
      assert Indexable(r, Split(p)) ==> Enterable(r, abs[..k]);
      assert WayOpen(r, r.root, Split(p)) ==> !SkipDir(r, abs[..k]);
    }
  }

  /** A path is what leads up to its last element and that element. */
  lemma {:induction false} BaseIsLast(p: string) returns (front: string)
    ensures p == front + BaseOf(p) && '/' !in BaseOf(p)
    ensures front == "" || front[|front| - 1] == '/'
  {
    if p == "" {
      front := "";
    } else {
      var rest, c := p[..|p| - 1], p[|p| - 1];
      front := BaseIsLast(rest);
      assert p == rest + [c];
      SplitSnoc(rest, c);
      hide Split;
      if c == '/' {
        front := p;
      }
    }
  }

  /** A suffix without a slash is one of the last element. */
  lemma {:induction false} SuffixOfBase(p: string, e: string)
    requires '/' !in e
    ensures HasSuffix(Lower(p), Lower(e)) <==> HasSuffix(Lower(BaseOf(p)), Lower(e))
  {
    var front := BaseIsLast(p);
    var base := BaseOf(p);
    hide Lower, Split;
    LowerConcat(front, base);
    LowerKeeps(e);
    if HasSuffix(Lower(p), Lower(e)) && |e| > |base| {
      LongSuffixHasSlash(front, base, e);
    }
  }

  lemma {:induction false} LongSuffixHasSlash(front: string, base: string, e: string)
    requires front != "" && front[|front| - 1] == '/' && |e| > |base| && HasSuffix(Lower(front) + Lower(base), Lower(e))
    ensures '/' in Lower(e)
  {
    var s := Lower(front) + Lower(base);
    assert s[|front| - 1] == Lower(front)[|front| - 1] == '/';
    assert Lower(e)[|e| - |base| - 1] == s[|front| - 1];
  }

  /** The incremental build's suffix test is the walk's extension test for every path exactly when the list is plain. */
  lemma HandlesIsSuffixIff(fe: Frontend, r: Rules)
    requires FromRules(fe, r) && forall e :: e in r.exts ==> '/' !in e
    ensures (forall p :: fe.handles(p) <==> SomeSuffix(p, r.exts)) <==> Plain(r.exts)
  {
    TestsAgreeIffPlain(r.exts);
    hide Split, Plain, Lower, Ext;
    forall p
      ensures SomeSuffix(p, r.exts) <==> SomeSuffix(BaseOf(p), r.exts)
      ensures '/' !in BaseOf(p) && ('/' !in p ==> BaseOf(p) == p)
    {
      var front := BaseIsLast(p);
      SplitPlain(BaseOf(p));
      if '/' !in p {
        SplitPlain(p);
      }
      forall i | 0 <= i < |r.exts|
        ensures HasSuffix(Lower(p), Lower(r.exts[i])) <==> HasSuffix(Lower(BaseOf(p)), Lower(r.exts[i]))
      {
        SuffixOfBase(p, r.exts[i]);
      }
    }
  }

  /** For the Go frontend they are the same. */
  lemma GoFilesBothWays(fe: Frontend, r: Rules, p: string)
    requires FromRules(fe, r) && r.exts == [".go"]
    ensures fe.handles(p) <==> SomeSuffix(p, r.exts)
  {
    hide *;
    GoIsPlain();
    HandlesIsSuffixIff(fe, r);
  }

  lemma GoIsPlain()
    ensures Plain([".go"])
  {
    assert Ext(".go") == ".go";
  }

  /** Under these rules a frontend is lawful if its hash and its parser are. */
  lemma RulesAreLawful(fe: Frontend, r: Rules)
    requires FromRules(fe, r)
    requires forall a, b :: fe.hash(a) == fe.hash(b) ==> a == b
    requires forall a :: fe.hash(a) != ""
    requires forall rel, content :: fe.parse(rel, content).Some? ==> InRange(fe.parse(rel, content).value)
    ensures Lawful(fe)
  {
    hide FromRules;
    forall p | fe.accepted(p)
      ensures fe.reached(p)
    {
      AcceptedIff(fe, r, p);
    }
  }

  /** No directory on an open way has an excluded name. */
  lemma OpenWayIsClean(r: Rules, parts: seq<string>, i: nat)
    requires WayOpen(r, r.root, parts) && i < |parts| - 1
    ensures parts[i] !in EXCLUDED
  {
    assert !SkipDir(r, (r.root + parts)[..|r.root| + i + 1]);
  }

  /** The poller goes to an admitted path exactly when the root's own name is not excluded. */
  lemma AdmittedIsPolledIff(fe: Frontend, r: Rules, p: string)
    requires FromRules(fe, r) && Admitted(fe, p)
    ensures Polled(r.root, p) <==> NotSkipped(r.root)
  {
    var parts := Split(p);
    assert WayOpen(r, r.root, parts);
    hide Split, WayOpen;
    forall i | 0 <= i < |parts| - 1
      ensures parts[i] !in EXCLUDED
    {
      OpenWayIsClean(r, parts, i);
    }
  }

  /** Where the workspace rule is off, the poller goes where the walk goes, unless the root has an excluded name. */
  lemma {:induction false} PolledIffOpen(r: Rules, p: string)
    requires !r.ws.isWorkspace || r.rootIsWorkspaceRoot
    ensures Polled(r.root, p) <==>
            && WayOpen(r, r.root, Split(p))
            && (r.root == [] || r.root[|r.root| - 1] !in [".git", ".mekami", "node_modules", "vendor", "_dev"])
  {
    var parts := Split(p);
    hide Split;
    forall k | |r.root| < k < |r.root| + |parts|
      ensures SkipDir(r, (r.root + parts)[..k]) <==> parts[k - |r.root| - 1] in EXCLUDED
    {
      assert (r.root + parts)[..k][k - 1] == parts[k - |r.root| - 1];
    }
    forall i | 0 <= i < |parts| - 1
      ensures parts[i] in EXCLUDED <==> SkipDir(r, (r.root + parts)[..|r.root| + i + 1])
    {
      var k := |r.root| + i + 1;
      assert SkipDir(r, (r.root + parts)[..k]) <==> parts[k - |r.root| - 1] in EXCLUDED;
    }
  }

  /** The filter passes an admitted path exactly when its base name ends in .go, is no test and is not ignored. */
  lemma AdmittedIsPassedIff(fe: Frontend, r: Rules, ignore: Ignore, p: string)
    requires FromRules(fe, r) && Admitted(fe, p) && r.exts == [".go"]
    ensures var base := BaseOf(p);
            Accept(ignore, p) <==> HasSuffix(base, ".go") && !HasSuffix(base, "_test.go") && !ignore(base)
  {
    var parts, base := Split(p), BaseOf(p);
    assert WayOpen(r, r.root, parts) && Listed(base, r.exts);
    ListedIsNoOther(base);
    EmptyPath(p);
    hide Split, WayOpen;
    forall i | 0 <= i < |parts| - 1
      ensures parts[i] !in EXCLUDED
    {
      OpenWayIsClean(r, parts, i);
    }
    assert Base(parts) == base;
  }

  /** What the filter lets through, element by element. */
  lemma {:induction false} AcceptIff(ignore: Ignore, parts: seq<string>)
    requires Clean(parts)
    ensures var base := parts[|parts| - 1];
            Accept(ignore, Text(parts)) <==>
            && (forall part :: part in parts ==> part !in [".git", ".mekami", "node_modules", "vendor", "_dev"])
            && (base in ["go.mod", "go.work", "go.sum"] || (HasSuffix(base, ".go") && !HasSuffix(base, "_test.go")))
            && !ignore(base)
  {
    SplitText(parts);
    assert parts[|parts| - 1] in parts && parts[0] in parts;
    hide Split;
    assert Base(parts) == parts[|parts| - 1];
    forall part | part in parts
      ensures part != "" && (part in EXCLUDED <==> part in [".git", ".mekami", "node_modules", "vendor", "_dev"])
    {
    }
  }

  // ---- paths that climb ----

  lemma NoSlash(x: string)
    requires '/' !in x
    ensures forall i :: 0 <= i < |x| ==> x[i] != '/' && x[i..][0] != '/'
  {
  }

  lemma InPrefix(p: string, x: string, c: char)
    requires p <= x && c in p
    ensures c in x
  {
    var k :| 0 <= k < |p| && p[k] == c;
    assert x[k] == c;
  }

  lemma NotUp(x: string)
    requires '/' !in x
    ensures !("../" <= x)
  {
    assert "../"[2] == '/';
    if "../" <= x {
      InPrefix("../", x, '/');
    }
  }

  lemma UpElement(x: string, rest: string)
    requires '/' !in x
    ensures "../" <= x + "/" + rest <==> x == ".."
  {
    var t := x + "/" + rest;
    if "../" <= t {
      assert t == ".." + "/" + t[3..];
      FirstElement("..", x, t[3..], rest);
    }
    if x == ".." {
      assert t == "../" + rest;
    }
  }

  lemma {:induction false} StartsUp(parts: seq<string>)
    requires Clean(parts)
    ensures "../" <= Text(parts) <==> |parts| > 1 && parts[0] == ".."
  {
    var x := parts[0];
    assert x in parts;
    if |parts| == 1 {
      NotUp(x);
    } else {
      UpElement(x, Text(parts[1..]));
    }
  }

  ghost predicate Climbs(p: string) {
    exists i :: 0 <= i < |p| && ClimbsAt(p, i)
  }

  lemma ClimbsInRest(x: string, rest: string)
    requires '/' !in x
    ensures Climbs(x + "/" + rest) <==> "../" <= rest || Climbs(rest)
  {
    var p := x + "/" + rest;
    NoSlash(x);
    assert p[|x|] == '/' && p[|x| + 1..] == rest && p[|x|..] == "/" + rest;
    assert forall i :: 0 <= i < |x| ==> p[i] == x[i];
    if i :| 0 <= i < |p| && ClimbsAt(p, i) {
      assert p[i] == p[i..][0] == '/';
      if i == |x| {
        assert rest == p[i..][1..];
      } else {
        assert p[i..] == rest[i - |x| - 1..] && ClimbsAt(rest, i - |x| - 1);
      }
    }
    if "../" <= rest {
      assert ClimbsAt(p, |x|);
    }
    if j :| 0 <= j < |rest| && ClimbsAt(rest, j) {
      assert p[|x| + 1 + j..] == rest[j..] && ClimbsAt(p, |x| + 1 + j);
    }
  }

  lemma {:induction false} ClimbsIff(parts: seq<string>)
    requires Clean(parts)
    ensures Climbs(Text(parts)) <==> exists k :: 0 < k < |parts| - 1 && parts[k] == ".."
  {
    var x := parts[0];
    assert x in parts;
    NoSlash(x);
    if |parts| > 1 {
      var rest := parts[1..];
      CleanRest(parts);
      ClimbsIff(rest);
      StartsUp(rest);
      ClimbsInRest(x, Text(rest));
      hide Climbs;
      assert Text(parts) == x + "/" + Text(rest);
      assert forall k :: 0 < k < |parts| ==> parts[k] == rest[k - 1];
      if k :| 0 < k < |rest| - 1 && rest[k] == ".." {
        assert parts[k + 1] == "..";
      }
      if |rest| > 1 && rest[0] == ".." {
        assert parts[1] == "..";
      }
    }
  }

  /** A path is taken to climb out exactly when one of its elements but the last is "..". */
  lemma {:induction false} EscapesIff(parts: seq<string>)
    requires Clean(parts)
    ensures Escapes(Text(parts)) <==> exists k :: 0 <= k < |parts| - 1 && parts[k] == ".."
  {
    StartsUp(parts);
    ClimbsIff(parts);
    hide Text;
    assert Escapes(Text(parts)) <==> "../" <= Text(parts) || Climbs(Text(parts));
  }

  lemma EmptyPath(p: string)
    ensures p == "" ==> BaseOf(p) == ""
  {
  }

  /** A name with the extension .go is neither an excluded directory name nor a structural file. */
  lemma ListedIsNoOther(base: string)
    requires Listed(base, [".go"])
    ensures base !in EXCLUDED && base !in STRUCTURAL && base != ""
  {
    ExtIsSuffix(base);
    hide Ext;
    assert Lower(Ext(base)) == Lower(".go");
    var e := Ext(base);
    assert |e| == 3;
    LowerAt(e, ".go", 2);
    LowerAt(e, ".go", 1);
    assert base[|base| - 1] == e[2] && base[|base| - 2] == e[1];
  }

  lemma {:induction false} LowerAt(s: string, t: string, i: nat)
    requires Lower(s) == Lower(t) && i < |s|
    ensures |s| == |t| && LowerChar(s[i]) == LowerChar(t[i])
  {
    var f, g := s[..|s| - 1], t[..|t| - 1];
    assert Lower(s) == Lower(f) + [LowerChar(s[|s| - 1])];
    assert Lower(t) == Lower(g) + [LowerChar(t[|t| - 1])];
    assert Lower(s)[..|s| - 1] == Lower(f) && Lower(t)[..|t| - 1] == Lower(g);
    assert Lower(s)[|s| - 1] == LowerChar(s[|s| - 1]) && Lower(t)[|t| - 1] == LowerChar(t[|t| - 1]);
    if i < |s| - 1 {
      LowerAt(f, g, i);
    }
  }

  lemma UpperCaseIsListed()
    ensures Listed("A.GO", [".go"])
  {
    assert Ext("A.GO") == ".GO";
    assert Lower(".GO") == Lower(".go") && Lower(".go") in LowerSet([".go"]);
  }

  /** An upper-case extension is walked and indexed, and its changes are filtered out. */
  lemma UpperCaseIsMissed(ignore: Ignore)
    ensures Listed("A.GO", [".go"]) && !Accept(ignore, "A.GO")
  {
    UpperCaseIsListed();
    hide Listed, Split, Base;
    SplitPlain("A.GO");
    BaseOfOne("A.GO");
    assert "A.GO"[3] != ".go"[2];
  }

  lemma BaseOfOne(name: string)
    requires name != ""
    ensures Base([name]) == name
  {
  }

  /**
     From a tick of the poller to the batches, with the filter in between,
     for a frontend of these rules that takes only names the filter passes.
   */
  lemma {:induction false} FilteredTickDelivers(fe: Frontend, r: Rules, ignore: Ignore, fs: Files, fs': Files,
                                                out: seq<Event>, buffered: nat, steps: seq<Wakeup.Step>,
                                                batches: seq<seq<Event>>)
    requires FromRules(fe, r) && r.exts == [".go"]
    requires forall p :: fe.indexable(p) ==>
               HasSuffix(BaseOf(p), ".go") && !HasSuffix(BaseOf(p), "_test.go") && !ignore(BaseOf(p))
    requires var prev, cur := TakeSnapshot(r.root, fs), TakeSnapshot(r.root, fs');
             Emitted(prev, cur, Differing(prev, cur), out, 0)
    requires Wakeup.IsRun(buffered, Wakeup.START, steps)
    requires forall e :: e in out && Accept(ignore, e.path) ==> e in Wakeup.AcceptedBy(steps)
    requires var st, h := Wakeup.After(buffered, Wakeup.START, steps),
                          Wakeup.HistoryOf(buffered, Wakeup.START, Wakeup.NOTHING, steps);
             Wakeup.AllHandled(st, h) && Watcher.BatchesOf(Wakeup.Handled(st, h), batches)
    ensures Watcher.Delivered(fe, r.root, fs, fs', batches)
  {
    hide *;
    forall p | Admitted(fe, p)
      ensures Accept(ignore, p)
    {
      AdmittedIsPassedIff(fe, r, ignore, p);
      AdmittedIsIndexable(fe, p);
    }
    Watcher.TickDelivers(fe, r.root, fs, fs', out, p => Accept(ignore, p), buffered, steps, batches);
  }

  lemma AdmittedIsIndexable(fe: Frontend, p: string)
    requires Admitted(fe, p)
    ensures fe.indexable(p)
  {
  }
}
