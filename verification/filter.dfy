/** The watcher's path filter, next to what the walk does with the same path. */
module Filtering {
  import opened Extensions
  import opened Walk

  const STRUCTURAL: set<string> := {"go.mod", "go.work", "go.sum"}

  /** The elements of a path written with slashes. */
  function Split(rel: string): (parts: seq<string>)
    ensures parts != []
  {
    if rel == "" then [""]
    else
      var front, c := Split(rel[..|rel| - 1]), rel[|rel| - 1];
      if c == '/' then front + [""] else front[..|front| - 1] + [front[|front| - 1] + [c]]
  }

  lemma {:induction false} ElementsHaveNoSlash(rel: string)
    ensures forall part :: part in Split(rel) ==> '/' !in part
  {
    if rel != "" {
      var front := Split(rel[..|rel| - 1]);
      ElementsHaveNoSlash(rel[..|rel| - 1]);
      assert front[|front| - 1] in front;
    }
  }

  /** The last element, whatever slashes follow it. */
  function Base(parts: seq<string>): string {
    if parts == [] then "/" else if parts[|parts| - 1] != "" then parts[|parts| - 1] else Base(parts[..|parts| - 1])
  }

  /** The user's patterns, as a test on the base name. */
  type Ignore = string -> bool

  /** A relative path is passed on when no element is excluded and its base is structural or an indexable Go file. */
  predicate Accept(ignore: Ignore, rel: string) {
    var parts := Split(rel);
    var base := Base(parts);
    && rel != ""
    && (forall part :: part in parts && part != "" ==> part !in EXCLUDED)
    && (base in STRUCTURAL || (HasSuffix(base, ".go") && !HasSuffix(base, "_test.go")))
    && !ignore(base)
  }

  lemma {:induction false} GoExt(base: string)
    requires HasSuffix(base, ".go") && '/' !in base
    ensures Ext(base) == ".go"
  {
    var front := base[..|base| - 3];
    ExtOfSuffix(front, ".go");
    assert base == front + ".go";
    assert ".go" == "." + "go";
    ExtOfWhole("go");
  }

  /**
     Where the workspace rule is off, the filter passes exactly
     the Go files the walk can visit, less tests and ignored names.
  */
  lemma {:induction false} AcceptsWhatIsWalked(ignore: Ignore, r: Rules, tree: seq<Node>, rel: string)
    requires rel != "" && r.exts == [".go"] && (!r.ws.isWorkspace || r.rootIsWorkspaceRoot)
    requires forall part :: part in Split(rel) ==> part != ""
    requires HasFile(tree, Split(rel)) && HasSuffix(Split(rel)[|Split(rel)| - 1], ".go")
    ensures var base := Split(rel)[|Split(rel)| - 1];
            Accept(ignore, rel) <==>
            r.root + Split(rel) in VisitAll(r, r.root, tree) && !HasSuffix(base, "_test.go") && !ignore(base)
  {
    var parts := Split(rel);
    var base := parts[|parts| - 1];
    ElementsHaveNoSlash(rel);
    hide Split, VisitAll, HasFile;
    assert base in parts;
    GoExt(base);
    NotExcluded(base);
    LowerSnoc("", 'g');
    assert Listed(base, r.exts);
    WalkVisits(r, tree, parts);
    assert base !in STRUCTURAL by { NotStructural(base); }
    OpenIffClean(r, parts);
  }

  lemma NotExcluded(base: string)
    requires HasSuffix(base, ".go")
    ensures base !in EXCLUDED
  {
  }

  lemma NotStructural(base: string)
    requires HasSuffix(base, ".go")
    ensures base !in STRUCTURAL
  {
  }

  /** With no workspace rule the way is open exactly when no directory on it has an excluded name. */
  lemma OpenIffClean(r: Rules, parts: seq<string>)
    requires (!r.ws.isWorkspace || r.rootIsWorkspaceRoot) && parts != [] && parts[|parts| - 1] !in EXCLUDED
    ensures WayOpen(r, r.root, parts) <==> forall part :: part in parts ==> part !in EXCLUDED
  {
    if WayOpen(r, r.root, parts) {
      forall i | 0 <= i < |parts| - 1
        ensures parts[i] !in EXCLUDED
      {
        assert !SkipDir(r, (r.root + parts)[..|r.root| + i + 1]);
      }
    } else {
      var k :| |r.root| < k < |r.root| + |parts| && SkipDir(r, (r.root + parts)[..k]);
      assert parts[k - |r.root| - 1] in parts;
    }
  }
}
