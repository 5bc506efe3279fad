/** Which files a build sees: the walk down from the root, and the check up from a single path. */
module Walk {
  import opened Prelude
  import opened Extensions

  /** An absolute path, as its elements from the file system's root. */
  type Path = seq<string>

  datatype Node = File(name: string) | Dir(name: string, children: seq<Node>)

  datatype Workspace = Workspace(isWorkspace: bool, mods: set<Path>)

  datatype Rules = Rules(root: Path, ws: Workspace, rootIsWorkspaceRoot: bool, exts: seq<string>)

  const EXCLUDED: set<string> := {".git", ".mekami", "node_modules", "vendor", "_dev"}

  predicate IsModuleRoot(ws: Workspace, dir: Path) {
    ws.isWorkspace && dir in ws.mods
  }

  /** Neither an excluded name nor, outside a workspace-root build, the root of a workspace module. */
  predicate Enterable(r: Rules, dir: Path) {
    && (dir == [] || dir[|dir| - 1] !in EXCLUDED)
    && !(r.ws.isWorkspace && !r.rootIsWorkspaceRoot && IsModuleRoot(r.ws, dir))
  }

  // ---- up from a path ----

  /** Every directory from the root down to the file's own is enterable. */
  ghost predicate Indexable(r: Rules, rel: seq<string>) {
    forall k :: |r.root| <= k < |r.root| + |rel| ==> Enterable(r, (r.root + rel)[..k])
  }

  method IsIndexablePath(r: Rules, rel: seq<string>) returns (ok: bool)
    requires rel != []
    ensures ok <==> Indexable(r, rel)
  {
    var abs := r.root + rel;
    var cur := abs[..|abs| - 1];
    while true
      invariant |r.root| <= |cur| < |abs| && cur == abs[..|cur|]
      invariant forall k :: |cur| < k < |abs| ==> Enterable(r, abs[..k])
      decreases |cur|
    {
      if cur != [] && cur[|cur| - 1] in EXCLUDED {
        assert !Enterable(r, abs[..|cur|]);
        return false;
      }
      if r.ws.isWorkspace && !r.rootIsWorkspaceRoot {
        if IsModuleRoot(r.ws, cur) {
          assert !Enterable(r, abs[..|cur|]);
          return false;
        }
      }
      assert Enterable(r, abs[..|cur|]);
      if cur == r.root || cur == [] {
        return true;
      }
      cur := cur[..|cur| - 1];
    }
  }

  // ---- down from the root ----

  /** The walk turns back here; the root itself is never tested. */
  predicate SkipDir(r: Rules, dir: Path) {
    dir != r.root && !Enterable(r, dir)
  }

  function VisitNode(r: Rules, dir: Path, n: Node): seq<Path>
    decreases n
  {
    match n
    case File(name) => if Listed(name, r.exts) then [dir + [name]] else []
    case Dir(name, children) => if SkipDir(r, dir + [name]) then [] else VisitAll(r, dir + [name], children)
  }

  function VisitAll(r: Rules, dir: Path, nodes: seq<Node>): seq<Path>
    decreases nodes
  {
    if nodes == [] then [] else VisitAll(r, dir, nodes[..|nodes| - 1]) + VisitNode(r, dir, nodes[|nodes| - 1])
  }

  /** The callback walk over one directory's entries. */
  method AnyFile(r: Rules, listed: set<string>, dir: Path, nodes: seq<Node>) returns (visited: seq<Path>)
    requires listed == LowerSet(r.exts)
    ensures visited == VisitAll(r, dir, nodes)
    decreases nodes
  {
    visited := [];
    for i := 0 to |nodes|
      invariant visited == VisitAll(r, dir, nodes[..i])
    {
      assert nodes[..i + 1][..i] == nodes[..i];
      match nodes[i] {
        case Dir(name, children) =>
          var path := dir + [name];
          if path != r.root {
            if name in EXCLUDED {
              continue;
            }
            if r.ws.isWorkspace && !r.rootIsWorkspaceRoot && IsModuleRoot(r.ws, path) {
              continue;
            }
          }
          var below := AnyFile(r, listed, path, children);
          visited := visited + below;
        case File(name) =>
          if Lower(Ext(name)) in listed {
            visited := visited + [dir + [name]];
          }
      }
    }
    assert nodes[..|nodes|] == nodes;
  }

  method MatchingFiles(r: Rules, tree: seq<Node>) returns (visited: seq<Path>)
    ensures visited == VisitAll(r, r.root, tree)
  {
    var listed := ExtSet(r.exts);
    visited := AnyFile(r, listed, r.root, tree);
  }

  /** The tree holds a file at this relative path. */
  ghost predicate HasFile(nodes: seq<Node>, rel: seq<string>)
    decreases |rel|
  {
    rel != [] &&
    if |rel| == 1 then File(rel[0]) in nodes
    else exists children :: Dir(rel[0], children) in nodes && HasFile(children, rel[1..])
  }

  /** The walk can get to the file, directory by directory. */
  ghost predicate Reach(r: Rules, dir: Path, nodes: seq<Node>, rel: seq<string>)
    decreases |rel|
  {
    rel != [] &&
    if |rel| == 1 then File(rel[0]) in nodes && Listed(rel[0], r.exts)
    else
      && !SkipDir(r, dir + [rel[0]])
      && exists children :: Dir(rel[0], children) in nodes && Reach(r, dir + [rel[0]], children, rel[1..])
  }

  lemma {:induction false} VisitedByNode(r: Rules, dir: Path, nodes: seq<Node>, p: Path)
    ensures p in VisitAll(r, dir, nodes) <==> exists i :: 0 <= i < |nodes| && p in VisitNode(r, dir, nodes[i])
  {
    if nodes != [] {
      var front := nodes[..|nodes| - 1];
      VisitedByNode(r, dir, front, p);
      assert forall i :: 0 <= i < |front| ==> front[i] == nodes[i];
    }
  }

  lemma {:induction false} VisitedIsReached(r: Rules, dir: Path, nodes: seq<Node>, rel: seq<string>)
    ensures dir + rel in VisitAll(r, dir, nodes) ==> Reach(r, dir, nodes, rel)
    decreases |rel|
  {
    if dir + rel in VisitAll(r, dir, nodes) {
      VisitedByNode(r, dir, nodes, dir + rel);
      var i :| 0 <= i < |nodes| && dir + rel in VisitNode(r, dir, nodes[i]);
      match nodes[i]
      case File(name) =>
        assert rel == (dir + rel)[|dir|..] == [name];
      case Dir(name, children) =>
        BelowDir(r, dir + [name], children, dir + rel);
        assert rel[0] == (dir + rel)[|dir|] == name;
        assert dir + rel == (dir + [name]) + rel[1..];
        VisitedIsReached(r, dir + [name], children, rel[1..]);
    }
  }

  /** Everything visited below a directory is strictly below it. */
  lemma {:induction false} BelowDir(r: Rules, dir: Path, nodes: seq<Node>, p: Path)
    requires p in VisitAll(r, dir, nodes)
    ensures |p| > |dir| && p[..|dir|] == dir
    decreases nodes
  {
    VisitedByNode(r, dir, nodes, p);
    var i :| 0 <= i < |nodes| && p in VisitNode(r, dir, nodes[i]);
    if nodes[i].Dir? {
      BelowDir(r, dir + [nodes[i].name], nodes[i].children, p);
      assert p[..|dir|] == p[..|dir| + 1][..|dir|];
    }
  }

  lemma {:induction false} ReachedIsVisited(r: Rules, dir: Path, nodes: seq<Node>, rel: seq<string>)
    requires Reach(r, dir, nodes, rel)
    ensures dir + rel in VisitAll(r, dir, nodes)
    decreases |rel|
  {
    var i: nat;
    if |rel| == 1 {
      i :| 0 <= i < |nodes| && nodes[i] == File(rel[0]);
      assert dir + rel == dir + [rel[0]];
    } else {
      var children :| Dir(rel[0], children) in nodes && Reach(r, dir + [rel[0]], children, rel[1..]);
      i :| 0 <= i < |nodes| && nodes[i] == Dir(rel[0], children);
      ReachedIsVisited(r, dir + [rel[0]], children, rel[1..]);
      assert dir + rel == (dir + [rel[0]]) + rel[1..];
    }
    assert dir + rel in VisitNode(r, dir, nodes[i]);
    VisitedByNode(r, dir, nodes, dir + rel);
  }

  /** No directory strictly between dir and the file makes the walk turn back. */
  ghost predicate WayOpen(r: Rules, dir: Path, rel: seq<string>) {
    forall k :: |dir| < k < |dir| + |rel| ==> !SkipDir(r, (dir + rel)[..k])
  }

  lemma {:induction false} ReachIsOpenWay(r: Rules, dir: Path, nodes: seq<Node>, rel: seq<string>)
    ensures Reach(r, dir, nodes, rel) <==>
            HasFile(nodes, rel) && Listed(rel[|rel| - 1], r.exts) && WayOpen(r, dir, rel)
    decreases |rel|
  {
    if |rel| > 1 {
      var next, rest := dir + [rel[0]], rel[1..];
      assert dir + rel == next + rest;
      assert (dir + rel)[..|dir| + 1] == next;
      assert WayOpen(r, dir, rel) <==> !SkipDir(r, next) && WayOpen(r, next, rest);
      forall children
        ensures Reach(r, next, children, rest) <==>
                HasFile(children, rest) && Listed(rest[|rest| - 1], r.exts) && WayOpen(r, next, rest)
      {
        ReachIsOpenWay(r, next, children, rest);
      }
      assert rest[|rest| - 1] == rel[|rel| - 1];
    }
  }

  /** The walk visits exactly the files with a listed extension whose directories it may enter. */
  lemma {:induction false} WalkVisits(r: Rules, tree: seq<Node>, rel: seq<string>)
    ensures r.root + rel in VisitAll(r, r.root, tree) <==>
            HasFile(tree, rel) && Listed(rel[|rel| - 1], r.exts) && WayOpen(r, r.root, rel)
  {
    hide VisitAll, Reach, WayOpen, HasFile;
    VisitedIsReached(r, r.root, tree, rel);
    if Reach(r, r.root, tree, rel) {
      ReachedIsVisited(r, r.root, tree, rel);
    }
    ReachIsOpenWay(r, r.root, tree, rel);
  }

  // ---- the two against each other ----

  /**
     For a file of the tree the check up accepts it exactly when
     the walk down visits it and the root itself is enterable.
  */
  lemma {:induction false} UpwardIsDownward(r: Rules, tree: seq<Node>, rel: seq<string>)
    requires HasFile(tree, rel) && Listed(rel[|rel| - 1], r.exts)
    ensures Indexable(r, rel) <==> Enterable(r, r.root) && r.root + rel in VisitAll(r, r.root, tree)
  {
    WalkVisits(r, tree, rel);
    assert rel != [];
    hide VisitAll, HasFile, Enterable;
    assert (r.root + rel)[..|r.root|] == r.root;
    if Enterable(r, r.root) && WayOpen(r, r.root, rel) {
      forall k | |r.root| <= k < |r.root| + |rel|
        ensures Enterable(r, (r.root + rel)[..k])
      {
        if k > |r.root| {
          assert !SkipDir(r, (r.root + rel)[..k]);
        }
      }
    }
  }

  /** In a build of one workspace module the check refuses every path, whatever the walk visits. */
  lemma ModuleRootRefusesAll(r: Rules, rel: seq<string>)
    requires r.ws.isWorkspace && !r.rootIsWorkspaceRoot && r.root in r.ws.mods && rel != []
    ensures !Indexable(r, rel)
  {
    assert (r.root + rel)[..|r.root|] == r.root;
  }

  /** And this happens: a file the walk visits and the check refuses. */
  lemma VisitedYetRefused() returns (r: Rules, tree: seq<Node>, rel: seq<string>)
    ensures r.root + rel in VisitAll(r, r.root, tree) && !Indexable(r, rel)
  {
    r, rel := Rules(["ws", "app"], Workspace(true, {["ws", "app"]}), false, [".go"]), ["main.go"];
    tree := [File("main.go")];
    ModuleRootRefusesAll(r, rel);
    assert Ext("main.go") == ".go";
    assert Lower(".go") in LowerSet(r.exts);
    WalkVisits(r, tree, rel);
  }

  // ---- once each ----

  ghost predicate DistinctNames(nodes: seq<Node>)
    decreases nodes
  {
    && (forall i, j :: 0 <= i < j < |nodes| ==> nodes[i].name != nodes[j].name)
    && (forall i :: 0 <= i < |nodes| && nodes[i].Dir? ==> DistinctNames(nodes[i].children))
  }

  /** In a tree without two entries of one name no file is visited twice. */
  lemma {:induction false} VisitsOnce(r: Rules, dir: Path, nodes: seq<Node>)
    requires DistinctNames(nodes)
    ensures Distinct(VisitAll(r, dir, nodes))
    decreases nodes
  {
    if nodes != [] {
      var front, last := nodes[..|nodes| - 1], nodes[|nodes| - 1];
      assert DistinctNames(front) by { assert forall i :: 0 <= i < |front| ==> front[i] == nodes[i]; }
      VisitsOnce(r, dir, front);
      if last.Dir? {
        VisitsOnce(r, dir + [last.name], last.children);
      }
      assert Distinct(VisitNode(r, dir, last));
      forall p | p in VisitAll(r, dir, front)
        ensures p !in VisitNode(r, dir, last)
      {
        VisitedByNode(r, dir, front, p);
        var i :| 0 <= i < |front| && p in VisitNode(r, dir, front[i]);
        NamedAfter(r, dir, nodes[i], p);
        if p in VisitNode(r, dir, last) {
          NamedAfter(r, dir, last, p);
        }
      }
      DistinctConcat(VisitAll(r, dir, front), VisitNode(r, dir, last));
    }
  }

  /** What a node visits carries its name right below the directory. */
  lemma {:induction false} NamedAfter(r: Rules, dir: Path, n: Node, p: Path)
    requires p in VisitNode(r, dir, n)
    ensures |p| > |dir| && p[|dir|] == n.name
  {
    if n.Dir? {
      BelowDir(r, dir + [n.name], n.children, p);
      assert p[|dir|] == p[..|dir| + 1][|dir|];
    }
  }
}
