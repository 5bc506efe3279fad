/** File trees as values: counting their file leaves and cutting them after the first few. */
module Trimming {
  import opened Prelude

  /** One row of the files table, its path split at the slashes. */
  datatype Row = Row(parts: seq<string>, size: int, lang: string)

  datatype Tree = File(row: Row) | Dir(path: seq<string>, children: seq<Tree>)

  /** The files of a tree in pre-order. */
  ghost function Leaves(t: Tree): seq<Row>
    decreases t
  {
    match t
    case File(row) => [row]
    case Dir(_, children) => LeavesOf(children)
  }

  ghost function LeavesOf(ts: seq<Tree>): seq<Row>
    decreases ts
  {
    if ts == [] then [] else LeavesOf(ts[..|ts| - 1]) + Leaves(ts[|ts| - 1])
  }

  lemma {:induction false} LeavesSplit(ts: seq<Tree>, us: seq<Tree>)
    ensures LeavesOf(ts + us) == LeavesOf(ts) + LeavesOf(us)
  {
    if us == [] {
      assert ts + us == ts;
    } else {
      LeavesSplit(ts, us[..|us| - 1]);
      assert (ts + us)[..|ts + us| - 1] == ts + us[..|us| - 1];
    }
  }

  method CountFileLeaves(t: Tree) returns (n: nat)
    ensures n == |Leaves(t)|
    decreases t
  {
    match t {
      case File(_) =>
        n := 1;
      case Dir(_, children) =>
        n := 0;
        for i := 0 to |children|
          invariant n == |LeavesOf(children[..i])|
        {
          assert children[..i + 1][..i] == children[..i];
          var below := CountFileLeaves(children[i]);
          n := n + below;
        }
        assert children[..|children|] == children;
    }
  }

  /**
     a is b cut off after some point in pre-order: equal,
     or a prefix of the children, the last of them cut off itself.
  */
  ghost predicate CutOff(a: Tree, b: Tree)
    decreases a
  {
    a == b ||
    (a.Dir? && b.Dir? && a.path == b.path && |a.children| <= |b.children|
     && (forall i :: 0 <= i < |a.children| - 1 ==> a.children[i] == b.children[i])
     && (a.children != [] ==> CutOff(a.children[|a.children| - 1], b.children[|a.children| - 1])))
  }

  /**
     The first max files in pre-order with their directories;
     a cap of zero or less, or one not reached, changes nothing.
  */
  method TrimFileTree(t: Tree, max: int) returns (r: Tree)
    ensures max <= 0 || |Leaves(t)| <= max ==> r == t
    ensures max > 0 ==> Leaves(r) == Leaves(t)[..Min(max, |Leaves(t)|)]
    ensures CutOff(r, t)
    decreases t
  {
    if max <= 0 {
      return t;
    }
    var total := CountFileLeaves(t);
    if total <= max {
      return t;
    }
    assert t.Dir?;
    hide *;
    NothingKept(t);
    var children: seq<Tree> := [];
    var kept := 0;
    var i := 0;
    while i < |t.children| && kept < max
      invariant 0 <= i <= |t.children| && |children| == i
      invariant kept == |LeavesOf(children)| <= max
      invariant LeavesOf(children) == LeavesOf(t.children)[..Min(kept, |LeavesOf(t.children)|)]
      invariant kept < max ==> children == t.children[..i]
      invariant CutOff(Dir(t.path, children), t)
    {
      var child := TrimFileTree(t.children[i], max - kept);
      assert kept < max && children == t.children[..i];
      ghost var before := children;
      children := children + [child];
      TrimStep(t, i, child, max - kept);
      var n := CountFileLeaves(child);
      assert children[..i] == before;
      kept := kept + n;
      i := i + 1;
    }
    assert t.children[..|t.children|] == t.children;
    assert kept == max;
    r := Dir(t.path, children);
    DirLeaves(t.path, children);
  }

  lemma {:induction false} DirLeaves(path: seq<string>, children: seq<Tree>)
    ensures Leaves(Dir(path, children)) == LeavesOf(children)
  {
  }

  lemma {:induction false} NothingKept(t: Tree)
    requires t.Dir?
    ensures CutOff(Dir(t.path, []), t) && LeavesOf([]) == [] && Leaves(t) == LeavesOf(t.children)
  {
  }

  lemma {:induction false} TrimStep(t: Tree, i: nat, child: Tree, room: nat)
    requires t.Dir? && i < |t.children| && room > 0 && CutOff(child, t.children[i])
    requires Leaves(child) == Leaves(t.children[i])[..Min(room, |Leaves(t.children[i])|)]
    requires |Leaves(t.children[i])| <= room ==> child == t.children[i]
    ensures var children := t.children[..i] + [child];
            && LeavesOf(children) == LeavesOf(t.children[..i]) + Leaves(child)
            && LeavesOf(children) <= LeavesOf(t.children)
            && (|Leaves(child)| < room ==> children == t.children[..i + 1])
            && CutOff(Dir(t.path, children), t)
  {
    var before, all := t.children[..i], t.children;
    assert (before + [child])[..i] == before;
    assert all == (before + [all[i]]) + all[i + 1..];
    LeavesSplit(before + [all[i]], all[i + 1..]);
    assert (before + [all[i]])[..i] == before;
    assert before + [all[i]] == all[..i + 1];
  }
}
