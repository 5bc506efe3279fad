/** The file tree built from sorted paths: nodes updated in place, found again through a map of directories. */
module FileTrees {
  import opened Prelude
  import opened Ordering
  import opened Extensions
  import opened PathText
  import opened Trimming

  // ---- directory listings ----

  datatype Child = FileChild(row: Row) | DirChild(name: string)

  /** What every directory holds, in order of arrival. */
  type Listing = map<seq<string>, seq<Child>>

  /** Walks the elements of a path from the i-th on, making directories where they are missing, and adds the file. */
  ghost function Insert(l: Listing, row: Row, i: nat): Listing
    requires i < |row.parts| && row.parts[..i] in l
    decreases |row.parts| - i
  {
    var d, d' := row.parts[..i], row.parts[..i + 1];
    if i == |row.parts| - 1 then l[d := l[d] + [FileChild(row)]]
    else if d' in l then Insert(l, row, i + 1)
    else Insert(l[d := l[d] + [DirChild(row.parts[i])]][d' := []], row, i + 1)
  }

  /** The files below a directory in pre-order, to a depth of n directories more. */
  ghost function RowsOf(l: Listing, d: seq<string>, children: seq<Child>, n: nat): seq<Row>
    decreases n, |children|
  {
    if children == [] then []
    else RowsOf(l, d, children[..|children| - 1], n) + ChildRows(l, d, children[|children| - 1], n)
  }

  ghost function ChildRows(l: Listing, d: seq<string>, child: Child, n: nat): seq<Row>
    decreases n, 0
  {
    match child
    case FileChild(row) => [row]
    case DirChild(name) => if n == 0 || d + [name] !in l then [] else RowsOf(l, d + [name], l[d + [name]], n - 1)
  }

  /** How many directory entries of one name a list has. */
  ghost function DirCount(children: seq<Child>, name: string): nat {
    multiset(children)[DirChild(name)]
  }

  /** Every directory but the root is listed once, in its parent, and everything listed is there. */
  ghost predicate Good(l: Listing) {
    && [] in l
    && (forall d, name {:trigger DirCount(l[d], name)} :: d in l ==>
         DirCount(l[d], name) == if d + [name] in l then 1 else 0)
    && (forall d :: d in l && d != [] ==> d[..|d| - 1] in l)
  }

  /** The directories on the way to the row that are already there are each the last entry of their parent. */
  ghost predicate OnSpine(l: Listing, parts: seq<string>, i: nat) {
    forall j {:trigger SpineAt(l, parts, j)} :: i <= j < |parts| - 1 ==> SpineAt(l, parts, j)
  }

  ghost predicate SpineAt(l: Listing, parts: seq<string>, j: nat)
    requires j < |parts|
  {
    parts[..j + 1] in l ==>
      parts[..j] in l && l[parts[..j]] != [] && l[parts[..j]][|l[parts[..j]]| - 1] == DirChild(parts[j])
  }

  // ---- what an insertion does to the pre-order ----

  /** Everything that is not avoid or above it is the same. */
  ghost predicate Agree(l: Listing, l': Listing, avoid: seq<string>) {
    forall k {:trigger k in l} {:trigger k in l'} :: !(k <= avoid) ==>
      (k in l <==> k in l') && (k in l ==> l[k] == l'[k])
  }

  /** Listings that agree below the given children give them the same files. */
  lemma {:induction false} RowsFrame(l: Listing, l': Listing, d: seq<string>, children: seq<Child>, n: nat,
                                     avoid: seq<string>)
    requires Agree(l, l', avoid)
    requires forall child :: child in children && child.DirChild? ==> !(d + [child.name] <= avoid)
    ensures RowsOf(l, d, children, n) == RowsOf(l', d, children, n)
    decreases n, |children|
  {
    if children != [] {
      var front, last := children[..|children| - 1], children[|children| - 1];
      RowsFrame(l, l', d, front, n, avoid);
      assert last in children;
      if last.DirChild? && n > 0 {
        var k := d + [last.name];
        assert !(k <= avoid);
        if k in l {
          forall child | child in l[k] && child.DirChild?
            ensures !(k + [child.name] <= avoid)
          {
            assert (k + [child.name])[..|k|] == k;
          }
          RowsFrame(l, l', k, l[k], n - 1, avoid);
        }
      }
    }
  }

  function Parent(parts: seq<string>): seq<string>
    requires parts != []
  {
    parts[..|parts| - 1]
  }

  /** l with a new empty directory, listed in its parent. */
  ghost function WithDir(l: Listing, d: seq<string>, name: string): Listing
    requires d in l
  {
    l[d := l[d] + [DirChild(name)]][d + [name] := []]
  }

  lemma {:induction false} InsertFrame(l: Listing, row: Row, i: nat)
    requires i < |row.parts| && row.parts[..i] in l
    ensures Agree(l, Insert(l, row, i), Parent(row.parts))
    ensures forall k :: k in l ==> k in Insert(l, row, i)
    ensures forall k :: k in Insert(l, row, i) ==> k in l || (k <= Parent(row.parts) && k != [])
    decreases |row.parts| - i
  {
    var d, d' := row.parts[..i], row.parts[..i + 1];
    assert d <= Parent(row.parts);
    if i < |row.parts| - 1 {
      assert d' <= Parent(row.parts);
      InsertFrame(if d' in l then l else l[d := l[d] + [DirChild(row.parts[i])]][d' := []], row, i + 1);
    }
  }

  /** Directories above the i-th element keep their entries. */
  lemma {:induction false} InsertAbove(l: Listing, row: Row, i: nat, k: seq<string>)
    requires i < |row.parts| && row.parts[..i] in l && |k| < i && k in l
    ensures k in Insert(l, row, i) && Insert(l, row, i)[k] == l[k]
    decreases |row.parts| - i
  {
    var d, d' := row.parts[..i], row.parts[..i + 1];
    if i < |row.parts| - 1 {
      InsertAbove(if d' in l then l else l[d := l[d] + [DirChild(row.parts[i])]][d' := []], row, i + 1, k);
    }
  }

  lemma InsertStep(l: Listing, row: Row, i: nat)
    requires i < |row.parts| - 1 && row.parts[..i] in l
    ensures var d, s := row.parts[..i], row.parts[i];
            && d + [s] == row.parts[..i + 1]
            && Insert(l, row, i) == Insert(if d + [s] in l then l else WithDir(l, d, s), row, i + 1)
  {
    assert row.parts[..i] + [row.parts[i]] == row.parts[..i + 1];
  }

  lemma FileAddedGood(l: Listing, d: seq<string>, row: Row)
    requires Good(l) && d in l
    ensures Good(l[d := l[d] + [FileChild(row)]])
  {
    var l' := l[d := l[d] + [FileChild(row)]];
    forall e, name | e in l'
      ensures DirCount(l'[e], name) == if e + [name] in l' then 1 else 0
    {
      assert DirCount(l[e], name) == if e + [name] in l then 1 else 0;
    }
  }

  lemma DirAddedGood(l: Listing, d: seq<string>, name: string)
    requires Good(l) && d in l && d + [name] !in l
    ensures Good(WithDir(l, d, name))
  {
    var l', d' := WithDir(l, d, name), d + [name];
    forall e, other | e in l'
      ensures DirCount(l'[e], other) == if e + [other] in l' then 1 else 0
    {
      if e == d' {
        assert (e + [other])[..|e + [other]| - 1] == d';
      } else {
        assert DirCount(l[e], other) == if e + [other] in l then 1 else 0;
        if e + [other] == d' {
          assert (e + [other])[..|e|] == e && d'[..|d|] == d && (e + [other])[|e|] == other;
        }
      }
    }
    assert d'[..|d'| - 1] == d;
  }

  lemma {:induction false} InsertGood(l: Listing, row: Row, i: nat)
    requires i < |row.parts| && row.parts[..i] in l && Good(l)
    ensures Good(Insert(l, row, i))
    decreases |row.parts| - i
  {
    var d, d' := row.parts[..i], row.parts[..i + 1];
    assert d + [row.parts[i]] == d';
    hide Good;
    if i == |row.parts| - 1 {
      FileAddedGood(l, d, row);
    } else if d' in l {
      InsertGood(l, row, i + 1);
    } else {
      DirAddedGood(l, d, row.parts[i]);
      InsertGood(WithDir(l, d, row.parts[i]), row, i + 1);
    }
  }

  /** All directories of the row from the i-th on are there, each the last entry of its parent. */
  ghost predicate SpineDone(l: Listing, parts: seq<string>, i: nat) {
    forall j {:trigger SpineSet(l, parts, j)} :: i <= j < |parts| - 1 ==> SpineSet(l, parts, j)
  }

  ghost predicate SpineSet(l: Listing, parts: seq<string>, j: nat)
    requires j < |parts|
  {
    parts[..j + 1] in l && SpineAt(l, parts, j)
  }

  lemma {:induction false} InsertSpine(l: Listing, row: Row, i: nat)
    requires i < |row.parts| && row.parts[..i] in l && OnSpine(l, row.parts, i)
    ensures SpineDone(Insert(l, row, i), row.parts, i)
    decreases |row.parts| - i
  {
    if i < |row.parts| - 1 {
      var d, d' := row.parts[..i], row.parts[..i + 1];
      var l1 := if d' in l then l else WithDir(l, d, row.parts[i]);
      assert d + [row.parts[i]] == d';
      assert Insert(l, row, i) == Insert(l1, row, i + 1);
      SpineKept(l, row, i);
      assert SpineAt(l, row.parts, i);
      assert d' in l1 && SpineAt(l1, row.parts, i);
      InsertSpine(l1, row, i + 1);
      InsertFrame(l1, row, i + 1);
      InsertAbove(l1, row, i + 1, d);
      hide Insert, OnSpine;
      SpineJoined(l1, Insert(l1, row, i + 1), row.parts, i);
    }
  }

  lemma SpineJoined(l: Listing, l': Listing, parts: seq<string>, i: nat)
    requires i < |parts| - 1 && SpineDone(l', parts, i + 1)
    requires parts[..i] in l && parts[..i] in l' && l'[parts[..i]] == l[parts[..i]]
    requires parts[..i + 1] in l && parts[..i + 1] in l' && SpineAt(l, parts, i)
    ensures SpineDone(l', parts, i)
  {
    assert SpineSet(l', parts, i);
    forall j | i <= j < |parts| - 1
      ensures SpineSet(l', parts, j)
    {
    }
  }

  /** Making the next directory leaves the rest of the way as it was. */
  lemma SpineKept(l: Listing, row: Row, i: nat)
    requires i < |row.parts| - 1 && row.parts[..i] in l && OnSpine(l, row.parts, i)
    ensures OnSpine(if row.parts[..i + 1] in l then l else WithDir(l, row.parts[..i], row.parts[i]), row.parts, i + 1)
  {
    var d, d' := row.parts[..i], row.parts[..i + 1];
    var l1 := if d' in l then l else WithDir(l, d, row.parts[i]);
    assert d + [row.parts[i]] == d';
    forall j | i + 1 <= j < |row.parts| - 1
      ensures SpineAt(l1, row.parts, j)
    {
      assert SpineAt(l, row.parts, j);
      assert |row.parts[..j]| == j && |row.parts[..j + 1]| == j + 1;
      if d' !in l && row.parts[..j + 1] in l {
        assert SpineAt(l, row.parts, j);
      }
    }
  }

  // ---- the pre-order grows at its end ----

  ghost function Rows(l: Listing, d: seq<string>, n: nat): seq<Row>
    requires d in l
  {
    RowsOf(l, d, l[d], n)
  }

  /** None of these entries is a directory on the way to avoid, so they list the same files in both. */
  lemma {:induction false} SameEntries(l: Listing, l': Listing, d: seq<string>, children: seq<Child>, n: nat,
                                       avoid: seq<string>)
    requires Agree(l, l', avoid)
    requires |d| < |avoid| && d <= avoid && DirChild(avoid[|d|]) !in children
    ensures RowsOf(l, d, children, n) == RowsOf(l', d, children, n)
  {
    forall child | child in children && child.DirChild?
      ensures !(d + [child.name] <= avoid)
    {
      assert (d + [child.name])[|d|] == child.name;
    }
    RowsFrame(l, l', d, children, n, avoid);
  }

  lemma FileAppends(l: Listing, d: seq<string>, row: Row, n: nat)
    requires d in l
    ensures Rows(l[d := l[d] + [FileChild(row)]], d, n) == Rows(l, d, n) + [row]
  {
    var l' := l[d := l[d] + [FileChild(row)]];
    RowsFrame(l, l', d, l[d], n, d);
    AddedEntry(l', d, l[d], FileChild(row), n);
  }

  lemma {:induction false} AddedEntry(l: Listing, d: seq<string>, front: seq<Child>, last: Child, n: nat)
    ensures RowsOf(l, d, front + [last], n) == RowsOf(l, d, front, n) + ChildRows(l, d, last, n)
  {
    assert (front + [last])[..|front|] == front;
  }

  /** When the last directory of d gains a row at its end, so does d. */
  lemma LastDirGrows(l1: Listing, l': Listing, d: seq<string>, s: string, front: seq<Child>, avoid: seq<string>,
                     row: Row, n: nat)
    requires d in l1 && d in l' && l1[d] == l'[d] == front + [DirChild(s)] && DirChild(s) !in front && n > 0
    requires |d| < |avoid| && d <= avoid && avoid[|d|] == s
    requires Agree(l1, l', avoid)
    requires d + [s] in l1 && d + [s] in l' && Rows(l', d + [s], n - 1) == Rows(l1, d + [s], n - 1) + [row]
    ensures Rows(l', d, n) == RowsOf(l1, d, front, n) + Rows(l1, d + [s], n - 1) + [row]
    ensures Rows(l1, d, n) == RowsOf(l1, d, front, n) + Rows(l1, d + [s], n - 1)
  {
    SameEntries(l1, l', d, front, n, avoid);
    AddedEntry(l', d, front, DirChild(s), n);
    AddedEntry(l1, d, front, DirChild(s), n);
  }

  /** The entries before the directory the row goes to, none of them that directory. */
  ghost function Front(l: Listing, d: seq<string>, s: string): (front: seq<Child>)
    requires d in l
  {
    if d + [s] in l && l[d] != [] then l[d][..|l[d]| - 1] else l[d]
  }

  lemma FrontAvoids(l: Listing, d: seq<string>, s: string)
    requires Good(l) && d in l && (d + [s] in l ==> l[d] != [] && l[d][|l[d]| - 1] == DirChild(s))
    ensures DirChild(s) !in Front(l, d, s)
    ensures d + [s] in l ==> l[d] == Front(l, d, s) + [DirChild(s)]
  {
    var front := Front(l, d, s);
    assert DirCount(l[d], s) == if d + [s] in l then 1 else 0;
    if d + [s] in l {
      assert l[d] == front + [DirChild(s)];
      assert multiset(l[d]) == multiset(front) + multiset{DirChild(s)};
    }
    assert multiset(front)[DirChild(s)] == 0;
    assert DirChild(s) in front ==> DirChild(s) in multiset(front);
  }

  /** Adding a row whose existing directories are all last puts it at the end of the pre-order. */
  lemma {:induction false} InsertAppends(l: Listing, row: Row, i: nat, n: nat)
    requires i < |row.parts| && row.parts[..i] in l && Good(l) && OnSpine(l, row.parts, i) && n + i + 1 >= |row.parts|
    ensures row.parts[..i] in Insert(l, row, i)
    ensures Rows(Insert(l, row, i), row.parts[..i], n) == Rows(l, row.parts[..i], n) + [row]
    decreases |row.parts| - i
  {
    var d := row.parts[..i];
    if i == |row.parts| - 1 {
      hide RowsOf, ChildRows, Good, OnSpine;
      FileAppends(l, d, row, n);
    } else {
      assert SpineAt(l, row.parts, i);
      hide RowsOf, ChildRows, Good, OnSpine, Insert, Rows, WithDir, SpineAt;
      InsertStep(l, row, i);
      SpineKept(l, row, i);
      if row.parts[..i + 1] in l {
        InsertAppends(l, row, i + 1, n - 1);
        NextDirGrows(l, row, i, n);
      } else {
        NewDirMade(l, row, i, n);
        InsertAppends(WithDir(l, d, row.parts[i]), row, i + 1, n - 1);
        NextDirGrows(WithDir(l, d, row.parts[i]), row, i, n);
      }
    }
  }

  lemma NewDirMade(l: Listing, row: Row, i: nat, n: nat)
    requires i < |row.parts| - 1 && row.parts[..i] in l && row.parts[..i + 1] !in l && Good(l) && n > 0
    ensures var l1 := WithDir(l, row.parts[..i], row.parts[i]);
            && Good(l1) && row.parts[..i] in l1 && row.parts[..i + 1] in l1 && SpineAt(l1, row.parts, i)
            && Rows(l1, row.parts[..i], n) == Rows(l, row.parts[..i], n)
  {
    hide Good, RowsOf;
    var d, s := row.parts[..i], row.parts[i];
    assert d + [s] == row.parts[..i + 1];
    DirAddedGood(l, d, s);
    NewDirIsEmpty(l, d, s, Parent(row.parts), n);
  }

  lemma NextDirGrows(l: Listing, row: Row, i: nat, n: nat)
    requires i < |row.parts| - 1 && row.parts[..i] in l && row.parts[..i + 1] in l && Good(l)
             && SpineAt(l, row.parts, i) && n > 0
    requires row.parts[..i + 1] in Insert(l, row, i + 1)
    requires Rows(Insert(l, row, i + 1), row.parts[..i + 1], n - 1) == Rows(l, row.parts[..i + 1], n - 1) + [row]
    ensures row.parts[..i] in Insert(l, row, i + 1)
    ensures Rows(Insert(l, row, i + 1), row.parts[..i], n) == Rows(l, row.parts[..i], n) + [row]
  {
    hide RowsOf, ChildRows, Good, Insert, Rows, Agree;
    var d, s := row.parts[..i], row.parts[i];
    assert d + [s] == row.parts[..i + 1];
    FrontAvoids(l, d, s);
    InsertFrame(l, row, i + 1);
    InsertAbove(l, row, i + 1, d);
    LastDirGrows(l, Insert(l, row, i + 1), d, s, Front(l, d, s), Parent(row.parts), row, n);
  }

  /** A directory just made adds nothing to the pre-order. */
  lemma NewDirIsEmpty(l: Listing, d: seq<string>, s: string, avoid: seq<string>, n: nat)
    requires Good(l) && d in l && d + [s] !in l && n > 0
    requires |d| < |avoid| && d <= avoid && avoid[|d|] == s
    ensures Rows(WithDir(l, d, s), d + [s], n - 1) == []
    ensures Rows(WithDir(l, d, s), d, n) == Rows(l, d, n)
  {
    var l1 := WithDir(l, d, s);
    assert d + [s] <= avoid;
    FrontAvoids(l, d, s);
    SameEntries(l, l1, d, l[d], n, avoid);
    AddedEntry(l1, d, l[d], DirChild(s), n);
  }

  // ---- all rows, one after the other ----

  /** The directories there are: the root and those above some row. */
  ghost predicate KeysOf(l: Listing, done: seq<Row>) {
    forall d {:trigger d in l} :: d in l <==> d == [] || AboveSome(d, done)
  }

  ghost predicate AboveSome(d: seq<string>, done: seq<Row>) {
    exists i :: 0 <= i < |done| && Above(d, done[i].parts)
  }

  ghost predicate Ordered(rows: seq<Row>) {
    && (forall i :: 0 <= i < |rows| ==> Clean(rows[i].parts))
    && (forall i, j :: 0 <= i < j < |rows| ==> Less(Text(rows[i].parts), Text(rows[j].parts)))
  }

  /** The listing holds the rows so far, in their order, and the last of them on its right edge. */
  ghost predicate Holds(l: Listing, done: seq<Row>, n: nat) {
    && Good(l) && KeysOf(l, done)
    && Rows(l, [], n) == done
    && (done != [] ==> SpineDone(l, done[|done| - 1].parts, 0))
  }

  lemma NoneHeld(n: nat)
    ensures Holds(map[[] := []], [], n)
  {
    assert Rows(map[[] := []], [], n) == [];
  }

  lemma NextOnSpine(l: Listing, done: seq<Row>, row: Row, n: nat)
    requires Holds(l, done, n) && Ordered(done + [row])
    ensures OnSpine(l, row.parts, 0)
  {
    var all := done + [row];
    hide Good, Less, Text, Clean;
    forall j | 0 <= j < |row.parts| - 1
      ensures SpineAt(l, row.parts, j)
    {
      var d := row.parts[..j + 1];
      if d in l {
        var i :| 0 <= i < |done| && Above(d, done[i].parts);
        var q := done[|done| - 1].parts;
        assert all[i] == done[i] && all[|done| - 1] == done[|done| - 1] && all[|done|] == row;
        if i < |done| - 1 {
          SharedDirectory(d, done[i].parts, q, row.parts);
        }
        assert SpineSet(l, q, j);
        assert q[..j] == d[..j] == row.parts[..j] && q[j] == d[j] == row.parts[j];
      }
    }
  }

  lemma {:induction false} AddRow(l: Listing, done: seq<Row>, row: Row, n: nat)
    requires Holds(l, done, n) && Ordered(done + [row]) && n + 1 >= |row.parts|
    ensures row.parts != [] && row.parts[..0] in l
    ensures Holds(Insert(l, row, 0), done + [row], n)
  {
    assert Clean((done + [row])[|done|].parts);
    assert row.parts[..0] == [];
    NextOnSpine(l, done, row, n);
    hide Ordered, OnSpine, SpineDone, Rows;
    InsertGood(l, row, 0);
    InsertSpine(l, row, 0);
    InsertAppends(l, row, 0, n);
    InsertKeys(l, done, row);
  }

  lemma {:induction false} InsertKeys(l: Listing, done: seq<Row>, row: Row)
    requires row.parts != [] && [] in l && row.parts[..0] in l && KeysOf(l, done)
             && SpineDone(Insert(l, row, 0), row.parts, 0)
    ensures KeysOf(Insert(l, row, 0), done + [row])
  {
    var l', all := Insert(l, row, 0), done + [row];
    InsertFrame(l, row, 0);
    hide Insert;
    forall d
      ensures d in l' <==> d == [] || AboveSome(d, all)
    {
      if d in l' && d != [] {
        if d in l {
          var i :| 0 <= i < |done| && Above(d, done[i].parts);
          assert Above(d, all[i].parts);
        } else {
          assert Above(d, all[|done|].parts);
        }
      }
      if AboveSome(d, all) && d != [] {
        var i :| 0 <= i < |all| && Above(d, all[i].parts);
        if i < |done| {
          assert AboveSome(d, done);
        } else {
          assert SpineSet(l', row.parts, |d| - 1);
          assert row.parts[..|d|] == d;
        }
      }
    }
  }

  // ---- the nodes ----

  /** A node of the tree; row is set on files only. */
  class FileNode {
    const name: string
    const path: seq<string>
    const row: Option<Row>
    var children: seq<FileNode>

    constructor (name: string, path: seq<string>, row: Option<Row>)
      ensures this.name == name && this.path == path && this.row == row && children == []
    {
      this.name, this.path, this.row, children := name, path, row, [];
    }
  }

  type Dirs = map<seq<string>, FileNode>

  ghost predicate IsChild(dirs: Dirs, d: seq<string>, node: FileNode, child: Child) {
    match child
    case FileChild(row) => node.row == Some(row) && node.path == row.parts && row.parts != []
      && node.name == row.parts[|row.parts| - 1]
    case DirChild(name) => d + [name] in dirs && node == dirs[d + [name]] && node.name == name
  }

  /** The nodes are the listing: every directory has one, with a child node for each of its entries. */
  ghost predicate Mirrors(dirs: Dirs, l: Listing)
    reads set d | d in dirs :: dirs[d]
  {
    && dirs.Keys == l.Keys
    && (forall d :: d in dirs ==> dirs[d].path == d && dirs[d].row.None?)
    && (forall d :: d in dirs ==> |dirs[d].children| == |l[d]|)
    && (forall d, i {:trigger dirs[d].children[i]} :: d in dirs && 0 <= i < |l[d]| ==>
         IsChild(dirs, d, dirs[d].children[i], l[d][i]))
  }

  /** One new entry at the end of a directory's children. */
  method Append(dirs: Dirs, ghost l: Listing, d: seq<string>, node: FileNode, ghost child: Child)
    requires d in dirs && Mirrors(dirs, l) && IsChild(dirs, d, node, child)
    modifies dirs[d]
    ensures Mirrors(dirs, l[d := l[d] + [child]])
  {
    var parent := dirs[d];
    parent.children := parent.children + [node];
  }

  /** A directory seen for the first time. */
  method MakeDir(dirs: Dirs, ghost l: Listing, d: seq<string>, name: string) returns (dirs': Dirs, next: FileNode)
    requires d in dirs && d + [name] !in dirs && Mirrors(dirs, l)
    modifies dirs[d]
    ensures fresh(next) && dirs' == dirs[d + [name] := next]
    ensures Mirrors(dirs', WithDir(l, d, name))
  {
    var cur := d + [name];
    next := new FileNode(name, cur, None);
    dirs' := dirs[cur := next];
    EmptyDirMirrored(dirs, dirs', l, cur, next);
    Append(dirs', l[cur := []], d, next, DirChild(name));
    assert l[cur := []][d := l[d] + [DirChild(name)]] == WithDir(l, d, name);
  }

  lemma EmptyDirMirrored(dirs: Dirs, dirs': Dirs, l: Listing, cur: seq<string>, next: FileNode)
    requires Mirrors(dirs, l) && cur !in dirs && dirs' == dirs[cur := next]
    requires next.path == cur && next.row.None? && next.children == []
    ensures Mirrors(dirs', l[cur := []])
  {
  }

  /** Goes down the elements of one path and hangs the file where they end. */
  method AddFile(dirs: Dirs, ghost l: Listing, row: Row) returns (dirs': Dirs)
    requires Mirrors(dirs, l) && [] in dirs && row.parts != [] && row.parts[..0] in l
    modifies set d | d in dirs :: dirs[d]
    ensures Mirrors(dirs', Insert(l, row, 0))
    ensures forall d :: d in dirs ==> d in dirs' && dirs'[d] == dirs[d]
    ensures forall d :: d in dirs' && d !in dirs ==> fresh(dirs'[d])
  {
    hide Mirrors, IsChild, Insert;
    dirs' := dirs;
    ghost var now := l;
    var cur: seq<string> := [];
    for i := 0 to |row.parts|
      invariant cur == row.parts[..i]
      invariant i < |row.parts| ==> cur in now && Insert(now, row, i) == Insert(l, row, 0) && cur in dirs'
      invariant Mirrors(dirs', now)
      invariant i == |row.parts| ==> now == Insert(l, row, 0)
      invariant forall d :: d in dirs ==> d in dirs' && dirs'[d] == dirs[d]
      invariant forall d :: d in dirs' && d !in dirs ==> fresh(dirs'[d])
    {
      var d, part := cur, row.parts[i];
      cur := d + [part];
      assert cur == row.parts[..i + 1];
      if i == |row.parts| - 1 {
        var node := new FileNode(part, row.parts, Some(row));
        FileIsChild(dirs', d, node, row);
        InsertLast(now, row, i);
        Append(dirs', now, d, node, FileChild(row));
        now := now[d := now[d] + [FileChild(row)]];
      } else {
        InsertStep(now, row, i);
        SameDirs(dirs', now);
        if cur !in dirs' {
          var next;
          dirs', next := MakeDir(dirs', now, d, part);
          now := WithDir(now, d, part);
        }
      }
    }
  }

  lemma FileIsChild(dirs: Dirs, d: seq<string>, node: FileNode, row: Row)
    requires row.parts != [] && node.row == Some(row) && node.path == row.parts
             && node.name == row.parts[|row.parts| - 1]
    ensures IsChild(dirs, d, node, FileChild(row))
  {
  }

  lemma {:induction false} InsertLast(l: Listing, row: Row, i: nat)
    requires i == |row.parts| - 1 && row.parts[..i] in l
    ensures Insert(l, row, i) == l[row.parts[..i] := l[row.parts[..i]] + [FileChild(row)]]
  {
  }

  lemma SameDirs(dirs: Dirs, l: Listing)
    requires Mirrors(dirs, l)
    ensures dirs.Keys == l.Keys
  {
  }

  // ---- the query ----

  function TrimDot(e: string): string {
    if e != "" && e[0] == '.' then e[1..] else e
  }

  /** The wanted extensions, without their dot and in lower case. */
  function IncludeSet(includeExts: seq<string>): set<string> {
    set e | e in includeExts && e != "" :: Lower(TrimDot(e))
  }

  predicate WantedExt(exts: set<string>, row: Row) {
    exts == {} || (row.parts != [] && Lower(TrimDot(Ext(row.parts[|row.parts| - 1]))) in exts)
  }

  /** A depth of zero or less is no limit; else it counts path elements. */
  predicate WithinDepth(maxDepth: int, row: Row) {
    maxDepth <= 0 || |row.parts| <= maxDepth
  }

  /** The name has this extension, case and a leading dot aside; "." stands for none. */
  ghost predicate SameExt(name: string, e: string) {
    var x := Lower(Ext(name));
    x == Lower(e) || x == "." + Lower(e) || (x == "" && e == ".")
  }

  /** At most maxDepth elements if that is positive, and one of the given extensions if any is. */
  ghost predicate Fits(row: Row, maxDepth: int, includeExts: seq<string>)
    requires row.parts != []
  {
    && (maxDepth > 0 ==> |row.parts| <= maxDepth)
    && ((exists e :: e in includeExts && e != "") ==>
          exists e :: e in includeExts && e != "" && SameExt(row.parts[|row.parts| - 1], e))
  }

  /** These are the fitting rows, once each and in path order. */
  ghost predicate ShowsFitting(rows: seq<Row>, maxDepth: int, includeExts: seq<string>, shown: seq<Row>) {
    && Ordered(shown)
    && forall r :: r in shown <==> r in rows && r.parts != [] && Fits(r, maxDepth, includeExts)
  }

  lemma {:induction false} TrimLower(s: string)
    ensures Lower(TrimDot(s)) == TrimDot(Lower(s))
  {
    hide Lower, LowerChar;
    LowerSnoc("", 'x');
    if s != "" {
      var c, rest := s[0], s[1..];
      assert s == [c] + rest && "" + [c] == [c];
      LowerConcat([c], rest);
      LowerSnoc("", c);
      assert Lower(s)[1..] == Lower(rest);
      DotStays(c);
    }
  }

  lemma DotStays(c: char)
    ensures LowerChar(c) == '.' <==> c == '.'
  {
  }

  lemma {:induction false} SameExtIff(name: string, e: string)
    requires e != ""
    ensures Lower(TrimDot(Ext(name))) == Lower(TrimDot(e)) <==> SameExt(name, e)
  {
    hide *;
    TrimLower(Ext(name));
    TrimLower(e);
    ExtOfLower(name);
    ExtShape(Lower(name));
    OnlyDot(e);
    SameTrimmed(Lower(Ext(name)), Lower(e));
    IsSameExt(name, e);
  }

  lemma {:induction false} IsSameExt(name: string, e: string)
    ensures var x := Lower(Ext(name));
            SameExt(name, e) <==> x == Lower(e) || x == "." + Lower(e) || (x == "" && e == ".")
  {
  }

  lemma {:induction false} OnlyDot(e: string)
    requires e != ""
    ensures Lower(e) != "" && (Lower(e) == "." <==> e == ".")
  {
    LowerSnoc(e, 'x');
    LowerKeeps(e);
    if Lower(e) == "." {
      assert |e| == 1 && '.' in e;
    }
  }

  lemma SameTrimmed(x: string, y: string)
    requires y != "" && (x == "" || (x[0] == '.' && '.' !in x[1..]))
    ensures TrimDot(x) == TrimDot(y) <==> x == y || x == "." + y || (x == "" && y == ".")
  {
    assert x != "" ==> x == "." + x[1..];
    assert y[0] == '.' ==> y == "." + y[1..];
    if x == "." + y {
      assert x[1..] == y && y[0] in y;
    }
  }

  lemma WantedIff(includeExts: seq<string>, row: Row)
    requires row.parts != []
    ensures WantedExt(IncludeSet(includeExts), row) <==>
            ((exists e :: e in includeExts && e != "") ==>
               exists e :: e in includeExts && e != "" && SameExt(row.parts[|row.parts| - 1], e))
  {
    hide Lower, Ext, SameExt, TrimDot;
    var name := row.parts[|row.parts| - 1];
    forall e | e in includeExts && e != ""
      ensures Lower(TrimDot(e)) in IncludeSet(includeExts)
      ensures Lower(TrimDot(Ext(name))) == Lower(TrimDot(e)) <==> SameExt(name, e)
    {
      SameExtIff(name, e);
    }
  }

  lemma ShownFits(rows: seq<Row>, maxDepth: int, includeExts: seq<string>)
    requires Ordered(rows)
    ensures ShowsFitting(rows, maxDepth, includeExts, Shown(rows, maxDepth, includeExts))
  {
    hide Only, WantedExt, IncludeSet, Less;
    OnlyOrdered(rows, ByExt(includeExts));
    var listed := Only(rows, ByExt(includeExts));
    OnlyOrdered(listed, ByDepth(maxDepth));
    OnlyFrom(rows, ByExt(includeExts));
    OnlyFrom(listed, ByDepth(maxDepth));
    forall r | r in rows
      ensures r.parts != [] && (WantedExt(IncludeSet(includeExts), r) && WithinDepth(maxDepth, r)
                                <==> Fits(r, maxDepth, includeExts))
    {
      var i :| 0 <= i < |rows| && rows[i] == r;
      assert Clean(rows[i].parts);
      WantedIff(includeExts, r);
    }
  }

  ghost function Only(rows: seq<Row>, keep: Row -> bool): seq<Row> {
    if rows == [] then []
    else Only(rows[..|rows| - 1], keep) + if keep(rows[|rows| - 1]) then [rows[|rows| - 1]] else []
  }

  lemma {:induction false} OnlyFrom(rows: seq<Row>, keep: Row -> bool)
    ensures forall r :: r in Only(rows, keep) <==> r in rows && keep(r)
  {
    if rows != [] {
      OnlyFrom(rows[..|rows| - 1], keep);
      assert rows == rows[..|rows| - 1] + [rows[|rows| - 1]];
    }
  }

  lemma {:induction false} OnlyOrdered(rows: seq<Row>, keep: Row -> bool)
    requires Ordered(rows)
    ensures Ordered(Only(rows, keep))
    ensures rows != [] ==> Ordered(Only(rows[..|rows| - 1], keep) + [rows[|rows| - 1]])
  {
    hide Ordered;
    if rows == [] {
      assert Ordered(Only(rows, keep));
    } else {
      var front, last := rows[..|rows| - 1], rows[|rows| - 1];
      OrderedFront(rows);
      OnlyOrdered(front, keep);
      OnlyFrom(front, keep);
      OrderedSnoc(rows, Only(front, keep));
      assert Only(front, keep) + [] == Only(front, keep);
    }
  }

  lemma OrderedFront(rows: seq<Row>)
    requires Ordered(rows) && rows != []
    ensures Ordered(rows[..|rows| - 1])
  {
    hide Less, Text, Clean;
  }

  lemma OrderedSnoc(rows: seq<Row>, some: seq<Row>)
    requires Ordered(rows) && rows != [] && Ordered(some) && forall r :: r in some ==> r in rows[..|rows| - 1]
    ensures Ordered(some + [rows[|rows| - 1]])
  {
    hide Less, Text, Clean;
    var last := rows[|rows| - 1];
    forall i | 0 <= i < |some|
      ensures Less(Text(some[i].parts), Text(last.parts))
    {
      assert some[i] in some;
      var k :| 0 <= k < |rows| - 1 && rows[k] == some[i];
    }
  }

  ghost function Deepest(rows: seq<Row>): (n: nat)
    ensures forall r :: r in rows ==> |r.parts| <= n
  {
    if rows == [] then 0
    else
      assert rows == rows[..|rows| - 1] + [rows[|rows| - 1]];
      Max(Deepest(rows[..|rows| - 1]), |rows[|rows| - 1].parts|)
  }

  function ByExt(includeExts: seq<string>): Row -> bool {
    row => WantedExt(IncludeSet(includeExts), row)
  }

  function ByDepth(maxDepth: int): Row -> bool {
    row => WithinDepth(maxDepth, row)
  }

  /** What the tree shows: the rows with a wanted extension, within the depth. */
  ghost function Shown(rows: seq<Row>, maxDepth: int, includeExts: seq<string>): seq<Row> {
    Only(Only(rows, ByExt(includeExts)), ByDepth(maxDepth))
  }

  /** The tree a listing stands for, to a depth of n directories below d. */
  ghost function View(l: Listing, d: seq<string>, n: nat): Tree
    requires d in l
  {
    Dir(d, Views(l, d, l[d], n))
  }

  ghost function Views(l: Listing, d: seq<string>, children: seq<Child>, n: nat): seq<Tree>
    decreases n, |children|
  {
    if children == [] then []
    else Views(l, d, children[..|children| - 1], n) + [ViewChild(l, d, children[|children| - 1], n)]
  }

  ghost function ViewChild(l: Listing, d: seq<string>, child: Child, n: nat): Tree
    decreases n, 0
  {
    match child
    case FileChild(row) => File(row)
    case DirChild(name) =>
      if n == 0 || d + [name] !in l then Dir(d + [name], [])
      else Dir(d + [name], Views(l, d + [name], l[d + [name]], n - 1))
  }

  lemma {:induction false} ViewLeaves(l: Listing, d: seq<string>, children: seq<Child>, n: nat)
    ensures LeavesOf(Views(l, d, children, n)) == RowsOf(l, d, children, n)
    decreases n, |children|
  {
    if children == [] {
      assert LeavesOf(Views(l, d, children, n)) == [];
    } else {
      var front, last := children[..|children| - 1], children[|children| - 1];
      ViewLeaves(l, d, front, n);
      ChildLeaves(l, d, last, n);
      var vs := Views(l, d, children, n);
      assert vs[..|vs| - 1] == Views(l, d, front, n) && vs[|vs| - 1] == ViewChild(l, d, last, n);
    }
  }

  lemma {:induction false} ChildLeaves(l: Listing, d: seq<string>, child: Child, n: nat)
    ensures Leaves(ViewChild(l, d, child, n)) == ChildRows(l, d, child, n)
    decreases n, 0
  {
    if child.DirChild? {
      if n == 0 || d + [child.name] !in l {
        assert Leaves(Dir(d + [child.name], [])) == LeavesOf([]);
      } else {
        ViewLeaves(l, d + [child.name], l[d + [child.name]], n - 1);
      }
    }
  }

  method WithExt(rows: seq<Row>, includeExts: seq<string>) returns (paths: seq<Row>)
    ensures paths == Only(rows, ByExt(includeExts))
  {
    var exts := IncludeSet(includeExts);
    paths := [];
    for k := 0 to |rows|
      invariant paths == Only(rows[..k], ByExt(includeExts))
    {
      assert rows[..k + 1][..k] == rows[..k];
      if WantedExt(exts, rows[k]) {
        paths := paths + [rows[k]];
      }
    }
    assert rows[..|rows|] == rows;
  }

  /**
   The tree over all rows, for the empty prefix. Its files in pre-order are the rows shown, in path order,
   and its directories are those above some row shown, each listed once in its parent.
   */
  method FileTree(rows: seq<Row>, maxDepth: int, includeExts: seq<string>)
    returns (root: FileNode, ghost nodes: Dirs, ghost l: Listing)
    requires Ordered(rows)
    ensures [] in nodes && nodes[[]] == root && fresh(root) && Mirrors(nodes, l)
    ensures Good(l)
    ensures var leaves := Leaves(View(l, [], Deepest(rows)));
            KeysOf(l, leaves) && ShowsFitting(rows, maxDepth, includeExts, leaves)
  {
    hide Mirrors, Insert, Good, KeysOf, Ordered, Only, Rows, Holds, IncludeSet, WantedExt, View, ShowsFitting;
    var paths := WithExt(rows, includeExts);
    OnlyOrdered(rows, ByExt(includeExts));
    root := new FileNode(".", [], None);
    var dirs: Dirs := map[[] := root];
    l := map[[] := []];
    ghost var n := Deepest(rows);
    RootMirrored(dirs, root);
    NoneHeld(n);
    OnlyNone(paths, ByDepth(maxDepth));
    for k := 0 to |paths|
      invariant Mirrors(dirs, l) && [] in dirs && dirs[[]] == root
      invariant forall d :: d in dirs ==> fresh(dirs[d])
      invariant Holds(l, Only(paths[..k], ByDepth(maxDepth)), n)
    {
      OnlyNext(paths, ByDepth(maxDepth), k);
      if maxDepth > 0 && |paths[k].parts| > maxDepth {
        continue;
      }
      RowFits(rows, includeExts, paths, k, n);
      AddRow(l, Only(paths[..k], ByDepth(maxDepth)), paths[k], n);
      dirs := AddFile(dirs, l, paths[k]);
      l := Insert(l, paths[k], 0);
      InsertRoot(dirs, l);
    }
    assert paths[..|paths|] == paths;
    nodes := dirs;
    HeldIsShown(l, Shown(rows, maxDepth, includeExts), n);
    ShownFits(rows, maxDepth, includeExts);
  }

  lemma RootMirrored(dirs: Dirs, root: FileNode)
    requires dirs == map[[] := root] && root.path == [] && root.row.None? && root.children == []
    ensures Mirrors(dirs, map[[] := []])
  {
  }

  lemma OnlyNone(rows: seq<Row>, keep: Row -> bool)
    ensures Only(rows[..0], keep) == []
  {
  }

  lemma OnlyNext(rows: seq<Row>, keep: Row -> bool, k: nat)
    requires k < |rows|
    ensures Only(rows[..k + 1], keep)
            == if keep(rows[k]) then Only(rows[..k], keep) + [rows[k]] else Only(rows[..k], keep)
  {
    assert rows[..k + 1][..k] == rows[..k];
  }

  /** The next path can be added after those before it that are shown, and fits the depth. */
  lemma {:induction false} RowFits(rows: seq<Row>, includeExts: seq<string>, paths: seq<Row>, k: nat, n: nat)
    requires paths == Only(rows, ByExt(includeExts)) && Ordered(paths) && k < |paths| && n == Deepest(rows)
    ensures forall keep: Row -> bool :: Ordered(Only(paths[..k], keep) + [paths[k]])
    ensures |paths[k].parts| <= n
  {
    OnlyFrom(rows, ByExt(includeExts));
    assert paths[k] in paths;
    hide Only, Less, Text, Clean;
    var upTo := paths[..k + 1];
    assert Ordered(upTo);
    forall keep: Row -> bool
      ensures Ordered(Only(paths[..k], keep) + [paths[k]])
    {
      OnlyOrdered(upTo, keep);
      assert upTo[..|upTo| - 1] == paths[..k] && upTo[|upTo| - 1] == paths[k];
    }
  }

  lemma InsertRoot(dirs: Dirs, l: Listing)
    requires Mirrors(dirs, l)
    ensures dirs.Keys == l.Keys
  {
  }

  lemma HeldIsShown(l: Listing, shown: seq<Row>, n: nat)
    requires Holds(l, shown, n)
    ensures [] in l && Good(l) && KeysOf(l, shown) && Leaves(View(l, [], n)) == shown
  {
    ViewLeaves(l, [], l[[]], n);
  }

  ghost predicate OnlyAt(xs: seq<Child>, x: Child, i: int) {
    0 <= i < |xs| && xs[i] == x && forall j :: 0 <= j < |xs| && j != i ==> xs[j] != x
  }

  /** Every directory but the root is exactly one entry, in its parent. */
  lemma ListedOnce(l: Listing, p: seq<string>, s: string)
    requires Good(l) && p + [s] in l
    ensures p in l && exists i :: OnlyAt(l[p], DirChild(s), i)
  {
    assert (p + [s])[..|p + [s]| - 1] == p;
    var entries := l[p];
    assert DirCount(entries, s) == 1;
    assert DirChild(s) in multiset(entries);
    var i :| 0 <= i < |entries| && entries[i] == DirChild(s);
    OneOccurrence(entries, DirChild(s), i);
    assert OnlyAt(l[p], DirChild(s), i);
  }

  lemma OneOccurrence<T>(xs: seq<T>, x: T, i: nat)
    requires i < |xs| && xs[i] == x && multiset(xs)[x] == 1
    ensures forall j :: 0 <= j < |xs| && j != i ==> xs[j] != x
  {
    assert xs == xs[..i] + [x] + xs[i + 1..];
    assert multiset(xs) == multiset(xs[..i]) + multiset{x} + multiset(xs[i + 1..]);
    forall j | 0 <= j < |xs| && j != i
      ensures xs[j] != x
    {
      if j < i {
        assert xs[j] == xs[..i][j] && xs[j] in multiset(xs[..i]);
      } else {
        assert xs[j] == xs[i + 1..][j - i - 1] && xs[j] in multiset(xs[i + 1..]);
      }
    }
  }
}
