/** The watcher's log file with size-based rotation and three backups. */
module RotatingLog {

  const BACKUPS: nat := 3

  /** The files on disk: 0 is the active log, k is the backup ".k". A file is a list of bytes, or of lines. */
  type Disk<T> = map<nat, seq<T>>

  function Content<T>(disk: Disk<T>, k: nat): seq<T> {
    if k in disk then disk[k] else []
  }

  /** Renames file k to k + 1, replacing what was there; nothing happens when k does not exist. */
  function Rename<T>(disk: Disk<T>, k: nat): Disk<T> {
    if k in disk then disk[k + 1 := disk[k]] - {k} else disk
  }

  /** One rotation: every file moves up by one and an empty active log is opened. */
  function Rotated<T>(disk: Disk<T>): Disk<T> {
    Rename(Rename(Rename(disk, 2), 1), 0)[0 := []]
  }

  /** Everything on disk, oldest first. */
  function History<T>(disk: Disk<T>): seq<T> {
    Backups(disk) + Content(disk, 0)
  }

  function Backups<T>(disk: Disk<T>): seq<T> {
    Content(disk, 3) + Content(disk, 2) + Content(disk, 1)
  }

  /** What one rotation loses: the oldest backup, if another one takes its place. */
  function Lost<T>(disk: Disk<T>): seq<T> {
    if 2 in disk then Content(disk, 3) else []
  }

  lemma RotatedFiles<T>(disk: Disk<T>)
    ensures Content(Rotated(disk), 0) == [] && Content(Rotated(disk), 1) == Content(disk, 0)
    ensures Content(Rotated(disk), 2) == Content(disk, 1)
    ensures Content(Rotated(disk), 3) == if 2 in disk then disk[2] else Content(disk, 3)
  {
  }

  /** Every file is now the backup after it; the oldest one stays if none takes its place. */
  ghost predicate MovedUp<T>(disk: Disk<T>, disk': Disk<T>) {
    && Content(disk', 1) == Content(disk, 0) && Content(disk', 2) == Content(disk, 1)
    && Content(disk', 3) == if 2 in disk then disk[2] else Content(disk, 3)
  }

  lemma RotationKeepsHistory<T>(disk: Disk<T>)
    ensures History(disk) == Lost(disk) + History(Rotated(disk))
  {
    RotatedFiles(disk);
    hide Rotated;
  }

  lemma AppendKeepsHistory<T>(disk: Disk<T>, more: seq<T>)
    ensures History(disk[0 := Content(disk, 0) + more]) == History(disk) + more
  {
    assert Backups(disk[0 := Content(disk, 0) + more]) == Backups(disk);
  }

  datatype LogState = LogState(disk: Disk<char>, bytes: nat)

  /** Opening the log: rotated once when the file found is too big. */
  function Opened(disk: Disk<char>, maxBytes: int): LogState {
    var d := if 0 in disk && |disk[0]| > maxBytes then Rotated(disk) else disk;
    LogState(d[0 := Content(d, 0)], |Content(d, 0)|)
  }

  function Written(st: LogState, s: string, maxBytes: int): LogState {
    var line := s + "\n";
    var st' := if maxBytes > 0 && st.bytes + |line| > maxBytes then LogState(Rotated(st.disk), 0) else st;
    LogState(st'.disk[0 := Content(st'.disk, 0) + line], st'.bytes + |line|)
  }

  class FileLogger {
    const maxBytes: int
    const backups: nat := BACKUPS
    var disk: Disk<char>
    var isOpen: bool
    var bytes: nat

    /** The open handle appends to the active log, whose size is tracked in bytes. */
    ghost predicate Valid()
      reads this
    {
      isOpen && 0 in disk && bytes == |disk[0]|
    }

    constructor (disk: Disk<char>, maxBytes: int)
      ensures Valid() && this.maxBytes == maxBytes
      ensures LogState(this.disk, bytes) == Opened(disk, maxBytes)
      // a log found too big goes to the backups, any other is gone on with
      ensures 0 in disk && |disk[0]| > maxBytes ==> MovedUp(disk, this.disk) && this.disk[0] == ""
      ensures 0 in disk && |disk[0]| <= maxBytes ==> this.disk == disk
      ensures 0 !in disk ==> this.disk == disk[0 := ""]
    {
      this.maxBytes, this.disk, isOpen, bytes := maxBytes, disk, false, 0;
      new;
      RotatedFiles(disk);
      if 0 in disk && |disk[0]| > maxBytes {
        RotateLocked();
      }
      this.disk := this.disk[0 := Content(this.disk, 0)];
      isOpen, bytes := true, |this.disk[0]|;
    }

    method WriteLine(s: string)
      requires Valid()
      modifies this
      ensures Valid()
      ensures LogState(disk, bytes) == Written(LogState(old(disk), old(bytes)), s, maxBytes)
      // a line that fits is appended, one that does not starts a new file
      ensures maxBytes <= 0 || old(bytes) + |s| + 1 <= maxBytes ==> disk == old(disk)[0 := old(disk[0]) + (s + "\n")]
      ensures maxBytes > 0 && old(bytes) + |s| + 1 > maxBytes ==> MovedUp(old(disk), disk) && disk[0] == s + "\n"
    {
      RotatedFiles(disk);
      var line := s + "\n";
      if maxBytes > 0 && bytes + |line| > maxBytes {
        RotateLocked();
      }
      disk := disk[0 := disk[0] + line];
      bytes := bytes + |line|;
    }

    method RotateLocked()
      modifies this
      ensures Valid() && bytes == 0
      ensures disk == Rotated(old(disk))
    {
      isOpen := false;
      var i := backups - 1;
      ghost var start := disk;
      while i >= 1
        invariant 0 <= i <= 2
        invariant disk == if i == 2 then start else if i == 1 then Rename(start, 2) else Rename(Rename(start, 2), 1)
      {
        if i in disk {
          disk := disk[i + 1 := disk[i]] - {i};
        }
        i := i - 1;
      }
      if 0 in disk {
        disk := disk[1 := disk[0]] - {0};
      }
      disk := disk[0 := Content(disk, 0)];
      isOpen, bytes := true, 0;
    }
  }

  // ---- whole runs ----

  /** A process writes lines; between processes the log is opened again. */
  datatype Op = Line(text: string) | Reopen

  function Apply(st: LogState, op: Op, maxBytes: int): LogState {
    match op
    case Line(text) => Written(st, text, maxBytes)
    case Reopen => Opened(st.disk, maxBytes)
  }

  function Run(st: LogState, ops: seq<Op>, maxBytes: int): LogState {
    if ops == [] then st else Apply(Run(st, ops[..|ops| - 1], maxBytes), ops[|ops| - 1], maxBytes)
  }

  function LineText(op: Op): string {
    if op.Line? then op.text + "\n" else ""
  }

  function WrittenText(ops: seq<Op>): string {
    if ops == [] then "" else WrittenText(ops[..|ops| - 1]) + LineText(ops[|ops| - 1])
  }

  predicate Rotates(st: LogState, op: Op, maxBytes: int) {
    match op
    case Line(text) => maxBytes > 0 && st.bytes + |text| + 1 > maxBytes
    case Reopen => 0 in st.disk && |st.disk[0]| > maxBytes
  }

  /** The disk on which the step appends. */
  function Settled<T>(disk: Disk<T>, rotates: bool): Disk<T> {
    if rotates then Rotated(disk) else disk
  }

  lemma ApplyAppends(st: LogState, op: Op, maxBytes: int)
    ensures var d := Settled(st.disk, Rotates(st, op, maxBytes));
            Apply(st, op, maxBytes).disk == d[0 := Content(d, 0) + LineText(op)]
  {
    hide Rotated;
    var d := Settled(st.disk, Rotates(st, op, maxBytes));
    assert Content(d, 0) + "" == Content(d, 0);
    if op.Reopen? {
      RotatedFiles(st.disk);
    }
  }

  /** One step drops a prefix of the history and appends what is written. */
  lemma StepKeepsHistory(st: LogState, op: Op, maxBytes: int) returns (dropped: string)
    ensures History(st.disk) + LineText(op) == dropped + History(Apply(st, op, maxBytes).disk)
  {
    var rotates := Rotates(st, op, maxBytes);
    ApplyAppends(st, op, maxBytes);
    AppendKeepsHistory(Settled(st.disk, rotates), LineText(op));
    RotationKeepsHistory(st.disk);
    hide Rotated, History, Apply, Lost, Rotates;
    dropped := if rotates then Lost(st.disk) else "";
    assert dropped + History(Settled(st.disk, rotates)) == History(st.disk);
  }

  /** No log byte is lost or reordered except by dropping a prefix, from any disk, over any run. */
  lemma {:induction false} RunKeepsHistory(st: LogState, ops: seq<Op>, maxBytes: int) returns (dropped: string)
    ensures History(st.disk) + WrittenText(ops) == dropped + History(Run(st, ops, maxBytes).disk)
  {
    hide History, Apply, Content, Backups, Rename, Rotated, Opened, Written, LineText;
    if ops == [] {
      dropped := "";
    } else {
      var front, op := ops[..|ops| - 1], ops[|ops| - 1];
      var before := RunKeepsHistory(st, front, maxBytes);
      var mid := Run(st, front, maxBytes);
      var more := StepKeepsHistory(mid, op, maxBytes);
      dropped := before + more;
      Regroup(History(st.disk) + WrittenText(front), LineText(op), before, History(mid.disk), more,
              History(Run(st, ops, maxBytes).disk));
      assert History(st.disk) + WrittenText(ops) == History(st.disk) + WrittenText(front) + LineText(op);
    }
  }

  lemma Regroup<T>(all: seq<T>, more: seq<T>, dropped: seq<T>, kept: seq<T>, dropped': seq<T>, kept': seq<T>)
    requires all == dropped + kept && kept + more == dropped' + kept'
    ensures all + more == dropped + dropped' + kept'
  {
    assert all + more == dropped + (kept + more);
  }

  // ---- a fresh log is cut at line ends only ----

  /** The bytes of a list of lines. */
  function Text(lines: seq<string>): string {
    if lines == [] then "" else Text(lines[..|lines| - 1]) + lines[|lines| - 1] + "\n"
  }

  function OpLines(op: Op): seq<string> {
    if op.Line? then [op.text] else []
  }

  function LinesWritten(ops: seq<Op>): seq<string> {
    if ops == [] then [] else LinesWritten(ops[..|ops| - 1]) + OpLines(ops[|ops| - 1])
  }

  /** The files hold the given lines, and no more bytes than allowed unless a file is a single line. */
  ghost predicate SameFiles(disk: Disk<char>, lines: Disk<string>, maxBytes: int) {
    && disk.Keys == lines.Keys
    && (forall k :: k in lines ==> disk[k] == Text(lines[k]))
    && (maxBytes > 0 ==> forall k :: k in lines ==> |disk[k]| <= maxBytes || |lines[k]| == 1)
  }

  ghost predicate HoldsLines(st: LogState, lines: Disk<string>, maxBytes: int) {
    SameFiles(st.disk, lines, maxBytes) && 0 in lines && st.bytes == |st.disk[0]|
  }

  /**
   No file is left too soon: the first line of the next one did not fit any more. A file next to an empty log, as
   reopening leaves it, is too big by itself.
   */
  ghost predicate FilledUp(lines: Disk<string>, maxBytes: int) {
    && (forall k :: k in lines && k > 0 ==> k <= 3 && k - 1 in lines)
    && (1 in lines && 0 in lines && lines[0] == [] ==> |Text(lines[1])| > maxBytes)
    && (forall k: nat {:trigger NoRoom(lines, k, maxBytes)} :: NoRoom(lines, k, maxBytes))
  }

  ghost predicate NoRoom(lines: Disk<string>, k: nat, maxBytes: int) {
    k in lines && k + 1 in lines && lines[k] != [] ==> |Text(lines[k + 1])| + |lines[k][0]| + 1 > maxBytes
  }

  lemma AppendFills(lines: Disk<string>, text: string, maxBytes: int)
    requires FilledUp(lines, maxBytes) && 0 in lines
    ensures FilledUp(lines[0 := lines[0] + [text]], maxBytes)
  {
    var more := lines[0 := lines[0] + [text]];
    forall k: nat
      ensures NoRoom(more, k, maxBytes)
    {
      assert NoRoom(lines, k, maxBytes);
    }
  }

  /** Without gaps, a rotation moves every file up by one. */
  lemma MovedFiles(lines: Disk<string>)
    requires 0 in lines && forall k :: k in lines && k > 0 ==> k <= 3 && k - 1 in lines
    ensures forall k :: k in Rotated(lines) <==> k == 0 || (k <= 3 && k - 1 in lines)
    ensures forall k :: k in Rotated(lines) ==> Rotated(lines)[k] == if k == 0 then [] else lines[k - 1]
  {
  }

  lemma RotateFills(lines: Disk<string>, maxBytes: int)
    requires FilledUp(lines, maxBytes) && 0 in lines
    ensures |Text(lines[0])| > maxBytes ==> FilledUp(Rotated(lines), maxBytes)
    ensures forall text :: |Text(lines[0])| + |text| + 1 > maxBytes ==>
              FilledUp(Rotated(lines)[0 := [text]], maxBytes)
  {
    var moved := Rotated(lines);
    MovedFiles(lines);
    hide Rotated, Text, NoRoom, FilledUp;
    if |Text(lines[0])| > maxBytes {
      StartFilled(lines, moved, [], maxBytes);
      assert moved[0 := []] == moved;
    }
    forall text | |Text(lines[0])| + |text| + 1 > maxBytes
      ensures FilledUp(moved[0 := [text]], maxBytes)
    {
      StartFilled(lines, moved, [text], maxBytes);
    }
  }

  lemma StartFilled(lines: Disk<string>, moved: Disk<string>, start: seq<string>, maxBytes: int)
    requires FilledUp(lines, maxBytes) && 0 in lines
    requires forall k :: k in moved <==> k == 0 || (k <= 3 && k - 1 in lines)
    requires forall k :: k in moved && k > 0 ==> moved[k] == lines[k - 1]
    requires |Text(lines[0])| + (if start == [] then 0 else |start[0]| + 1) > maxBytes
    ensures FilledUp(moved[0 := start], maxBytes)
  {
    hide Text;
    var begun := moved[0 := start];
    assert begun[1] == lines[0];
    forall k: nat
      ensures NoRoom(begun, k, maxBytes)
    {
      if k > 0 {
        assert NoRoom(lines, k - 1, maxBytes);
      }
    }
  }

  lemma RenameKeepsFiles(disk: Disk<char>, lines: Disk<string>, k: nat, maxBytes: int)
    requires SameFiles(disk, lines, maxBytes)
    ensures SameFiles(Rename(disk, k), Rename(lines, k), maxBytes)
  {
    hide Text;
  }

  lemma RotationKeepsLines(st: LogState, lines: Disk<string>, maxBytes: int)
    requires HoldsLines(st, lines, maxBytes)
    ensures HoldsLines(LogState(Rotated(st.disk), 0), Rotated(lines), maxBytes)
  {
    hide Rename;
    assert Text([]) == "";
    RenameKeepsFiles(st.disk, lines, 2, maxBytes);
    RenameKeepsFiles(Rename(st.disk, 2), Rename(lines, 2), 1, maxBytes);
    RenameKeepsFiles(Rename(Rename(st.disk, 2), 1), Rename(Rename(lines, 2), 1), 0, maxBytes);
  }

  /** Appending one line to the active log, within the limit or onto an empty file. */
  lemma AppendLine(st: LogState, lines: Disk<string>, text: string, maxBytes: int)
    requires HoldsLines(st, lines, maxBytes)
    requires maxBytes > 0 ==> st.bytes + |text| + 1 <= maxBytes || lines[0] == []
    ensures var line := text + "\n";
            var st' := LogState(st.disk[0 := st.disk[0] + line], st.bytes + |line|);
            HoldsLines(st', lines[0 := lines[0] + [text]], maxBytes)
  {
    var more := lines[0] + [text];
    assert more[..|more| - 1] == lines[0];
    assert Text(more) == Text(lines[0]) + (text + "\n");
  }

  /** The rotation that may open a step. */
  lemma SettleKeepsLines(st: LogState, lines: Disk<string>, rotates: bool, maxBytes: int)
    returns (mid: LogState, dropped: seq<string>)
    requires HoldsLines(st, lines, maxBytes)
    ensures mid == if rotates then LogState(Rotated(st.disk), 0) else st
    ensures HoldsLines(mid, Settled(lines, rotates), maxBytes)
    ensures rotates ==> Settled(lines, rotates)[0] == []
    ensures History(lines) == dropped + History(Settled(lines, rotates))
    ensures 3 in lines || dropped != [] ==> 3 in Settled(lines, rotates)
  {
    RotationKeepsLines(st, lines, maxBytes);
    RotationKeepsHistory(lines);
    hide HoldsLines, History;
    mid := if rotates then LogState(Rotated(st.disk), 0) else st;
    dropped := if rotates then Lost(lines) else [];
    assert History(lines) == [] + History(lines);
  }

  lemma SettledStep(st: LogState, op: Op, mid: LogState, maxBytes: int)
    requires 0 in st.disk && st.bytes == |st.disk[0]|
    requires mid == if Rotates(st, op, maxBytes) then LogState(Rotated(st.disk), 0) else st
    ensures 0 in mid.disk
    ensures op.Line? && !Rotates(st, op, maxBytes) && maxBytes > 0 ==> mid.bytes + |op.text| + 1 <= maxBytes
    ensures op.Reopen? ==> Apply(st, op, maxBytes) == mid
    ensures op.Line? ==> var line := op.text + "\n";
              Apply(st, op, maxBytes) == LogState(mid.disk[0 := mid.disk[0] + line], mid.bytes + |line|)
  {
    RotatedFiles(st.disk);
    assert 0 in Rotated(st.disk);
    hide Rotated;
  }

  lemma HoldsActive(st: LogState, lines: Disk<string>, maxBytes: int)
    requires HoldsLines(st, lines, maxBytes)
    ensures 0 in lines && 0 in st.disk && Content(lines, 0) == lines[0] && st.bytes == |st.disk[0]|
  {
  }

  /** One step of the log, told in lines. */
  lemma StepKeepsLines(st: LogState, lines: Disk<string>, op: Op, maxBytes: int)
    returns (lines': Disk<string>, dropped: seq<string>)
    requires HoldsLines(st, lines, maxBytes)
    ensures HoldsLines(Apply(st, op, maxBytes), lines', maxBytes)
    ensures History(lines) + OpLines(op) == dropped + History(lines')
    ensures 3 in lines || dropped != [] ==> 3 in lines'
    ensures FilledUp(lines, maxBytes) ==> FilledUp(lines', maxBytes)
  {
    hide *;
    var rotates := Rotates(st, op, maxBytes);
    HoldsActive(st, lines, maxBytes);
    var mid;
    mid, dropped := SettleKeepsLines(st, lines, rotates, maxBytes);
    SettledStep(st, op, mid, maxBytes);
    var base := Settled(lines, rotates);
    HoldsActive(mid, base, maxBytes);
    StaysFilled(st, lines, op, maxBytes);
    if op.Line? {
      AppendLine(mid, base, op.text, maxBytes);
      AppendKeepsHistory(base, [op.text]);
      lines' := base[0 := base[0] + [op.text]];
      Regroup(History(lines), [op.text], dropped, History(base), [], History(lines'));
      OneLine(op);
    } else {
      lines' := base;
      OneLine(op);
      assert History(lines) + [] == History(lines);
    }
  }

  lemma StaysFilled(st: LogState, lines: Disk<string>, op: Op, maxBytes: int)
    requires HoldsLines(st, lines, maxBytes)
    ensures var base := Settled(lines, Rotates(st, op, maxBytes));
            FilledUp(lines, maxBytes) && 0 in base ==>
              if op.Line? then FilledUp(base[0 := base[0] + [op.text]], maxBytes) else FilledUp(base, maxBytes)
  {
    hide FilledUp, Text;
    if FilledUp(lines, maxBytes) {
      if Rotates(st, op, maxBytes) {
        RotateFills(lines, maxBytes);
        assert op.Line? ==> Rotated(lines)[0] + [op.text] == [op.text];
      } else if op.Line? {
        AppendFills(lines, op.text, maxBytes);
      }
    }
  }

  lemma OneLine(op: Op)
    ensures OpLines(op) == if op.Line? then [op.text] else []
  {
  }

  /**
     From an empty disk, over any run, the log is whole lines:
     a dropped prefix, then .3, .2, .1 and the active file.
  */
  lemma {:induction false} FreshLogSplits(ops: seq<Op>, maxBytes: int)
    returns (lines: Disk<string>, dropped: seq<string>)
    ensures HoldsLines(Run(Opened(map[], maxBytes), ops, maxBytes), lines, maxBytes)
    ensures LinesWritten(ops) == dropped + History(lines)
    ensures dropped != [] ==> 3 in lines
    ensures FilledUp(lines, maxBytes)
  {
    if ops == [] {
      lines, dropped := map[0 := []], [];
      FreshHolds(maxBytes);
    } else {
      hide Apply, Opened, HoldsLines, History, FilledUp;
      var front, op := ops[..|ops| - 1], ops[|ops| - 1];
      var lines0, dropped0 := FreshLogSplits(front, maxBytes);
      var st := Run(Opened(map[], maxBytes), front, maxBytes);
      var more;
      lines, more := StepKeepsLines(st, lines0, op, maxBytes);
      dropped := dropped0 + more;
      Regroup(LinesWritten(front), OpLines(op), dropped0, History(lines0), more, History(lines));
    }
  }

  lemma FreshHolds(maxBytes: int)
    ensures HoldsLines(Opened(map[], maxBytes), map[0 := []], maxBytes)
    ensures History<string>(map[0 := []]) == []
  {
    assert Text([]) == "";
  }
}
