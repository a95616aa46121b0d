/**
 Descriptor tables and the reference counts of open files.

 A descriptor table is a row of addresses of file structures, 0 standing for a free
 slot.  Several slots, of one process or of several, may name the same file; the
 file counts them in `fdCounter`.  Opening, duplicating and cloning count up, the
 implicit close inside dup2 and dup3 counts down, close clears a slot without
 counting at all, and a newly created process names the standard streams without
 counting either.  Pipes, sockets, terminal connectors and fs_duplicate_fd also store a file
 in a slot uncounted; each such store is the step `Store`.
 */
module FdTable {
  import opened FileCommon
  import FileStream

  const OPEN_MAX := 32
  const EMFILE := 24
  const CLOSED := 4321

  type Addr = nat

  /** The files that every created process finds in its first three slots. */
  datatype Streams = Streams(stdin: Addr, stdout: Addr, stderr: Addr)

  datatype ObjectType = RegularFile | PipeFile | Socket | VirtualConsole | Tty | OtherObject

  /** `number` is the descriptor a file was last opened under; `hasSocket` says that a socket is attached. */
  datatype FileRec = FileRec(used: bool, magic: int, fdCounter: int, kind: ObjectType,
                             isDevice: bool, lbfsize: int, number: int, hasSocket: bool)

  datatype State = State(tables: seq<seq<Addr>>, files: map<Addr, FileRec>)

  datatype Op =
    | Dup(p: nat, oldfd: int)
    | Dup2(p: nat, oldfd: int, newfd: int)
    | Dup3(p: nat, oldfd: int, newfd: int)
    | Close(p: nat, fd: int)
    | OpenDevice(p: nat, dev: Addr)
    | OpenFile(p: nat, mem: Addr, size: nat, loads: bool)
    | Clone(p: nat, child: nat)
    | Create(p: nat, streams: Streams)
    | Store(p: nat, fd: int, a: Addr)

  ghost predicate WellFormed(s: State) {
    && (forall p :: 0 <= p < |s.tables| ==> |s.tables[p]| == OPEN_MAX)
    && 0 !in s.files
    && (forall p, fd :: 0 <= p < |s.tables| && 0 <= fd < OPEN_MAX && s.tables[p][fd] != 0 ==>
          s.tables[p][fd] in s.files)
  }

  /** The descriptors, over all processes, that name file f. */
  ghost function Names(s: State, f: Addr): set<(nat, nat)> {
    set p: nat, fd: nat | p < |s.tables| && fd < |s.tables[p]| && s.tables[p][fd] == f :: (p, fd)
  }

  /** No file has more descriptors than it counts. */
  ghost predicate Counted(s: State) {
    forall f :: f in s.files ==> |Names(s, f)| <= s.files[f].fdCounter
  }

  ghost predicate Intact(f: FileRec) {
    f.used && f.magic == MAGIC
  }

  /** No descriptor names a file that k_fclose has struck off. */
  ghost predicate Live(s: State)
    requires WellFormed(s)
  {
    forall p, fd :: 0 <= p < |s.tables| && 0 <= fd < OPEN_MAX && s.tables[p][fd] != 0 ==>
      Intact(s.files[s.tables[p][fd]])
  }

  ghost predicate Inv(s: State) {
    WellFormed(s) && Counted(s)
  }

  // ------------------------------------------------------------------ building blocks

  function SetSlot(s: State, p: nat, fd: nat, a: Addr): State
    requires p < |s.tables| && fd < |s.tables[p]|
  {
    var row: seq<Addr> := s.tables[p][fd := a];
    s.(tables := s.tables[p := row])
  }

  /** Store a file in a slot, count the new reference and note the number it goes by. */
  function Install(s: State, p: nat, fd: nat, a: Addr, number: int): State
    requires p < |s.tables| && fd < |s.tables[p]| && a in s.files
  {
    var f := s.files[a];
    SetSlot(s, p, fd, a).(files := s.files[a := f.(fdCounter := f.fdCounter + 1, number := number)])
  }

  /** The same for a second descriptor of an open file, whose number stays. */
  function Share(s: State, p: nat, fd: nat, a: Addr): State
    requires p < |s.tables| && fd < |s.tables[p]| && a in s.files
  {
    Install(s, p, fd, a, s.files[a].number)
  }

  function KFclose(f: FileRec): FileRec {
    if !f.used || f.magic != MAGIC then f else f.(magic := CLOSED)
  }

  /** Drop the reference in an occupied slot; the last one closes the file. */
  function Release(s: State, p: nat, fd: nat): State
    requires p < |s.tables| && fd < |s.tables[p]| && s.tables[p][fd] in s.files
  {
    var a := s.tables[p][fd];
    var f := s.files[a].(fdCounter := s.files[a].fdCounter - 1);
    SetSlot(s, p, fd, 0).(files := s.files[a := if f.fdCounter <= 0 then KFclose(f) else f])
  }

  /** The first free slot at or after i, or -1. */
  function FirstFree(table: seq<Addr>, i: nat): (r: int)
    ensures -1 <= r < |table|
    ensures r >= 0 ==> i <= r && table[r] == 0 && forall k :: i <= k < r ==> table[k] != 0
    ensures r == -1 ==> forall k :: i <= k < |table| ==> table[k] != 0
    decreases |table| - i
  {
    if i >= |table| then -1 else if table[i] == 0 then i else FirstFree(table, i + 1)
  }

  predicate InTable(fd: int) {
    0 <= fd < OPEN_MAX
  }

  // ------------------------------------------------------------------ the calls

  function SysDup(s: State, p: nat, oldfd: int): (State, int)
    requires WellFormed(s) && p < |s.tables|
  {
    if !InTable(oldfd) || s.tables[p][oldfd] == 0 then (s, -EBADF)
    else
      var newfd := FirstFree(s.tables[p], 0);
      if newfd < 0 then (s, -EMFILE) else (Share(s, p, newfd, s.tables[p][oldfd]), newfd)
  }

  /** What dup2 and dup3 share once their arguments are accepted. */
  function Redirect(s: State, p: nat, oldfd: nat, newfd: nat): State
    requires WellFormed(s) && p < |s.tables| && oldfd < OPEN_MAX && newfd < OPEN_MAX
    requires s.tables[p][oldfd] != 0
  {
    var a := s.tables[p][oldfd];
    if s.tables[p][newfd] != 0 then Share(Release(s, p, newfd), p, newfd, a)
    else Share(s, p, newfd, a)
  }

  function SysDup2(s: State, p: nat, oldfd: int, newfd: int): (State, int)
    requires WellFormed(s) && p < |s.tables|
  {
    if !InTable(oldfd) || !InTable(newfd) || s.tables[p][oldfd] == 0 then (s, -EBADF)
    else if oldfd == newfd then (s, newfd)
    else (Redirect(s, p, oldfd, newfd), newfd)
  }

  function SysDup3(s: State, p: nat, oldfd: int, newfd: int): (State, int)
    requires WellFormed(s) && p < |s.tables|
  {
    if !InTable(oldfd) || !InTable(newfd) then (s, -EBADF)
    else if oldfd == newfd then (s, -EINVAL)
    else if s.tables[p][oldfd] == 0 then (s, -EBADF)
    else (Redirect(s, p, oldfd, newfd), newfd)
  }

  /** __close_imp: sockets and consoles keep their slot, other supported types give it up. */
  function SysClose(s: State, p: nat, fd: int): (State, int)
    requires WellFormed(s) && p < |s.tables|
  {
    if !InTable(fd) || fd <= 2 then (s, -EBADF)
    else if s.tables[p][fd] == 0 then (s, -1)
    else
      var a := s.tables[p][fd];
      var f := s.files[a];
      if !f.used || f.magic != MAGIC then (s, -1)
      else match f.kind
        case Socket => (s, if f.hasSocket then 0 else -1)
        case VirtualConsole => (s, 0)
        case OtherObject => (s, -1)
        case RegularFile =>
          var saved := if f.lbfsize < 512 then s.files[a := f.(lbfsize := 512)] else s.files;
          (SetSlot(s, p, fd, 0).(files := saved), 0)
        case PipeFile => (SetSlot(s, p, fd, 0), 0)
        case Tty => (SetSlot(s, p, fd, 0), 0)
  }

  /** The device branch of __open_imp, for a device file the lookup has found. */
  function OpenDeviceFile(s: State, p: nat, dev: Addr): (State, int)
    requires WellFormed(s) && p < |s.tables|
  {
    if dev !in s.files || !s.files[dev].isDevice then (s, -1)
    else
      var fd := FirstFree(s.tables[p], 0);
      if fd < 0 then (s, -EMFILE) else (Install(s, p, fd, dev, fd), fd)
  }

  /**
   The descriptor part of do_read_file_from_disk; `mem` is what the allocator returned, `size` what
   the directory says, and `loads` whether the disk driver succeeds.
   */
  function OpenRegular(s: State, p: nat, mem: Addr, size: nat, loads: bool): (State, int)
    requires WellFormed(s) && p < |s.tables|
  {
    var fd := FirstFree(s.tables[p], 0);
    if fd < 0 || mem == 0 || mem in s.files || !FileStream.CanOpen(size) || !loads then (s, -1)
    else
      var rec := FileRec(true, MAGIC, 1, RegularFile, false, FileStream.BufferSize(size), fd, false);
      (SetSlot(s.(files := s.files[mem := rec]), p, fd, mem), fd)
  }

  /** Opening a name: the device it names, or else the file that is loaded from disk. */
  function SysOpen(s: State, p: nat, dev: Addr, mem: Addr, size: nat, loads: bool): (State, int)
    requires WellFormed(s) && p < |s.tables|
  {
    if dev in s.files && s.files[dev].isDevice then OpenDeviceFile(s, p, dev) else OpenRegular(s, p, mem, size, loads)
  }

  predicate StreamsExist(s: State, streams: Streams) {
    streams.stdin in s.files && streams.stdout in s.files && streams.stderr in s.files
  }

  /** The table of a new process: the standard streams, not counted; without them creation panics. */
  function CreateProcess(s: State, p: nat, streams: Streams): State
    requires p < |s.tables|
  {
    if !StreamsExist(s, streams) then s
    else
      var row := [streams.stdin, streams.stdout, streams.stderr] + seq(OPEN_MAX - 3, i => 0);
      s.(tables := s.tables[p := row])
  }

  /** A file put into a slot and not counted. */
  function StoreUncounted(s: State, p: nat, fd: int, a: Addr): State
    requires WellFormed(s) && p < |s.tables|
  {
    if !InTable(fd) || a !in s.files then s else SetSlot(s, p, fd, a)
  }

  /** fs_duplicate_fd: the first free slot at or after start, not counted. */
  function DuplicateFrom(s: State, p: nat, oldfd: int, start: int): (State, int)
    requires WellFormed(s) && p < |s.tables|
  {
    if !InTable(oldfd) then (s, -EBADF)
    else if !InTable(start) then (s, -EINVAL)
    else if s.tables[p][oldfd] == 0 || s.files[s.tables[p][oldfd]].magic != MAGIC then (s, -EBADF)
    else
      var newfd := FirstFree(s.tables[p], start);
      if newfd < 0 then (s, -EMFILE) else (StoreUncounted(s, p, newfd, s.tables[p][oldfd]), newfd)
  }

  /** The descriptor loop of process cloning, from slot i on. */
  function CloneFrom(s: State, p: nat, child: nat, i: nat): State
    requires WellFormed(s) && p < |s.tables| && child < |s.tables| && child != p && i <= OPEN_MAX
    decreases OPEN_MAX - i
  {
    if i == OPEN_MAX then s else CloneFrom(CloneSlot(s, p, child, i), p, child, i + 1)
  }

  function CloneSlot(s: State, p: nat, child: nat, i: nat): (s': State)
    requires WellFormed(s) && p < |s.tables| && child < |s.tables| && i < OPEN_MAX
    ensures WellFormed(s') && |s'.tables| == |s.tables|
  {
    var a := s.tables[p][i];
    if a == 0 then SetSlot(s, child, i, 0) else Share(s, child, i, a)
  }

  function Step(s: State, op: Op): State
    requires WellFormed(s)
  {
    if op.p >= |s.tables| then s
    else match op
      case Dup(p, oldfd) => SysDup(s, p, oldfd).0
      case Dup2(p, oldfd, newfd) => SysDup2(s, p, oldfd, newfd).0
      case Dup3(p, oldfd, newfd) => SysDup3(s, p, oldfd, newfd).0
      case Close(p, fd) => SysClose(s, p, fd).0
      case OpenDevice(p, dev) => OpenDeviceFile(s, p, dev).0
      case OpenFile(p, mem, size, loads) => OpenRegular(s, p, mem, size, loads).0
      case Clone(p, child) => if child >= |s.tables| || child == p then s else CloneFrom(s, p, child, 0)
      case Create(p, streams) => CreateProcess(s, p, streams)
      case Store(p, fd, a) => StoreUncounted(s, p, fd, a)
  }

  // ------------------------------------------------------------------ counting

  /** Overwriting a slot moves one descriptor from its old file to its new one. */
  lemma NamesAfterSet(s: State, p: nat, fd: nat, a: Addr, f: Addr)
    requires p < |s.tables| && fd < |s.tables[p]|
    ensures Names(SetSlot(s, p, fd, a), f) ==
      if a == f then Names(s, f) + {(p, fd)} else Names(s, f) - {(p, fd)}
  {
    var s' := SetSlot(s, p, fd, a);
    forall q: nat, d: nat
      ensures (q, d) in Names(s', f) <==> (q, d) in if a == f then Names(s, f) + {(p, fd)} else Names(s, f) - {(p, fd)}
    {
      if q < |s.tables| && d < |s.tables[q]| {
        assert (q, d) != (p, fd) ==> s'.tables[q][d] == s.tables[q][d];
      }
    }
  }

  lemma NamesIgnoresFiles(s: State, s': State, f: Addr)
    requires s.tables == s'.tables
    ensures Names(s, f) == Names(s', f)
  {
  }

  /** No call leaves a slot that names nothing. */
  lemma StepKeepsWellFormed(s: State, op: Op)
    requires WellFormed(s)
    ensures WellFormed(Step(s, op)) && |Step(s, op).tables| == |s.tables|
    ensures s.files.Keys <= Step(s, op).files.Keys
  {
    if op.p < |s.tables| {
      if op.Dup2? || op.Dup3? {
        RedirectKeepsWellFormed(s, op);
      } else if op.Clone? && op.child < |s.tables| && op.child != op.p {
        CloneKeepsWellFormed(s, op.p, op.child, 0);
      }
    }
  }

  lemma RedirectKeepsWellFormed(s: State, op: Op)
    requires WellFormed(s) && op.p < |s.tables| && (op.Dup2? || op.Dup3?)
    ensures WellFormed(Step(s, op)) && |Step(s, op).tables| == |s.tables|
    ensures Step(s, op).files.Keys == s.files.Keys
  {
  }

  lemma {:induction false} CloneKeepsWellFormed(s: State, p: nat, child: nat, i: nat)
    requires WellFormed(s) && p < |s.tables| && child < |s.tables| && child != p && i <= OPEN_MAX
    ensures WellFormed(CloneFrom(s, p, child, i)) && |CloneFrom(s, p, child, i).tables| == |s.tables|
    ensures CloneFrom(s, p, child, i).files.Keys == s.files.Keys
    decreases OPEN_MAX - i
  {
    if i < OPEN_MAX {
      CloneKeepsWellFormed(CloneSlot(s, p, child, i), p, child, i + 1);
    }
  }

  // ------------------------------------------------------------------ the exact count

  /** How many more references a file counts than there are descriptors naming it. */
  ghost function Slack(s: State, f: Addr): int
    requires f in s.files
  {
    s.files[f].fdCounter - |Names(s, f)|
  }

  /** Slots i to the last of a process. */
  ghost function RowFrom(p: nat, i: nat): set<(nat, nat)> {
    set fd: nat | i <= fd < OPEN_MAX :: (p, fd)
  }

  /** The call gets as far as clearing its slot. */
  predicate CloseClears(s: State, p: nat, fd: int)
    requires WellFormed(s) && p < |s.tables|
  {
    && 2 < fd < OPEN_MAX && s.tables[p][fd] != 0
    && var f := s.files[s.tables[p][fd]];
       f.used && f.magic == MAGIC && (f.kind.RegularFile? || f.kind.PipeFile? || f.kind.Tty?)
  }

  /** The descriptors that a call overwrites without counting them down. */
  ghost function Dropped(s: State, op: Op): set<(nat, nat)>
    requires WellFormed(s)
  {
    if op.p >= |s.tables| then {}
    else if op.Close? && CloseClears(s, op.p, op.fd) then {(op.p, op.fd)}
    else if op.Clone? && op.child < |s.tables| && op.child != op.p then RowFrom(op.child, 0)
    else if op.Create? && StreamsExist(s, op.streams) then RowFrom(op.p, 0)
    else if op.Store? && InTable(op.fd) && op.a in s.files then {(op.p, op.fd)}
    else {}
  }

  /** The descriptors of a new process that name f. */
  ghost function StreamSlots(p: nat, streams: Streams, f: Addr): set<(nat, nat)> {
    (if streams.stdin == f then {(p, 0)} else {})
    + (if streams.stdout == f then {(p, 1)} else {})
    + (if streams.stderr == f then {(p, 2)} else {})
  }

  /** The descriptors that a call makes name f without counting them up. */
  ghost function Uncounted(s: State, op: Op, f: Addr): set<(nat, nat)> {
    if op.p >= |s.tables| then {}
    else if op.Create? && StreamsExist(s, op.streams) then StreamSlots(op.p, op.streams, f)
    else if op.Store? && InTable(op.fd) && op.a in s.files && op.a == f then {(op.p, op.fd)}
    else {}
  }

  lemma OneOrNone(names: set<(nat, nat)>, d: (nat, nat))
    ensures |names * {d}| == if d in names then 1 else 0
    ensures |names + {d}| == |names| + 1 - |names * {d}|
    ensures |names - {d}| == |names| - |names * {d}|
  {
    assert names * {d} == if d in names then {d} else {};
    assert d in names ==> names + {d} == names;
    assert d !in names ==> names - {d} == names;
  }

  lemma InstallSlack(s: State, p: nat, fd: nat, a: Addr, number: int, f: Addr)
    requires WellFormed(s) && p < |s.tables| && fd < OPEN_MAX && a in s.files && f in s.files
    ensures Slack(Install(s, p, fd, a, number), f) == Slack(s, f) + |Names(s, f) * {(p, fd)}|
  {
    NamesAfterSet(s, p, fd, a, f);
    NamesIgnoresFiles(Install(s, p, fd, a, number), SetSlot(s, p, fd, a), f);
    OneOrNone(Names(s, f), (p, fd));
  }

  lemma ClearSlack(s: State, p: nat, fd: nat, f: Addr)
    requires WellFormed(s) && p < |s.tables| && fd < OPEN_MAX && f in s.files
    ensures Slack(SetSlot(s, p, fd, 0), f) == Slack(s, f) + |Names(s, f) * {(p, fd)}|
  {
    NamesAfterSet(s, p, fd, 0, f);
    OneOrNone(Names(s, f), (p, fd));
  }

  lemma ReleaseSlack(s: State, p: nat, fd: nat, f: Addr)
    requires WellFormed(s) && p < |s.tables| && fd < OPEN_MAX && f in s.files && s.tables[p][fd] != 0
    ensures Slack(Release(s, p, fd), f) == Slack(s, f)
  {
    var s' := Release(s, p, fd);
    assert (p, fd) in Names(s, f) <==> s.tables[p][fd] == f;
    assert s'.files[f].fdCounter == s.files[f].fdCounter - if s.tables[p][fd] == f then 1 else 0;
    NamesAfterSet(s, p, fd, 0, f);
    NamesIgnoresFiles(s', SetSlot(s, p, fd, 0), f);
    OneOrNone(Names(s, f), (p, fd));
  }

  /** Filling a slot that named nothing. */
  lemma FreeSlotSlack(s: State, p: nat, fd: nat, a: Addr, number: int, f: Addr)
    requires WellFormed(s) && p < |s.tables| && fd < OPEN_MAX && a in s.files && f in s.files
    requires s.tables[p][fd] == 0
    ensures Slack(Install(s, p, fd, a, number), f) == Slack(s, f)
  {
    InstallSlack(s, p, fd, a, number, f);
    OneOrNone(Names(s, f), (p, fd));
  }

  lemma RedirectSlack(s: State, p: nat, oldfd: nat, newfd: nat, f: Addr)
    requires WellFormed(s) && p < |s.tables| && oldfd < OPEN_MAX && newfd < OPEN_MAX
    requires s.tables[p][oldfd] != 0 && f in s.files
    ensures Slack(Redirect(s, p, oldfd, newfd), f) == Slack(s, f)
  {
    var a := s.tables[p][oldfd];
    if s.tables[p][newfd] != 0 {
      var s' := Release(s, p, newfd);
      ReleaseSlack(s, p, newfd, f);
      FreeSlotSlack(s', p, newfd, a, s'.files[a].number, f);
    } else {
      FreeSlotSlack(s, p, newfd, a, s.files[a].number, f);
    }
  }

  /** One slot of the cloning loop: the child's slot is overwritten, later ones keep their file. */
  lemma CloneSlotSlack(s: State, p: nat, child: nat, i: nat, f: Addr)
    requires WellFormed(s) && p < |s.tables| && child < |s.tables| && i < OPEN_MAX && f in s.files
    ensures f in CloneSlot(s, p, child, i).files
    ensures Slack(CloneSlot(s, p, child, i), f) == Slack(s, f) + |Names(s, f) * {(child, i)}|
    ensures Names(CloneSlot(s, p, child, i), f) - {(child, i)} == Names(s, f) - {(child, i)}
  {
    var a := s.tables[p][i];
    if a == 0 {
      ClearSlack(s, child, i, f);
    } else {
      InstallSlack(s, child, i, a, s.files[a].number, f);
    }
    NamesAfterSet(s, child, i, a, f);
    NamesIgnoresFiles(CloneSlot(s, p, child, i), SetSlot(s, child, i, a), f);
  }

  /** Taking the rest of a row one slot at a time. */
  lemma RowSplits(names: set<(nat, nat)>, after: set<(nat, nat)>, p: nat, i: nat)
    requires i < OPEN_MAX && after - {(p, i)} == names - {(p, i)}
    ensures |names * RowFrom(p, i)| == |names * {(p, i)}| + |after * RowFrom(p, i + 1)|
  {
    var rest := RowFrom(p, i + 1);
    assert (p, i) !in rest;
    assert RowFrom(p, i) == {(p, i)} + rest;
    assert after * rest == (after - {(p, i)}) * rest == (names - {(p, i)}) * rest == names * rest;
    assert names * RowFrom(p, i) == names * {(p, i)} + names * rest;
    assert (names * {(p, i)}) * (names * rest) == {};
  }

  lemma {:induction false} CloneSlack(s: State, p: nat, child: nat, i: nat, f: Addr)
    requires WellFormed(s) && p < |s.tables| && child < |s.tables| && child != p && i <= OPEN_MAX
    requires f in s.files
    ensures f in CloneFrom(s, p, child, i).files
    ensures Slack(CloneFrom(s, p, child, i), f) == Slack(s, f) + |Names(s, f) * RowFrom(child, i)|
    decreases OPEN_MAX - i
  {
    if i == OPEN_MAX {
      assert Names(s, f) * RowFrom(child, i) == {};
    } else {
      var s' := CloneSlot(s, p, child, i);
      CloneSlotSlack(s, p, child, i, f);
      RowSplits(Names(s, f), Names(s', f), child, i);
      CloneSlack(s', p, child, i + 1, f);
    }
  }

  lemma OpenSlack(s: State, p: nat, mem: Addr, size: nat, loads: bool, f: Addr)
    requires WellFormed(s) && p < |s.tables|
    requires f in OpenRegular(s, p, mem, size, loads).0.files
    ensures Slack(OpenRegular(s, p, mem, size, loads).0, f) == if f in s.files then Slack(s, f) else 0
  {
    var s' := OpenRegular(s, p, mem, size, loads).0;
    if s' != s {
      var fd := FirstFree(s.tables[p], 0);
      NamesAfterSet(s, p, fd, mem, f);
      NamesIgnoresFiles(s', SetSlot(s, p, fd, mem), f);
      OneOrNone(Names(s, f), (p, fd));
      assert f == mem ==> Names(s, f) == {};
    }
  }

  lemma CreateNames(s: State, p: nat, streams: Streams, f: Addr)
    requires WellFormed(s) && p < |s.tables| && StreamsExist(s, streams) && f != 0
    ensures Names(CreateProcess(s, p, streams), f) == (Names(s, f) - RowFrom(p, 0)) + StreamSlots(p, streams, f)
  {
    var s' := CreateProcess(s, p, streams);
    var want := (Names(s, f) - RowFrom(p, 0)) + StreamSlots(p, streams, f);
    forall q: nat, d: nat ensures (q, d) in Names(s', f) <==> (q, d) in want {
      if q != p && q < |s.tables| {
        assert s'.tables[q] == s.tables[q];
      }
    }
  }

  lemma CreateSlack(s: State, p: nat, streams: Streams, f: Addr)
    requires WellFormed(s) && p < |s.tables| && StreamsExist(s, streams) && f in s.files
    ensures Slack(CreateProcess(s, p, streams), f) ==
      Slack(s, f) + |Names(s, f) * RowFrom(p, 0)| - |StreamSlots(p, streams, f)|
  {
    CreateNames(s, p, streams, f);
    var names, row := Names(s, f), RowFrom(p, 0);
    assert names == (names - row) + names * row;
    assert (names - row) * (names * row) == {};
    assert StreamSlots(p, streams, f) <= row;
    assert (names - row) * StreamSlots(p, streams, f) == {};
  }

  /** A close that does not get that far changes nothing; one that does only clears the slot. */
  lemma CloseEffect(s: State, p: nat, fd: int)
    requires WellFormed(s) && p < |s.tables|
    ensures !CloseClears(s, p, fd) ==> SysClose(s, p, fd).0 == s && SysClose(s, p, fd).1 <= 0
    ensures CloseClears(s, p, fd) ==>
      && SysClose(s, p, fd).1 == 0
      && SysClose(s, p, fd).0.tables == SetSlot(s, p, fd, 0).tables
      && SysClose(s, p, fd).0.files.Keys == s.files.Keys
      && forall f :: f in s.files ==>
           SysClose(s, p, fd).0.files[f] ==
             if f == s.tables[p][fd] && s.files[f].kind == RegularFile && s.files[f].lbfsize < 512
             then s.files[f].(lbfsize := 512) else s.files[f]
  {
  }

  lemma CloseSlack(s: State, p: nat, fd: int, f: Addr)
    requires WellFormed(s) && p < |s.tables| && f in s.files
    ensures f in SysClose(s, p, fd).0.files
    ensures Slack(SysClose(s, p, fd).0, f) ==
      Slack(s, f) + if CloseClears(s, p, fd) then |Names(s, f) * {(p, fd as nat)}| else 0
  {
    CloseEffect(s, p, fd);
    if CloseClears(s, p, fd) {
      var s' := SysClose(s, p, fd).0;
      ClearSlack(s, p, fd, f);
      NamesIgnoresFiles(s', SetSlot(s, p, fd, 0), f);
    }
  }

  lemma OpenDeviceSlack(s: State, p: nat, dev: Addr, f: Addr)
    requires WellFormed(s) && p < |s.tables| && f in s.files
    ensures f in OpenDeviceFile(s, p, dev).0.files
    ensures Slack(OpenDeviceFile(s, p, dev).0, f) == Slack(s, f)
  {
    if dev in s.files && s.files[dev].isDevice && FirstFree(s.tables[p], 0) >= 0 {
      FreeSlotSlack(s, p, FirstFree(s.tables[p], 0), dev, FirstFree(s.tables[p], 0), f);
    }
  }

  lemma DupSlack(s: State, p: nat, oldfd: int, f: Addr)
    requires WellFormed(s) && p < |s.tables| && f in s.files
    ensures f in SysDup(s, p, oldfd).0.files
    ensures Slack(SysDup(s, p, oldfd).0, f) == Slack(s, f)
  {
    if InTable(oldfd) && s.tables[p][oldfd] != 0 && FirstFree(s.tables[p], 0) >= 0 {
      var a := s.tables[p][oldfd];
      FreeSlotSlack(s, p, FirstFree(s.tables[p], 0), a, s.files[a].number, f);
    }
  }

  lemma Dup2Slack(s: State, p: nat, oldfd: int, newfd: int, f: Addr)
    requires WellFormed(s) && p < |s.tables| && f in s.files
    ensures f in SysDup2(s, p, oldfd, newfd).0.files && f in SysDup3(s, p, oldfd, newfd).0.files
    ensures Slack(SysDup2(s, p, oldfd, newfd).0, f) == Slack(s, f)
    ensures Slack(SysDup3(s, p, oldfd, newfd).0, f) == Slack(s, f)
  {
    if InTable(oldfd) && InTable(newfd) && s.tables[p][oldfd] != 0 && oldfd != newfd {
      RedirectSlack(s, p, oldfd, newfd, f);
    }
  }

  /**
   What a call does to the surplus of a file: it grows by the descriptors naming it that are dropped
   and shrinks by those that are added, both uncounted.
   */
  ghost predicate SlackLaw(s: State, op: Op, f: Addr)
    requires WellFormed(s) && f in s.files
  {
    && f in Step(s, op).files
    && Slack(Step(s, op), f) == Slack(s, f) + |Names(s, f) * Dropped(s, op)| - |Uncounted(s, op, f)|
  }

  /** A call that drops nothing and adds nothing uncounted. */
  lemma CountingCall(s: State, op: Op, s': State, f: Addr)
    requires WellFormed(s) && f in s.files && s' == Step(s, op)
    requires Dropped(s, op) == {} && Uncounted(s, op, f) == {}
    requires f in s'.files && Slack(s', f) == Slack(s, f)
    ensures SlackLaw(s, op, f)
  {
    assert Names(s, f) * {} == {};
  }

  lemma DupLaw(s: State, op: Op, f: Addr)
    requires WellFormed(s) && f in s.files && op.p < |s.tables| && (op.Dup? || op.Dup2? || op.Dup3?)
    ensures SlackLaw(s, op, f)
  {
    if op.Dup? {
      DupSlack(s, op.p, op.oldfd, f);
      CountingCall(s, op, SysDup(s, op.p, op.oldfd).0, f);
    } else {
      Dup2Slack(s, op.p, op.oldfd, op.newfd, f);
      CountingCall(s, op, Step(s, op), f);
    }
  }

  lemma OpenLaw(s: State, op: Op, f: Addr)
    requires WellFormed(s) && f in s.files && op.p < |s.tables| && (op.OpenDevice? || op.OpenFile?)
    ensures SlackLaw(s, op, f)
  {
    if op.OpenDevice? {
      OpenDeviceSlack(s, op.p, op.dev, f);
      CountingCall(s, op, OpenDeviceFile(s, op.p, op.dev).0, f);
    } else {
      OpenSlack(s, op.p, op.mem, op.size, op.loads, f);
      CountingCall(s, op, OpenRegular(s, op.p, op.mem, op.size, op.loads).0, f);
    }
  }

  lemma CloseLaw(s: State, p: nat, fd: int, f: Addr)
    requires WellFormed(s) && f in s.files && p < |s.tables|
    ensures SlackLaw(s, Close(p, fd), f)
  {
    CloseSlack(s, p, fd, f);
    assert Names(s, f) * {} == {};
  }

  lemma CloneLaw(s: State, p: nat, child: nat, f: Addr)
    requires WellFormed(s) && f in s.files && p < |s.tables| && child < |s.tables| && child != p
    ensures SlackLaw(s, Clone(p, child), f)
  {
    var op := Clone(p, child);
    assert Step(s, op) == CloneFrom(s, p, child, 0);
    assert Dropped(s, op) == RowFrom(child, 0) && Uncounted(s, op, f) == {};
    CloneSlack(s, p, child, 0, f);
  }

  lemma CreateLaw(s: State, p: nat, streams: Streams, f: Addr)
    requires WellFormed(s) && f in s.files && p < |s.tables| && StreamsExist(s, streams)
    ensures SlackLaw(s, Create(p, streams), f)
  {
    CreateSlack(s, p, streams, f);
  }

  lemma StoreLaw(s: State, p: nat, fd: nat, a: Addr, f: Addr)
    requires WellFormed(s) && f in s.files && p < |s.tables| && fd < OPEN_MAX && a in s.files
    ensures SlackLaw(s, Store(p, fd, a), f)
  {
    var op := Store(p, fd, a);
    assert Step(s, op) == SetSlot(s, p, fd, a);
    assert Dropped(s, op) == {(p, fd)} && Uncounted(s, op, f) == if a == f then {(p, fd)} else {};
    NamesAfterSet(s, p, fd, a, f);
    OneOrNone(Names(s, f), (p, fd));
  }

  lemma StepSlack(s: State, op: Op, f: Addr)
    requires WellFormed(s) && f in s.files
    ensures SlackLaw(s, op, f)
  {
    if op.p >= |s.tables|
      || (op.Clone? && (op.child >= |s.tables| || op.child == op.p))
      || (op.Create? && !StreamsExist(s, op.streams))
      || (op.Store? && (!InTable(op.fd) || op.a !in s.files))
    {
      CountingCall(s, op, s, f);
    } else if op.Dup? || op.Dup2? || op.Dup3? {
      DupLaw(s, op, f);
    } else if op.OpenDevice? || op.OpenFile? {
      OpenLaw(s, op, f);
    } else {
      match op
      case Close(p, fd) => CloseLaw(s, p, fd, f);
      case Clone(p, child) => CloneLaw(s, p, child, f);
      case Create(p, streams) => CreateLaw(s, p, streams, f);
      case Store(p, fd, a) => StoreLaw(s, p, fd, a, f);
    }
  }

  /** A file that a call brings into being counts exactly its descriptors. */
  lemma NewFileSlack(s: State, op: Op, f: Addr)
    requires WellFormed(s) && f !in s.files && f in Step(s, op).files
    ensures Slack(Step(s, op), f) == 0
  {
    if op.OpenFile? {
      OpenSlack(s, op.p, op.mem, op.size, op.loads, f);
    } else if op.Clone? && op.p < |s.tables| && op.child < |s.tables| && op.child != op.p {
      CloneKeepsWellFormed(s, op.p, op.child, 0);
    }
  }

  /** Every file has surplus enough for the descriptors that the call adds without counting. */
  ghost predicate Spares(s: State, op: Op)
    requires WellFormed(s)
  {
    forall f :: f in s.files ==> |Uncounted(s, op, f)| <= Slack(s, f) + |Names(s, f) * Dropped(s, op)|
  }

  /** Only uncounted stores can break the counts, and they do exactly when a file has no surplus to spare. */
  lemma StepCountedIff(s: State, op: Op)
    requires Inv(s)
    ensures WellFormed(Step(s, op))
    ensures Counted(Step(s, op)) <==> Spares(s, op)
    ensures !op.Create? && !op.Store? ==> Spares(s, op)
  {
    var s' := Step(s, op);
    StepKeepsWellFormed(s, op);
    forall f | f in s.files
      ensures Slack(s', f) == Slack(s, f) + |Names(s, f) * Dropped(s, op)| - |Uncounted(s, op, f)|
    {
      StepSlack(s, op, f);
    }
    forall f | f in s'.files && f !in s.files ensures Slack(s', f) == 0 {
      NewFileSlack(s, op, f);
    }
    CountedBySlack(s);
    CountedBySlack(s');
    assert Counted(s') ==> Spares(s, op);
  }

  lemma CountedBySlack(s: State)
    ensures Counted(s) <==> forall f :: f in s.files ==> Slack(s, f) >= 0
  {
    if forall f :: f in s.files ==> Slack(s, f) >= 0 {
      forall f | f in s.files ensures |Names(s, f)| <= s.files[f].fdCounter {
        assert Slack(s, f) >= 0;
      }
    }
  }

  lemma StreamSlotsSize(p: nat, streams: Streams, f: Addr)
    requires streams.stdin != streams.stdout && streams.stdin != streams.stderr && streams.stdout != streams.stderr
    ensures |StreamSlots(p, streams, f)| ==
      if f == streams.stdin || f == streams.stdout || f == streams.stderr then 1 else 0
  {
    assert StreamSlots(p, streams, f) ==
      if f == streams.stdin then {(p, 0)} else if f == streams.stdout then {(p, 1)}
      else if f == streams.stderr then {(p, 2)} else {};
  }

  /**
   Creating a process in an empty row keeps the counts if and only if each of the three streams
   counts at least one more reference than it has descriptors.
   */
  lemma CreateCountedIff(s: State, p: nat, streams: Streams)
    requires Inv(s) && p < |s.tables| && StreamsExist(s, streams)
    requires forall fd :: 0 <= fd < OPEN_MAX ==> s.tables[p][fd] == 0
    requires streams.stdin != streams.stdout && streams.stdin != streams.stderr && streams.stdout != streams.stderr
    ensures WellFormed(Step(s, Create(p, streams)))
    ensures Counted(Step(s, Create(p, streams))) <==>
      Slack(s, streams.stdin) >= 1 && Slack(s, streams.stdout) >= 1 && Slack(s, streams.stderr) >= 1
  {
    var op := Create(p, streams);
    StepCountedIff(s, op);
    CountedBySlack(s);
    forall f | f in s.files
      ensures |Uncounted(s, op, f)| <= Slack(s, f) + |Names(s, f) * Dropped(s, op)| <==>
        (f == streams.stdin || f == streams.stdout || f == streams.stderr ==> Slack(s, f) >= 1)
    {
      CreateSparesAt(s, p, streams, f);
    }
  }

  lemma CreateSparesAt(s: State, p: nat, streams: Streams, f: Addr)
    requires Inv(s) && p < |s.tables| && StreamsExist(s, streams) && f in s.files && Slack(s, f) >= 0
    requires forall fd :: 0 <= fd < OPEN_MAX ==> s.tables[p][fd] == 0
    requires streams.stdin != streams.stdout && streams.stdin != streams.stderr && streams.stdout != streams.stderr
    ensures var op := Create(p, streams);
      |Uncounted(s, op, f)| <= Slack(s, f) + |Names(s, f) * Dropped(s, op)| <==>
        (f == streams.stdin || f == streams.stdout || f == streams.stderr ==> Slack(s, f) >= 1)
  {
    assert Names(s, f) * RowFrom(p, 0) == {};
    StreamSlotsSize(p, streams, f);
  }

  /** Storing a file in a free slot uncounted keeps the counts if and only if it counts more references than it has. */
  lemma StoreCountedIff(s: State, p: nat, fd: nat, a: Addr)
    requires Inv(s) && p < |s.tables| && fd < OPEN_MAX && s.tables[p][fd] == 0 && a in s.files
    ensures WellFormed(Step(s, Store(p, fd, a)))
    ensures Counted(Step(s, Store(p, fd, a))) <==> Slack(s, a) >= 1
  {
    var op := Store(p, fd, a);
    StepCountedIff(s, op);
    CountedBySlack(s);
    forall f | f in s.files
      ensures |Uncounted(s, op, f)| <= Slack(s, f) + |Names(s, f) * Dropped(s, op)| <==> (f == a ==> Slack(s, f) >= 1)
    {
      StoreSparesAt(s, p, fd, a, f);
    }
  }

  lemma StoreSparesAt(s: State, p: nat, fd: nat, a: Addr, f: Addr)
    requires Inv(s) && p < |s.tables| && fd < OPEN_MAX && s.tables[p][fd] == 0 && a in s.files
    requires f in s.files && Slack(s, f) >= 0
    ensures var op := Store(p, fd, a);
      |Uncounted(s, op, f)| <= Slack(s, f) + |Names(s, f) * Dropped(s, op)| <==> (f == a ==> Slack(s, f) >= 1)
  {
    assert Names(s, f) * {(p, fd)} == {};
  }

  /** An open that succeeds takes the lowest free descriptor; one that fails changes nothing; either is one step of a run. */
  lemma OpenEffect(s: State, p: nat, dev: Addr, mem: Addr, size: nat, loads: bool)
    requires WellFormed(s) && p < |s.tables|
    ensures var (s', r) := SysOpen(s, p, dev, mem, size, loads);
      && (r < 0 ==> s' == s)
      && (r >= 0 ==> r == FirstFree(s.tables[p], 0) && |s'.tables| == |s.tables| && r < |s'.tables[p]|
                     && s'.tables[p][r] == (if dev in s.files && s.files[dev].isDevice then dev else mem)
                     && s'.tables[p][r] in s'.files && s'.files[s'.tables[p][r]].number == r)
      && (s' == Step(s, OpenDevice(p, dev)) || s' == Step(s, OpenFile(p, mem, size, loads)))
  {
  }

  /** fs_duplicate_fd either fails and changes nothing or makes such a store; it never names a closed file. */
  lemma DuplicateIsStore(s: State, p: nat, oldfd: int, start: int)
    requires WellFormed(s) && p < |s.tables|
    ensures var (s', r) := DuplicateFrom(s, p, oldfd, start);
      && (r < 0 ==> s' == s)
      && (r >= 0 ==> InTable(oldfd) && start <= r < OPEN_MAX && s.tables[p][r] == 0 && s.tables[p][oldfd] in s.files
                     && s.files[s.tables[p][oldfd]].magic == MAGIC
                     && s' == Step(s, Store(p, r, s.tables[p][oldfd])))
  {
  }

  // ------------------------------------------------------------------ what each call does

  /** Slot fd of process p now holds a; every other slot of every process is as it was. */
  ghost predicate OnlySlot(s: State, s': State, p: nat, fd: int, a: Addr) {
    && |s'.tables| == |s.tables|
    && (forall q :: 0 <= q < |s.tables| ==> |s'.tables[q]| == |s.tables[q]|)
    && (forall q, d :: 0 <= q < |s.tables| && 0 <= d < |s.tables[q]| ==>
          s'.tables[q][d] == if q == p && d == fd then a else s.tables[q][d])
  }

  /** The files are the same ones with the same marks, and only the count of a has changed, by one up. */
  ghost predicate OnlyCountedUp(s: State, s': State, a: Addr) {
    && s'.files.Keys == s.files.Keys
    && (forall f :: f in s.files ==>
          && s'.files[f].fdCounter == s.files[f].fdCounter + (if f == a then 1 else 0)
          && SameMarks(s.files[f], s'.files[f]))
  }

  ghost predicate SameMarks(f: FileRec, g: FileRec) {
    f.used == g.used && f.magic == g.magic && f.kind == g.kind && f.isDevice == g.isDevice
  }

  /** The lowest free slot of a table. */
  ghost predicate LowestFree(table: seq<Addr>, fd: int) {
    0 <= fd < |table| && table[fd] == 0 && forall k :: 0 <= k < fd ==> table[k] != 0
  }

  ghost predicate Occupied(s: State, p: nat, fd: int) {
    p < |s.tables| && 0 <= fd < |s.tables[p]| && s.tables[p][fd] != 0
  }

  ghost predicate HasFree(s: State, p: nat)
    requires p < |s.tables|
  {
    exists fd :: 0 <= fd < |s.tables[p]| && s.tables[p][fd] == 0
  }

  /** dup: the lowest free descriptor comes to name the same file, which counts it; or an error and no change. */
  lemma DupEffect(s: State, p: nat, oldfd: int, s': State, r: int)
    requires WellFormed(s) && p < |s.tables| && (s', r) == SysDup(s, p, oldfd)
    ensures r >= 0 <==> Occupied(s, p, oldfd) && HasFree(s, p)
    ensures r >= 0 ==>
      && LowestFree(s.tables[p], r)
      && OnlySlot(s, s', p, r, s.tables[p][oldfd]) && OnlyCountedUp(s, s', s.tables[p][oldfd])
    ensures r < 0 ==> s' == s && r == if Occupied(s, p, oldfd) then -24 else -9
  {
  }

  /** What dup2 and dup3 do to the table. */
  lemma RedirectSlots(s: State, p: nat, oldfd: nat, newfd: nat)
    requires WellFormed(s) && p < |s.tables| && oldfd < OPEN_MAX && newfd < OPEN_MAX && s.tables[p][oldfd] != 0
    ensures OnlySlot(s, Redirect(s, p, oldfd, newfd), p, newfd, s.tables[p][oldfd])
  {
  }

  /**
   What they do to the files: the file joined counts one up and the one left behind one down; the latter is
   struck off if that leaves it none, and nothing else is.
   */
  lemma RedirectFiles(s: State, p: nat, oldfd: nat, newfd: nat, f: Addr)
    requires WellFormed(s) && p < |s.tables| && oldfd < OPEN_MAX && newfd < OPEN_MAX && s.tables[p][oldfd] != 0
    requires f in s.files
    ensures var s' := Redirect(s, p, oldfd, newfd);
      && f in s'.files
      && s'.files[f].fdCounter == s.files[f].fdCounter
           + (if f == s.tables[p][oldfd] then 1 else 0) - (if f == s.tables[p][newfd] then 1 else 0)
      && (f == s.tables[p][newfd] && s.files[f].fdCounter <= 1 && Intact(s.files[f]) ==> s'.files[f].magic == 4321)
      && (!(f == s.tables[p][newfd] && s.files[f].fdCounter <= 1) ==> SameMarks(s.files[f], s'.files[f]))
  {
  }

  /** dup2: newfd joins oldfd; a descriptor duplicated onto itself stays as it is; or EBADF and no change. */
  lemma Dup2Effect(s: State, p: nat, oldfd: int, newfd: int, s': State, r: int)
    requires WellFormed(s) && p < |s.tables| && (s', r) == SysDup2(s, p, oldfd, newfd)
    ensures r == if Occupied(s, p, oldfd) && 0 <= newfd < 32 then newfd else -9
    ensures r >= 0 && oldfd != newfd ==> OnlySlot(s, s', p, newfd, s.tables[p][oldfd])
    ensures r < 0 || oldfd == newfd ==> s' == s
  {
    if r >= 0 && oldfd != newfd {
      RedirectSlots(s, p, oldfd, newfd);
    }
  }

  /** dup3: the same, except that duplicating a descriptor onto itself is EINVAL. */
  lemma Dup3Effect(s: State, p: nat, oldfd: int, newfd: int, s': State, r: int)
    requires WellFormed(s) && p < |s.tables| && (s', r) == SysDup3(s, p, oldfd, newfd)
    ensures r == if 0 <= oldfd == newfd < 32 then -22
                 else if Occupied(s, p, oldfd) && 0 <= newfd < 32 then newfd else -9
    ensures r >= 0 ==> OnlySlot(s, s', p, newfd, s.tables[p][oldfd])
    ensures r < 0 ==> s' == s
  {
    if r >= 0 {
      RedirectSlots(s, p, oldfd, newfd);
    }
  }

  /** Sockets and consoles stay in their slot. */
  ghost predicate KeepsSlot(s: State, p: nat, fd: int)
    requires WellFormed(s)
  {
    && Occupied(s, p, fd) && fd >= 3
    && var f := s.files[s.tables[p][fd]];
       Intact(f) && ((f.kind.Socket? && f.hasSocket) || f.kind.VirtualConsole?)
  }

  /** What close answers: 0 if it freed the slot or the object keeps its slot, else an error. */
  lemma CloseResult(s: State, p: nat, fd: int)
    requires WellFormed(s) && p < |s.tables|
    ensures var r := SysClose(s, p, fd).1;
      && (r == -9 <==> fd < 3 || fd >= 32)
      && (r == 0 || r == -1 || r == -9)
      && (r == 0 <==> CloseClears(s, p, fd) || KeepsSlot(s, p, fd))
  {
  }

  /** Cloning: the child's row becomes the parent's, all other rows stay. */
  lemma {:induction false} CloneCopies(s: State, p: nat, child: nat, i: nat, s': State)
    requires WellFormed(s) && p < |s.tables| && child < |s.tables| && child != p && i <= OPEN_MAX
    requires s' == CloneFrom(s, p, child, i)
    ensures |s'.tables| == |s.tables| && |s'.tables[child]| == OPEN_MAX
    ensures forall k :: i <= k < OPEN_MAX ==> s'.tables[child][k] == s.tables[p][k]
    ensures forall k :: 0 <= k < i ==> s'.tables[child][k] == s.tables[child][k]
    ensures forall q :: 0 <= q < |s.tables| && q != child ==> s'.tables[q] == s.tables[q]
    decreases OPEN_MAX - i
  {
    if i < OPEN_MAX {
      var s1 := CloneSlot(s, p, child, i);
      CloneSlotSets(s, p, child, i, s1);
      CloneCopies(s1, p, child, i + 1, s');
    }
  }

  lemma CloneSlotSets(s: State, p: nat, child: nat, i: nat, s': State)
    requires WellFormed(s) && p < |s.tables| && child < |s.tables| && i < OPEN_MAX && s' == CloneSlot(s, p, child, i)
    ensures OnlySlot(s, s', child, i, s.tables[p][i])
    ensures forall q :: 0 <= q < |s.tables| && q != child ==> s'.tables[q] == s.tables[q]
  {
  }

  /** A new process: the three streams in slots 0 to 2, nothing else; no other row and no file changes. */
  lemma CreateEffect(s: State, p: nat, streams: Streams, s': State)
    requires WellFormed(s) && p < |s.tables| && StreamsExist(s, streams) && s' == CreateProcess(s, p, streams)
    ensures s'.files == s.files && |s'.tables| == |s.tables| && |s'.tables[p]| == OPEN_MAX
    ensures s'.tables[p][0] == streams.stdin && s'.tables[p][1] == streams.stdout && s'.tables[p][2] == streams.stderr
    ensures forall fd :: 3 <= fd < OPEN_MAX ==> s'.tables[p][fd] == 0
    ensures forall q :: 0 <= q < |s.tables| && q != p ==> s'.tables[q] == s.tables[q]
  {
  }

  /** Opening a device: the lowest free descriptor names it and it counts it; or an error and no change. */
  lemma OpenDeviceEffect(s: State, p: nat, dev: Addr, s': State, r: int)
    requires WellFormed(s) && p < |s.tables| && (s', r) == OpenDeviceFile(s, p, dev)
    ensures r >= 0 <==> dev in s.files && s.files[dev].isDevice && HasFree(s, p)
    ensures r >= 0 ==> LowestFree(s.tables[p], r) && OnlySlot(s, s', p, r, dev) && OnlyCountedUp(s, s', dev)
    ensures r >= 0 ==> s'.files[dev].number == r
    ensures r < 0 ==> s' == s && r == if dev in s.files && s.files[dev].isDevice then -24 else -1
  {
  }

  /** Opening a file: a new structure, intact and counted once, in the lowest free slot; no other file changes. */
  lemma OpenFileEffect(s: State, p: nat, mem: Addr, size: nat, loads: bool, s': State, r: int)
    requires WellFormed(s) && p < |s.tables| && (s', r) == OpenRegular(s, p, mem, size, loads)
    ensures r >= 0 <==> HasFree(s, p) && mem != 0 && mem !in s.files && 1 <= size <= 8192 && loads
    ensures r >= 0 ==>
      && LowestFree(s.tables[p], r) && OnlySlot(s, s', p, r, mem)
      && s'.files.Keys == s.files.Keys + {mem} && (forall f :: f in s.files ==> s'.files[f] == s.files[f])
      && Intact(s'.files[mem]) && s'.files[mem].fdCounter == 1 && s'.files[mem].kind == RegularFile
      && !s'.files[mem].isDevice && s'.files[mem].number == r
      && s'.files[mem].lbfsize == if size < 1024 then 1024 else size + 8
    ensures r < 0 ==> s' == s && r == -1
  {
  }

  /** fs_duplicate_fd: the first free descriptor from start on names the same file, and no file changes. */
  lemma DuplicateEffect(s: State, p: nat, oldfd: int, start: int, s': State, r: int)
    requires WellFormed(s) && p < |s.tables| && (s', r) == DuplicateFrom(s, p, oldfd, start)
    ensures r >= 0 ==>
      && Occupied(s, p, oldfd) && start <= r < 32 && s.tables[p][r] == 0
      && (forall k :: start <= k < r ==> s.tables[p][k] != 0)
      && OnlySlot(s, s', p, r, s.tables[p][oldfd]) && s'.files == s.files
    ensures r < 0 ==> s' == s
    ensures r < 0 ==>
      r == (if !(0 <= oldfd < 32) then -9
            else if !(0 <= start < 32) then -22
            else if Occupied(s, p, oldfd) && s.files[s.tables[p][oldfd]].magic == 1234 then -24 else -9)
    ensures r == -24 ==> forall k :: start <= k < 32 ==> s.tables[p][k] != 0
  {
  }

  // ------------------------------------------------------------------ closed files

  /** Descriptors other than (p, fd) name only files that are intact. */
  ghost predicate LiveElsewhere(s: State, p: nat, fd: nat)
    requires WellFormed(s)
  {
    forall q, d :: 0 <= q < |s.tables| && 0 <= d < OPEN_MAX && (q, d) != (p, fd) && s.tables[q][d] != 0 ==>
      Intact(s.files[s.tables[q][d]])
  }

  lemma InstallLiveIff(s: State, p: nat, fd: nat, a: Addr, number: int)
    requires WellFormed(s) && p < |s.tables| && fd < OPEN_MAX && a in s.files
    ensures WellFormed(Install(s, p, fd, a, number))
    ensures Live(Install(s, p, fd, a, number)) <==> Intact(s.files[a]) && LiveElsewhere(s, p, fd)
  {
    var s' := Install(s, p, fd, a, number);
    assert s'.tables[p][fd] == a && a != 0;
    forall q, d | 0 <= q < |s'.tables| && 0 <= d < OPEN_MAX && (q, d) != (p, fd)
      ensures s'.tables[q][d] == s.tables[q][d]
    {
    }
  }

  /** The slot holds the last counted reference to its file, and yet another descriptor names it. */
  ghost predicate SharedLast(s: State, p: nat, fd: nat)
    requires WellFormed(s) && p < |s.tables| && fd < OPEN_MAX
  {
    && s.tables[p][fd] != 0
    && s.files[s.tables[p][fd]].fdCounter <= 1
    && Names(s, s.tables[p][fd]) - {(p, fd)} != {}
  }

  /** Releasing a slot leaves the other descriptors on intact files unless it was the last counted one of several. */
  lemma ReleaseLiveIff(s: State, p: nat, fd: nat)
    requires WellFormed(s) && Live(s) && p < |s.tables| && fd < OPEN_MAX && s.tables[p][fd] != 0
    ensures WellFormed(Release(s, p, fd))
    ensures LiveElsewhere(Release(s, p, fd), p, fd) <==> !SharedLast(s, p, fd)
  {
    var s', v := Release(s, p, fd), s.tables[p][fd];
    forall q, d | 0 <= q < |s'.tables| && 0 <= d < OPEN_MAX && (q, d) != (p, fd)
      ensures s'.tables[q][d] == s.tables[q][d]
      ensures s.tables[q][d] == v ==> (q, d) in Names(s, v) - {(p, fd)}
    {
    }
    if d :| d in Names(s, v) - {(p, fd)} {
      assert s'.tables[d.0][d.1] == v;
    }
  }

  /** dup2 and dup3, also when both descriptors already name the same file. */
  lemma RedirectLiveIff(s: State, p: nat, oldfd: nat, newfd: nat)
    requires WellFormed(s) && Live(s) && p < |s.tables| && oldfd < OPEN_MAX && newfd < OPEN_MAX
    requires s.tables[p][oldfd] != 0 && oldfd != newfd
    ensures WellFormed(Redirect(s, p, oldfd, newfd))
    ensures Live(Redirect(s, p, oldfd, newfd)) <==> !SharedLast(s, p, newfd)
  {
    var a := s.tables[p][oldfd];
    var s' := if s.tables[p][newfd] != 0 then Release(s, p, newfd) else s;
    if s.tables[p][newfd] != 0 {
      ReleaseLiveIff(s, p, newfd);
    }
    assert s'.tables[p][oldfd] == a;
    InstallLiveIff(s', p, newfd, a, s'.files[a].number);
  }

  lemma {:induction false} CloneKeepsLive(s: State, p: nat, child: nat, i: nat)
    requires WellFormed(s) && Live(s) && p < |s.tables| && child < |s.tables| && child != p && i <= OPEN_MAX
    ensures WellFormed(CloneFrom(s, p, child, i)) && Live(CloneFrom(s, p, child, i))
    decreases OPEN_MAX - i
  {
    if i < OPEN_MAX {
      var a := s.tables[p][i];
      if a != 0 {
        InstallLiveIff(s, child, i, a, s.files[a].number);
      }
      CloneKeepsLive(CloneSlot(s, p, child, i), p, child, i + 1);
    }
  }

  /** The call opens, into a free slot, a device whose file has been closed for good. */
  ghost predicate ReopensClosedDevice(s: State, op: Op)
    requires WellFormed(s)
  {
    && op.OpenDevice? && op.p < |s.tables|
    && op.dev in s.files && s.files[op.dev].isDevice && !Intact(s.files[op.dev])
    && FirstFree(s.tables[op.p], 0) >= 0
  }

  /** The call redirects a descriptor whose file counts it as the last one although others name it. */
  ghost predicate StrikesSharedFile(s: State, op: Op)
    requires WellFormed(s)
  {
    && (op.Dup2? || op.Dup3?) && op.p < |s.tables|
    && InTable(op.oldfd) && InTable(op.newfd) && op.oldfd != op.newfd && s.tables[op.p][op.oldfd] != 0
    && SharedLast(s, op.p, op.newfd)
  }

  /** The call creates a process although one of the standard streams has been closed. */
  ghost predicate InheritsClosedStream(s: State, op: Op)
    requires WellFormed(s)
  {
    && op.Create? && op.p < |s.tables| && StreamsExist(s, op.streams)
    && !(Intact(s.files[op.streams.stdin]) && Intact(s.files[op.streams.stdout]) && Intact(s.files[op.streams.stderr]))
  }

  /** The call stores a closed file. */
  ghost predicate StoresClosedFile(s: State, op: Op)
    requires WellFormed(s)
  {
    op.Store? && op.p < |s.tables| && InTable(op.fd) && op.a in s.files && !Intact(s.files[op.a])
  }

  ghost predicate Endangers(s: State, op: Op)
    requires WellFormed(s)
  {
    ReopensClosedDevice(s, op) || StrikesSharedFile(s, op) || InheritsClosedStream(s, op) || StoresClosedFile(s, op)
  }

  lemma StoreLiveIff(s: State, p: nat, fd: int, a: Addr)
    requires WellFormed(s) && Live(s) && p < |s.tables|
    ensures WellFormed(StoreUncounted(s, p, fd, a))
    ensures Live(StoreUncounted(s, p, fd, a)) <==> !StoresClosedFile(s, Store(p, fd, a))
  {
    if InTable(fd) && a in s.files {
      var s' := SetSlot(s, p, fd, a);
      assert s'.tables[p][fd] == a && a != 0;
      forall q, d | 0 <= q < |s'.tables| && 0 <= d < OPEN_MAX && (q, d) != (p, fd)
        ensures s'.tables[q][d] == s.tables[q][d]
      {
      }
    }
  }

  lemma CreateLiveIff(s: State, p: nat, streams: Streams)
    requires WellFormed(s) && Live(s) && p < |s.tables|
    ensures WellFormed(CreateProcess(s, p, streams))
    ensures Live(CreateProcess(s, p, streams)) <==> !InheritsClosedStream(s, Create(p, streams))
  {
    if StreamsExist(s, streams) {
      var s' := CreateProcess(s, p, streams);
      assert s'.tables[p][0] == streams.stdin && s'.tables[p][1] == streams.stdout && s'.tables[p][2] == streams.stderr;
      forall q | 0 <= q < |s.tables| && q != p ensures s'.tables[q] == s.tables[q] {
      }
    }
  }

  lemma DupKeepsLive(s: State, p: nat, oldfd: int)
    requires WellFormed(s) && Live(s) && p < |s.tables|
    ensures WellFormed(SysDup(s, p, oldfd).0) && Live(SysDup(s, p, oldfd).0)
  {
    if InTable(oldfd) && s.tables[p][oldfd] != 0 && FirstFree(s.tables[p], 0) >= 0 {
      var a := s.tables[p][oldfd];
      InstallLiveIff(s, p, FirstFree(s.tables[p], 0), a, s.files[a].number);
    }
  }

  lemma OpenDeviceLiveIff(s: State, p: nat, dev: Addr)
    requires WellFormed(s) && Live(s) && p < |s.tables|
    ensures WellFormed(OpenDeviceFile(s, p, dev).0)
    ensures Live(OpenDeviceFile(s, p, dev).0) <==> !ReopensClosedDevice(s, OpenDevice(p, dev))
  {
    var fd := FirstFree(s.tables[p], 0);
    if dev in s.files && s.files[dev].isDevice && fd >= 0 {
      InstallLiveIff(s, p, fd, dev, fd);
    }
  }

  lemma OpenFileKeepsLive(s: State, p: nat, mem: Addr, size: nat, loads: bool)
    requires WellFormed(s) && Live(s) && p < |s.tables|
    ensures WellFormed(OpenRegular(s, p, mem, size, loads).0) && Live(OpenRegular(s, p, mem, size, loads).0)
  {
  }

  lemma CloseKeepsLive(s: State, p: nat, fd: int)
    requires WellFormed(s) && Live(s) && p < |s.tables|
    ensures WellFormed(SysClose(s, p, fd).0) && Live(SysClose(s, p, fd).0)
  {
  }

  lemma Dup2LiveIff(s: State, op: Op)
    requires WellFormed(s) && Live(s) && op.p < |s.tables| && (op.Dup2? || op.Dup3?)
    ensures WellFormed(Step(s, op))
    ensures Live(Step(s, op)) <==> !Endangers(s, op)
  {
    if InTable(op.oldfd) && InTable(op.newfd) && s.tables[op.p][op.oldfd] != 0 && op.oldfd != op.newfd {
      RedirectLiveIff(s, op.p, op.oldfd, op.newfd);
    }
  }

  /**
   A call makes some descriptor name a closed file if and only if it reopens a closed device, strikes
   off a file that others still name, or gives a new process a closed stream or a slot a closed file.
   */
  lemma StepLiveIff(s: State, op: Op)
    requires WellFormed(s) && Live(s)
    ensures WellFormed(Step(s, op))
    ensures Live(Step(s, op)) <==> !Endangers(s, op)
  {
    if op.p < |s.tables| {
      var p := op.p;
      match op
      case Dup(_, oldfd) => DupKeepsLive(s, p, oldfd);
      case Dup2(_, _, _) => Dup2LiveIff(s, op);
      case Dup3(_, _, _) => Dup2LiveIff(s, op);
      case Close(_, fd) => CloseKeepsLive(s, p, fd);
      case OpenDevice(_, dev) => OpenDeviceLiveIff(s, p, dev);
      case OpenFile(_, mem, size, loads) => OpenFileKeepsLive(s, p, mem, size, loads);
      case Clone(_, child) =>
        if child < |s.tables| && child != p {
          CloneKeepsLive(s, p, child, 0);
        }
      case Create(_, streams) => CreateLiveIff(s, p, streams);
      case Store(_, fd, a) => StoreLiveIff(s, p, fd, a);
    }
  }

  /** As long as every file counts all its descriptors, the last counted one is the only one. */
  lemma CountedNeverStrikes(s: State, op: Op)
    requires Inv(s)
    ensures !StrikesSharedFile(s, op)
  {
    if StrikesSharedFile(s, op) {
      var d: (nat, nat) := (op.p, op.newfd);
      var v := s.tables[op.p][op.newfd];
      var other :| other in Names(s, v) - {d};
      PairIsTwo(Names(s, v), d, other);
    }
  }

  lemma PairIsTwo(names: set<(nat, nat)>, a: (nat, nat), b: (nat, nat))
    requires a in names && b in names && a != b
    ensures |names| >= 2
  {
    assert |{a, b}| == 2;
    assert names == (names - {a, b}) + {a, b};
  }

  // ------------------------------------------------------------------ every run

  lemma NextIsWellFormed(s: State, ops: seq<Op>)
    requires WellFormed(s)
    ensures ops != [] ==> WellFormed(Step(s, ops[0]))
  {
    if ops != [] {
      StepKeepsWellFormed(s, ops[0]);
    }
  }

  ghost function Run(s: State, ops: seq<Op>): State
    requires WellFormed(s)
    decreases |ops|
  {
    NextIsWellFormed(s, ops);
    if ops == [] then s else Run(Step(s, ops[0]), ops[1..])
  }

  ghost predicate AlwaysCounted(s: State, ops: seq<Op>)
    requires WellFormed(s)
    decreases |ops|
  {
    NextIsWellFormed(s, ops);
    Counted(s) && (ops != [] ==> AlwaysCounted(Step(s, ops[0]), ops[1..]))
  }

  ghost predicate AlwaysSpares(s: State, ops: seq<Op>)
    requires WellFormed(s)
    decreases |ops|
  {
    NextIsWellFormed(s, ops);
    ops != [] ==> Spares(s, ops[0]) && AlwaysSpares(Step(s, ops[0]), ops[1..])
  }

  /**
   Over every run, by any processes, no file has more descriptors than it counts, if and only if
   whenever one is stored uncounted its file has a count to spare.
   */
  lemma {:induction false} RunCountedIff(s: State, ops: seq<Op>)
    requires Inv(s)
    ensures AlwaysCounted(s, ops) <==> AlwaysSpares(s, ops)
    decreases |ops|
  {
    if ops != [] {
      StepCountedIff(s, ops[0]);
      if Counted(Step(s, ops[0])) {
        RunCountedIff(Step(s, ops[0]), ops[1..]);
      }
    }
  }

  ghost predicate CountsAll(ops: seq<Op>) {
    forall i :: 0 <= i < |ops| ==> !ops[i].Create? && !ops[i].Store?
  }

  /** So a run that creates no process and stores nothing uncounted keeps the counts. */
  lemma {:induction false} RunIsCounted(s: State, ops: seq<Op>)
    requires Inv(s) && CountsAll(ops)
    ensures AlwaysSpares(s, ops) && Inv(Run(s, ops))
    decreases |ops|
  {
    if ops != [] {
      StepCountedIff(s, ops[0]);
      RunIsCounted(Step(s, ops[0]), ops[1..]);
    }
  }

  /** The descriptors naming f that a run drops, less those it adds uncounted. */
  ghost function Drift(s: State, ops: seq<Op>, f: Addr): int
    requires WellFormed(s)
    decreases |ops|
  {
    NextIsWellFormed(s, ops);
    if ops == [] then 0
    else |Names(s, f) * Dropped(s, ops[0])| - |Uncounted(s, ops[0], f)| + Drift(Step(s, ops[0]), ops[1..], f)
  }

  /**
   The exact reference count over every run from any tables: a file counts its descriptors, plus those
   that were dropped uncounted, less those that were stored uncounted, on top of the surplus it had.
   */
  lemma {:induction false} RunSlack(s: State, ops: seq<Op>, f: Addr)
    requires WellFormed(s) && f in s.files
    ensures f in Run(s, ops).files
    ensures Run(s, ops).files[f].fdCounter == |Names(Run(s, ops), f)| + Slack(s, f) + Drift(s, ops, f)
    decreases |ops|
  {
    if ops != [] {
      StepKeepsWellFormed(s, ops[0]);
      StepSlack(s, ops[0], f);
      RunSlack(Step(s, ops[0]), ops[1..], f);
    }
  }

  ghost predicate AlwaysLive(s: State, ops: seq<Op>)
    requires WellFormed(s)
    decreases |ops|
  {
    NextIsWellFormed(s, ops);
    Live(s) && (ops != [] ==> AlwaysLive(Step(s, ops[0]), ops[1..]))
  }

  ghost predicate NeverEndangers(s: State, ops: seq<Op>)
    requires WellFormed(s)
    decreases |ops|
  {
    NextIsWellFormed(s, ops);
    ops != [] ==> !Endangers(s, ops[0]) && NeverEndangers(Step(s, ops[0]), ops[1..])
  }

  /**
   A run of any length, by any processes, from any tables that name no closed file, keeps every
   descriptor off closed files throughout if and only if none of its calls endangers them.
   */
  lemma {:induction false} RunLiveIff(s: State, ops: seq<Op>)
    requires WellFormed(s) && Live(s)
    ensures AlwaysLive(s, ops) <==> NeverEndangers(s, ops)
    decreases |ops|
  {
    if ops != [] {
      StepLiveIff(s, ops[0]);
      if Live(Step(s, ops[0])) {
        RunLiveIff(Step(s, ops[0]), ops[1..]);
      }
    }
  }

  ghost predicate NeverReopens(s: State, ops: seq<Op>)
    requires WellFormed(s)
    decreases |ops|
  {
    NextIsWellFormed(s, ops);
    ops != [] ==> !ReopensClosedDevice(s, ops[0]) && NeverReopens(Step(s, ops[0]), ops[1..])
  }

  /** From tables whose files are counted, as long as every store is counted, only reopened devices matter. */
  lemma {:induction false} CountedRunLiveIff(s: State, ops: seq<Op>)
    requires Inv(s) && Live(s) && CountsAll(ops)
    ensures AlwaysLive(s, ops) <==> NeverReopens(s, ops)
    decreases |ops|
  {
    if ops != [] {
      CountedNeverStrikes(s, ops[0]);
      StepLiveIff(s, ops[0]);
      StepCountedIff(s, ops[0]);
      if Live(Step(s, ops[0])) {
        CountedRunLiveIff(Step(s, ops[0]), ops[1..]);
      }
    }
  }

  // ------------------------------------------------------------------ two runs that go wrong

  lemma RunOfThree(s: State, a: Op, b: Op, c: Op)
    requires WellFormed(s)
    ensures WellFormed(Step(s, a)) && WellFormed(Step(Step(s, a), b))
    ensures Run(s, [a, b, c]) == Step(Step(Step(s, a), b), c)
  {
    StepKeepsWellFormed(s, a);
    StepKeepsWellFormed(Step(s, a), b);
    StepKeepsWellFormed(Step(Step(s, a), b), c);
    assert [a, b, c][1..] == [b, c] && [b, c][1..] == [c] && [c][1..] == [];
    assert Run(s, [a, b, c]) == Run(Step(s, a), [b, c]);
    assert Run(Step(s, a), [b, c]) == Run(Step(Step(s, a), b), [c]);
  }

  function Terminal(count: int, isDevice: bool): FileRec {
    FileRec(true, MAGIC, count, Tty, isDevice, 1024, 0, false)
  }

  /** One process with an intact file in slot 0 only, and a device that nobody has opened. */
  ghost predicate OneProcess(s: State) {
    && WellFormed(s) && |s.tables| == 1 && s.files.Keys == {1, 2}
    && s.tables[0][0] == 1 && (forall fd :: 1 <= fd < OPEN_MAX ==> s.tables[0][fd] == 0)
    && s.files[1] == Terminal(1, false) && s.files[2] == Terminal(0, true)
  }

  lemma OneProcessIsCounted(s: State)
    requires OneProcess(s)
    ensures Inv(s) && Live(s)
  {
    assert Names(s, 1) == {(0, 0)};
    assert Names(s, 2) == {};
  }

  lemma FirstFreeIs(table: seq<Addr>, k: nat)
    requires k < |table| && table[k] == 0 && forall i :: 0 <= i < k ==> table[i] != 0
    ensures FirstFree(table, 0) == k
  {
    var r := FirstFree(table, 0);
    assert r >= 0;
  }

  /** Opening a device, redirecting over it, and opening it again leaves descriptor 2 on a closed file. */
  lemma ReopenedDeviceIsDead(s: State)
    requires OneProcess(s)
    ensures Inv(s) && Live(s)
    ensures var s' := Run(s, [OpenDevice(0, 2), Dup2(0, 0, 1), OpenDevice(0, 2)]);
      && |s'.tables| == 1 && |s'.tables[0]| == OPEN_MAX && 2 in s'.files
      && s'.tables[0][2] == 2 && s'.files[2].magic == CLOSED
  {
    OneProcessIsCounted(s);
    FirstFreeIs(s.tables[0], 1);
    RedirectedDeviceReopens(Step(s, OpenDevice(0, 2)));
    RunOfThree(s, OpenDevice(0, 2), Dup2(0, 0, 1), OpenDevice(0, 2));
  }

  /** With its only descriptor redirected a device is closed, and opening it does not revive it. */
  lemma RedirectedDeviceReopens(s: State)
    requires WellFormed(s) && |s.tables| == 1 && 1 in s.files && 2 in s.files
    requires s.tables[0][0] == 1 && s.tables[0][1] == 2 && s.tables[0][2] == 0
    requires s.files[2] == Terminal(1, true).(number := 1)
    ensures WellFormed(Step(s, Dup2(0, 0, 1)))
    ensures var s' := Step(Step(s, Dup2(0, 0, 1)), OpenDevice(0, 2));
      && |s'.tables| == 1 && |s'.tables[0]| == OPEN_MAX && 2 in s'.files
      && s'.tables[0][2] == 2 && s'.files[2].magic == CLOSED
  {
    var s2 := Step(s, Dup2(0, 0, 1));
    assert s2.tables[0][0] == s2.tables[0][1] == 1 && s2.tables[0][2] == 0;
    assert s2.files[2].magic == CLOSED;
    FirstFreeIs(s2.tables[0], 2);
  }

  /** There is such a state. */
  lemma OneProcessExists()
    ensures OneProcess(State([[1] + seq(OPEN_MAX - 1, i => 0)], map[1 := Terminal(1, false), 2 := Terminal(0, true)]))
  {
  }

  /** Two rows for processes to come, and the standard streams, each counted once. */
  function Booted(): State {
    State([seq(OPEN_MAX, i => 0), seq(OPEN_MAX, i => 0)],
          map[1 := Terminal(1, false), 2 := Terminal(1, false), 3 := Terminal(1, false)])
  }

  const STREAMS := Streams(1, 2, 3)

  /** Two empty rows, and three streams, intact and counted once. */
  ghost predicate Idle(s: State) {
    && WellFormed(s) && |s.tables| == 2
    && (forall p, fd :: 0 <= p < 2 && 0 <= fd < OPEN_MAX ==> s.tables[p][fd] == 0)
    && s.files.Keys == {1, 2, 3}
    && (forall f :: f in s.files ==> s.files[f] == Terminal(1, false))
  }

  lemma IdleIsCounted(s: State)
    requires Idle(s)
    ensures Inv(s) && Live(s)
    ensures Names(s, 1) == {} && forall f :: f in s.files ==> Slack(s, f) == 1
  {
    forall f | f in s.files ensures Names(s, f) == {} {
      assert f != 0;
    }
  }

  /** A first process uses up what the streams have to spare. */
  lemma FirstProcessKeepsTheCounts(s: State, s': State)
    requires Idle(s) && s' == Step(s, Create(0, STREAMS))
    ensures Inv(s') && Live(s') && Slack(s', 1) == 0
    ensures |s'.tables| == 2 && s'.tables[0][0] == 1 && s'.tables[1] == s.tables[1] && s'.files == s.files
  {
    IdleIsCounted(s);
    CreateCountedIff(s, 0, STREAMS);
    CreateLiveIff(s, 0, STREAMS);
    FirstProcessSlack(s, s');
  }

  lemma FirstProcessSlack(s: State, s': State)
    requires WellFormed(s) && |s.tables| == 2 && StreamsExist(s, STREAMS) && s' == CreateProcess(s, 0, STREAMS)
    requires Names(s, 1) == {} && Slack(s, 1) == 1
    ensures Slack(s', 1) == 0
  {
    CreateSlack(s, 0, STREAMS, 1);
    StreamSlotsSize(0, STREAMS, 1);
    assert Names(s, 1) * RowFrom(0, 0) == {};
  }

  /** A second one has descriptors that nobody counted. */
  lemma SecondProcessOvercommits(s: State, s': State)
    requires Inv(s) && Live(s) && |s.tables| == 2 && s.tables[0][0] == 1 && StreamsExist(s, STREAMS) && Slack(s, 1) == 0
    requires forall fd :: 0 <= fd < OPEN_MAX ==> s.tables[1][fd] == 0
    requires Intact(s.files[1]) && Intact(s.files[2]) && Intact(s.files[3])
    requires s' == Step(s, Create(1, STREAMS))
    ensures WellFormed(s') && Live(s') && !Counted(s')
    ensures |s'.tables| == 2 && s'.tables[0][0] == 1 && s'.files == s.files
    ensures s'.tables[1][0] == 1 && s'.tables[1][1] == 2
  {
    CreateCountedIff(s, 1, STREAMS);
    CreateLiveIff(s, 1, STREAMS);
  }

  /** Redirecting a descriptor of a stream counted once closes it under everybody else. */
  lemma RedirectOverStream(s: State, s': State)
    requires WellFormed(s) && |s.tables| == 2 && 1 in s.files && s.files[1] == Terminal(1, false)
    requires s.tables[0][0] == 1 && s.tables[1][0] == 1 && s.tables[1][1] == 2
    requires s' == Step(s, Dup2(1, 1, 0))
    ensures |s'.tables| == 2 && |s'.tables[0]| == OPEN_MAX && 1 in s'.files
    ensures s'.tables[0][0] == 1 && s'.files[1].magic == CLOSED
  {
  }

  /**
   The booted kernel: the first process keeps the counts, the second breaks them, and its very
   first dup2 over descriptor 0 strikes off the standard input that the first one goes on naming.
   */
  lemma SecondProcessBreaksTheCounts(s: State)
    requires Idle(s)
    ensures Inv(s) && Live(s)
    ensures WellFormed(Step(s, Create(0, STREAMS))) && Counted(Step(s, Create(0, STREAMS)))
    ensures var s2 := Step(Step(s, Create(0, STREAMS)), Create(1, STREAMS));
      && WellFormed(s2) && Live(s2) && !Counted(s2)
    ensures var s3 := Run(s, [Create(0, STREAMS), Create(1, STREAMS), Dup2(1, 1, 0)]);
      && |s3.tables| == 2 && |s3.tables[0]| == OPEN_MAX && 1 in s3.files
      && s3.tables[0][0] == 1 && s3.files[1].magic == CLOSED
  {
    IdleIsCounted(s);
    var s1 := Step(s, Create(0, STREAMS));
    FirstProcessKeepsTheCounts(s, s1);
    var s2 := Step(s1, Create(1, STREAMS));
    SecondProcessOvercommits(s1, s2);
    RedirectOverStream(s2, Step(s2, Dup2(1, 1, 0)));
    RunOfThree(s, Create(0, STREAMS), Create(1, STREAMS), Dup2(1, 1, 0));
  }

  lemma BootedIsIdle()
    ensures Idle(Booted())
  {
  }

  // ------------------------------------------------------------------ the kernel's tables

  class Kernel {
    var tables: seq<seq<Addr>>
    var files: map<Addr, FileRec>

    /** Cleared tables for the given number of processes, and the file structures there are. */
    constructor (processes: nat, structures: map<Addr, FileRec>)
      requires 0 !in structures
      ensures Valid() && files == structures && |tables| == processes
      ensures forall p, fd :: 0 <= p < processes && 0 <= fd < OPEN_MAX ==> tables[p][fd] == 0
      ensures Live(View()) && (processes == 2 && structures == Booted().files ==> Idle(View()))
    {
      tables := seq(processes, p => seq(OPEN_MAX, fd => 0));
      files := structures;
    }

    ghost function View(): State
      reads this
    {
      State(tables, files)
    }

    ghost predicate Valid()
      reads this
    {
      WellFormed(View())
    }

    /** The slot search that every opening call repeats. */
    method FindFree(p: nat) returns (fd: int)
      requires Valid() && p < |tables|
      ensures fd == FirstFree(tables[p], 0)
    {
      var i := 0;
      while i < OPEN_MAX
        invariant 0 <= i <= OPEN_MAX
        invariant FirstFree(tables[p], 0) == FirstFree(tables[p], i)
      {
        if tables[p][i] == 0 {
          return i;
        }
        i := i + 1;
      }
      fd := -1;
    }

    method StoreSlot(p: nat, fd: nat, a: Addr)
      requires p < |tables| && fd < |tables[p]|
      modifies this
      ensures View() == SetSlot(old(View()), p, fd, a)
    {
      var row: seq<Addr> := tables[p][fd := a];
      tables := tables[p := row];
    }

    method Count(a: Addr, delta: int)
      requires a in files
      modifies this
      ensures tables == old(tables)
      ensures files == old(files)[a := old(files)[a].(fdCounter := old(files)[a].fdCounter + delta)]
    {
      files := files[a := files[a].(fdCounter := files[a].fdCounter + delta)];
    }

    method ShareAt(p: nat, fd: nat, a: Addr)
      requires p < |tables| && fd < |tables[p]| && a in files
      modifies this
      ensures View() == Share(old(View()), p, fd, a)
    {
      StoreSlot(p, fd, a);
      Count(a, 1);
    }

    method Dup(p: nat, oldfd: int) returns (r: int)
      requires Valid() && p < |tables|
      modifies this
      ensures Valid()
      ensures (View(), r) == SysDup(old(View()), p, oldfd)
    {
      if oldfd < 0 || oldfd >= OPEN_MAX {
        return -EBADF;
      }
      var fp := tables[p][oldfd];
      if fp == 0 {
        return -EBADF;
      }
      var newfd := FindFree(p);
      if newfd < 0 {
        return -EMFILE;
      }
      ShareAt(p, newfd, fp);
      r := newfd;
    }

    method CloseSlot(p: nat, fd: nat)
      requires p < |tables| && fd < |tables[p]| && tables[p][fd] in files
      modifies this
      ensures View() == Release(old(View()), p, fd)
    {
      var fp := tables[p][fd];
      Count(fp, -1);
      if files[fp].fdCounter <= 0 {
        files := files[fp := KFclose(files[fp])];
      }
      StoreSlot(p, fd, 0);
    }

    /** The tail common to dup2 and dup3: close what newfd names, then redirect it. */
    method RedirectTo(p: nat, fp: Addr, ghost oldfd: nat, newfd: nat)
      requires Valid() && p < |tables| && oldfd < OPEN_MAX && newfd < OPEN_MAX
      requires fp == tables[p][oldfd] != 0 && oldfd != newfd
      modifies this
      ensures Valid()
      ensures View() == Redirect(old(View()), p, oldfd, newfd)
    {
      if tables[p][newfd] != 0 {
        CloseSlot(p, newfd);
      }
      ShareAt(p, newfd, fp);
    }

    method Dup2(p: nat, oldfd: int, newfd: int) returns (r: int)
      requires Valid() && p < |tables|
      modifies this
      ensures Valid()
      ensures (View(), r) == SysDup2(old(View()), p, oldfd, newfd)
    {
      if oldfd < 0 || oldfd >= OPEN_MAX || newfd < 0 || newfd >= OPEN_MAX {
        return -EBADF;
      }
      var fp := tables[p][oldfd];
      if fp == 0 {
        return -EBADF;
      }
      if oldfd == newfd {
        return newfd;
      }
      RedirectTo(p, fp, oldfd, newfd);
      r := newfd;
    }

    method Dup3(p: nat, oldfd: int, newfd: int) returns (r: int)
      requires Valid() && p < |tables|
      modifies this
      ensures Valid()
      ensures (View(), r) == SysDup3(old(View()), p, oldfd, newfd)
    {
      if oldfd < 0 || oldfd >= OPEN_MAX || newfd < 0 || newfd >= OPEN_MAX {
        return -EBADF;
      }
      if oldfd == newfd {
        return -EINVAL;
      }
      var fp := tables[p][oldfd];
      if fp == 0 {
        return -EBADF;
      }
      RedirectTo(p, fp, oldfd, newfd);
      r := newfd;
    }

    method Close(p: nat, fd: int) returns (r: int)
      requires Valid() && p < |tables|
      modifies this
      ensures Valid()
      ensures (View(), r) == SysClose(old(View()), p, fd)
    {
      if fd < 0 || fd >= OPEN_MAX || fd == 0 || fd == 1 || fd == 2 {
        return -EBADF;
      }
      var fp := tables[p][fd];
      if fp == 0 {
        return -1;
      }
      if !files[fp].used || files[fp].magic != MAGIC {
        return -1;
      }
      var done := false;
      match files[fp].kind {
        case Socket =>
          if !files[fp].hasSocket {
            return -1;
          }
          return 0;
        case VirtualConsole => return 0;
        case PipeFile => done := true;
        case Tty => done := true;
        case RegularFile =>
          if files[fp].lbfsize < 512 {
            files := files[fp := files[fp].(lbfsize := 512)];
          }
          done := true;
        case OtherObject =>
      }
      if !done {
        return -1;
      }
      StoreSlot(p, fd, 0);
      r := 0;
    }

    method OpenDevice(p: nat, dev: Addr) returns (r: int)
      requires Valid() && p < |tables|
      modifies this
      ensures Valid()
      ensures (View(), r) == OpenDeviceFile(old(View()), p, dev)
    {
      if dev !in files || !files[dev].isDevice {
        return -1;
      }
      var fd := FindFree(p);
      if fd < 0 {
        return -EMFILE;
      }
      files := files[dev := files[dev].(number := fd)];
      ShareAt(p, fd, dev);
      assert files == old(files)[dev := files[dev]];
      r := fd;
    }

    /** __open_imp behind the lookup of the name among the devices: `dev` is what that found, 0 for nothing. */
    method Open(p: nat, dev: Addr, mem: Addr, size: nat, loads: bool) returns (r: int)
      requires Valid() && p < |tables|
      modifies this
      ensures Valid()
      ensures (View(), r) == SysOpen(old(View()), p, dev, mem, size, loads)
    {
      if dev in files && files[dev].isDevice {
        r := OpenDevice(p, dev);
      } else {
        r := OpenFile(p, mem, size, loads);
      }
    }

    method OpenFile(p: nat, mem: Addr, size: nat, loads: bool) returns (r: int)
      requires Valid() && p < |tables|
      modifies this
      ensures Valid()
      ensures (View(), r) == OpenRegular(old(View()), p, mem, size, loads)
    {
      var fd := FindFree(p);
      if fd < 0 || mem == 0 || mem in files {
        return -1;
      }
      if !FileStream.CanOpen(size) || !loads {
        return -1;
      }
      files := files[mem := FileRec(true, MAGIC, 1, RegularFile, false, FileStream.BufferSize(size), fd, false)];
      StoreSlot(p, fd, mem);
      r := fd;
    }

    /** fs_duplicate_fd. */
    method DuplicateFd(p: nat, oldfd: int, start: int) returns (r: int)
      requires Valid() && p < |tables|
      modifies this
      ensures Valid()
      ensures (View(), r) == DuplicateFrom(old(View()), p, oldfd, start)
    {
      if oldfd < 0 || oldfd >= OPEN_MAX {
        return -EBADF;
      }
      if start < 0 || start >= OPEN_MAX {
        return -EINVAL;
      }
      var fp := tables[p][oldfd];
      if fp == 0 || files[fp].magic != MAGIC {
        return -EBADF;
      }
      var newfd := start;
      while newfd < OPEN_MAX
        invariant start <= newfd <= OPEN_MAX && View() == old(View())
        invariant FirstFree(tables[p], start) == FirstFree(tables[p], newfd)
      {
        if tables[p][newfd] == 0 {
          StoreSlot(p, newfd, fp);
          return newfd;
        }
        newfd := newfd + 1;
      }
      return -EMFILE;
    }

    /** The table of a new process: cleared, then the three streams. */
    method InitializeObjects(p: nat, streams: Streams)
      requires Valid() && p < |tables| && StreamsExist(View(), streams)
      modifies this
      ensures Valid() && View() == CreateProcess(old(View()), p, streams)
    {
      ghost var before := tables;
      var i := 0;
      while i < OPEN_MAX
        invariant 0 <= i <= OPEN_MAX && files == old(files)
        invariant |tables| == |before| && |tables[p]| == OPEN_MAX
        invariant forall q :: 0 <= q < |tables| && q != p ==> tables[q] == before[q]
        invariant forall k :: 0 <= k < i ==> tables[p][k] == 0
      {
        StoreSlot(p, i, 0);
        i := i + 1;
      }
      StoreSlot(p, 0, streams.stdin);
      StoreSlot(p, 1, streams.stdout);
      StoreSlot(p, 2, streams.stderr);
      assert tables[p] == [streams.stdin, streams.stdout, streams.stderr] + seq(OPEN_MAX - 3, k => 0);
      assert tables == before[p := tables[p]];
    }

    method CloneDescriptor(p: nat, child: nat, i: nat)
      requires Valid() && p < |tables| && child < |tables| && i < OPEN_MAX
      modifies this
      ensures Valid() && View() == CloneSlot(old(View()), p, child, i)
    {
      var f := tables[p][i];
      StoreSlot(child, i, f);
      if f != 0 {
        Count(f, 1);
      }
    }

    /** A new process inherits every descriptor and counts each one. */
    method CloneDescriptors(p: nat, child: nat)
      requires Valid() && p < |tables| && child < |tables| && child != p
      modifies this
      ensures Valid()
      ensures View() == CloneFrom(old(View()), p, child, 0)
    {
      var i := 0;
      while i < OPEN_MAX
        invariant 0 <= i <= OPEN_MAX
        invariant Valid() && |tables| == old(|tables|)
        invariant CloneFrom(View(), p, child, i) == CloneFrom(old(View()), p, child, 0)
      {
        CloneDescriptor(p, child, i);
        i := i + 1;
      }
    }
  }
}
