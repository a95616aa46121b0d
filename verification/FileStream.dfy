/**
 The in-memory buffer of a regular file: a read offset that chases a write offset
 through one block of memory, and the count of free bytes behind the write offset.

 `ReadBuffer` and `WriteBuffer` are the regular-file branches of file_read_buffer and
 file_write_buffer with every guard they have; `SysRead` and `SysWrite` are the read
 and write system calls above them, which the `flags` gate.
 */
module FileStream {
  import opened FileCommon

  const LIMIT := 8 * 1024
  const EOF := -1

  datatype File = File(
    base: seq<Byte>, lbfsize: int, r: int, w: int, cnt: int, p: int,
    flags: Flags, canRead: bool, canWrite: bool, used: bool, magic: int)

  /** The offsets stay inside the memory they index, whatever else is wrong with them. */
  predicate Sane(f: File) {
    && |f.base| == f.lbfsize
    && f.w <= f.lbfsize
    && (f.cnt > f.lbfsize || (f.w + f.cnt <= f.lbfsize && f.r + f.cnt <= f.lbfsize))
  }

  /** memcpy into the middle of a buffer. */
  function Overwrite(base: seq<Byte>, at: nat, data: seq<Byte>): (b: seq<Byte>)
    requires at + |data| <= |base|
    ensures |b| == |base|
  {
    base[..at] + data + base[at + |data|..]
  }

  datatype Got = Got(f: File, n: int, out: seq<Byte>)

  function ReadBuffer(f: File, len: int): (g: Got)
    requires Sane(f)
    ensures |g.f.base| == |f.base|
  {
    var asked := len % 0x1_0000;
    if !f.used || f.magic != MAGIC then Got(f, EOF, [])
    else if asked <= 0 then Got(f, EOF, [])
    else
      var count := if asked > f.lbfsize then f.lbfsize else asked;
      if f.lbfsize <= 0 then Got(f, EOF, [])
      else if f.lbfsize > LIMIT then Got(f, EOF, [])
      else if f.r < 0 then Got(f.(r := 0), EOF, [])
      else if f.r > f.lbfsize then Got(f, EOF, [])
      else if f.r > f.w then Got(f.(r := f.w), 0, [])
      else if f.w - f.r == 0 then Got(f, 0, [])
      else
        var n := Min(count, f.w - f.r);
        Got(f.(p := f.r + n, r := f.r + n, flags := f.flags.(swr := true), canWrite := true), n, f.base[f.r..f.r + n])
  }

  datatype Put = Put(f: File, n: int)

  function WriteBuffer(f: File, data: seq<Byte>, len: int): (g: Put)
    requires Sane(f) && len <= |data|
    ensures |g.f.base| == |f.base|
  {
    if len >= BUFSIZ then Put(f, EOF)
    else if f.lbfsize > BUFSIZ then Put(f, EOF)
    else if f.w < 0 then Put(f.(p := 0, w := 0, r := 0, cnt := f.lbfsize), EOF)
    else if f.w >= BUFSIZ then Put(f.(w := BUFSIZ, cnt := 0), EOF)
    else if f.cnt < 0 then Put(f.(cnt := 0, w := f.lbfsize, r := f.lbfsize, p := f.lbfsize), EOF)
    else
      WriteInRange(if f.cnt > f.lbfsize then f.(cnt := f.lbfsize, p := 0, w := 0, r := 0) else f, data, len)
  }

  /** The rest of a write, once the write offset and the free count are in range. */
  function WriteInRange(f: File, data: seq<Byte>, len: int): (g: Put)
    requires Sane(f) && len <= |data| && 0 <= f.w && 0 <= f.cnt <= f.lbfsize
    ensures |g.f.base| == |f.base|
  {
    if len < 0 then Put(f, -1)
    else if len > f.cnt && f.cnt <= 0 then
      Put(f.(w := f.lbfsize, r := f.lbfsize, p := f.lbfsize, cnt := 0), -1)
    else
      var n := if len > f.cnt then f.cnt else len;
      var w, cnt := if f.w < f.r then f.r else f.w, if f.w < f.r then f.lbfsize - f.r else f.cnt;
      Put(f.(base := Overwrite(f.base, w, data[..n]), p := w + n, w := w + n, cnt := cnt - n,
             flags := SRD, canRead := true), n)
  }

  /** The GRAMADO_SEEK_CLEAR request of k_fseek. */
  function Clear(f: File): File
    requires |f.base| >= BUFSIZ
  {
    f.(base := seq(BUFSIZ, i => 0 as Byte) + f.base[BUFSIZ..], p := 0, r := 0, w := 0, cnt := f.lbfsize)
  }

  // ------------------------------------------------------------------ the stream invariant

  ghost predicate Inv(f: File) {
    && |f.base| == f.lbfsize
    && 0 <= f.r <= f.w
    && 0 <= f.cnt
    && f.w + f.cnt == f.lbfsize
  }

  datatype Op = Read(len: int) | Write(data: seq<Byte>) | Clearing

  /** A file with everything written to and read from it since it was last cleared. */
  datatype Trace = Trace(f: File, accepted: seq<Byte>, returned: seq<Byte>)

  function Step(t: Trace, op: Op): (t': Trace)
    requires Inv(t.f) && t.f.lbfsize == BUFSIZ
  {
    match op
    case Read(len) =>
      var g := ReadBuffer(t.f, len);
      Trace(g.f, t.accepted, t.returned + g.out)
    case Write(data) =>
      var g := WriteBuffer(t.f, data, |data|);
      Trace(g.f, if 0 <= g.n <= |data| then t.accepted + data[..g.n] else t.accepted, t.returned)
    case Clearing => Trace(Clear(t.f), [], [])
  }

  /** The buffer holds exactly what was accepted, and the reader has seen exactly the part before r. */
  ghost predicate Streaming(t: Trace) {
    && Inv(t.f) && t.f.lbfsize == BUFSIZ
    && t.f.base[..t.f.w] == t.accepted
    && t.returned == t.accepted[..t.f.r]
  }

  lemma StepStreams(t: Trace, op: Op)
    requires Streaming(t)
    ensures Streaming(Step(t, op))
  {
    var f := t.f;
    match op
    case Read(len) =>
      var g := ReadBuffer(f, len);
      assert t.accepted[..g.f.r] == t.accepted[..f.r] + f.base[f.r..g.f.r];
    case Write(data) =>
      var g := WriteBuffer(f, data, |data|);
      if g.n >= 0 {
        assert g.f.base[..g.f.w] == f.base[..f.w] + data[..g.n];
        assert t.accepted[..f.r] == (t.accepted + data[..g.n])[..f.r];
      }
    case Clearing =>
  }

  ghost function Run(t: Trace, ops: seq<Op>): Trace
    requires Streaming(t)
    decreases |ops|
  {
    if ops == [] then t else (StepStreams(t, ops[0]); Run(Step(t, ops[0]), ops[1..]))
  }

  /**
   Every run of buffer writes, buffer reads and clears keeps the offsets in order and
   accounted for, and what was read since the last clear is a prefix of what was accepted.
   */
  lemma {:induction false} RunStreams(t: Trace, ops: seq<Op>)
    requires Streaming(t)
    ensures var u := Run(t, ops);
      && |u.f.base| == BUFSIZ
      && 0 <= u.f.r <= u.f.w <= BUFSIZ
      && u.f.w + u.f.cnt == BUFSIZ
      && u.returned <= u.accepted
      && u.accepted == u.returned + u.f.base[u.f.r..u.f.w]
    decreases |ops|
  {
    if ops == [] {
      assert t.accepted == t.accepted[..t.f.r] + t.f.base[t.f.r..t.f.w];
    } else {
      StepStreams(t, ops[0]);
      RunStreams(Step(t, ops[0]), ops[1..]);
    }
  }

  /** A write that finds an offset or count out of range is refused and leaves a proper stream and its bytes. */
  lemma WriteRepairs(f: File, data: seq<Byte>)
    requires Sane(f) && f.lbfsize == BUFSIZ && (f.w < 0 || f.w >= BUFSIZ || f.cnt < 0) && 0 <= f.r <= BUFSIZ
    requires |data| < BUFSIZ
    ensures var g := WriteBuffer(f, data, |data|);
      && g.n == -1 && Inv(g.f) && g.f.base == f.base
      && (f.w < 0 ==> g.f.r == g.f.w == 0)
      && (f.w >= 0 ==> g.f.w == BUFSIZ)
  {
  }

  /** A read that finds its offset out of range hands out nothing and puts it back between 0 and the write offset. */
  lemma ReadRepairs(f: File, len: int)
    requires Sane(f) && f.used && f.magic == MAGIC && 0 < f.lbfsize <= LIMIT && 0 < len < 0x1_0000
    requires 0 <= f.w && (f.r < 0 || f.w < f.r <= f.lbfsize)
    ensures var g := ReadBuffer(f, len);
      && g.n == (if f.r < 0 then -1 else 0) && g.out == []
      && g.f == f.(r := if f.r < 0 then 0 else f.w)
  {
  }

  /** The clearing seek leaves an empty stream over 1024 zero bytes. */
  lemma ClearEmpties(f: File)
    requires |f.base| >= BUFSIZ
    ensures |Clear(f).base| == |f.base| && Clear(f).r == 0 && Clear(f).w == 0 && Clear(f).p == 0 && Clear(f).cnt == f.lbfsize
    ensures forall i :: 0 <= i < 1024 ==> Clear(f).base[i] == 0
    ensures forall i :: 1024 <= i < |f.base| ==> Clear(f).base[i] == f.base[i]
  {
  }

  /** A file opened with contents shorter than the default buffer is such a stream: its contents are there to be read. */
  lemma OpenedFileStreams(content: seq<Byte>, memory: seq<Byte>)
    requires 0 < |content| < BUFSIZ && |memory| == BufferSize(|content|) && content <= memory
    ensures Streaming(Trace(Opened(content, memory), content, []))
    ensures Opened(content, memory).p == 0 && MayRead(Opened(content, memory)) && Opened(content, memory).canWrite
  {
  }

  /** A write that finds the buffer full is refused and leaves every unread byte in place. */
  lemma FullBufferRefusesWrites(f: File, data: seq<Byte>)
    requires Inv(f) && f.lbfsize == BUFSIZ && f.cnt == 0
    ensures var g := WriteBuffer(f, data, |data|);
      g.n == EOF && g.f.base == f.base && g.f.r == f.r && g.f.w == f.w
  {
  }

  /** How much a call moves: what fits, or what is there. */
  lemma AmountsMoved(f: File, data: seq<Byte>, len: int)
    requires Inv(f) && 0 < f.lbfsize <= LIMIT && f.used && f.magic == MAGIC
    ensures 0 < len < 0x1_0000 ==> ReadBuffer(f, len).n == Min(len, f.w - f.r)
    ensures f.lbfsize == BUFSIZ && |data| < BUFSIZ && f.cnt > 0 ==>
      WriteBuffer(f, data, |data|).n == Min(|data|, f.cnt)
  {
  }

  // ------------------------------------------------------------------ system calls

  /** The regular-file branch of the read system call. */
  function SysRead(f: File, count: int): (g: Got)
    requires Sane(f)
  {
    if count < 0 then Got(f, -EINVAL, [])
    else if count == 0 then Got(f, 0, [])
    else if !f.canRead then Got(f, -1, [])
    else if !f.flags.srd then Got(f, -1, [])
    else
      var g := ReadBuffer(f, count);
      if g.n <= 0 then g.(n := -1) else g.(f := g.f.(flags := g.f.flags.(swr := true), canWrite := true))
  }

  /** The regular-file branch of the write system call. */
  function SysWrite(f: File, data: seq<Byte>): (g: Put)
    requires Sane(f)
  {
    if |data| == 0 then Put(f, 0)
    else if !f.canWrite then Put(f, -1)
    else if !f.flags.swr then Put(f, 0)
    else
      var g := WriteBuffer(f, data, |data|);
      if g.n > 0 then g.(f := g.f.(flags := SRD, canRead := true)) else Put(g.f, 0)
  }

  /** A read call may go ahead: the caller may read and the read flag is up. */
  ghost predicate MayRead(f: File) {
    f.canRead && f.flags.srd && f.used && f.magic == 1234 && 0 < f.lbfsize <= 8192
  }

  /**
   The read call returns min(count modulo 65536, unread) bytes from the read offset on and advances it by
   as many, or -1 and changes nothing.
   */
  lemma SysReadResult(f: File, count: int)
    requires Inv(f)
    ensures var n := Min(count % 65536, f.w - f.r);
      var g := SysRead(f, count);
      && (count > 0 && MayRead(f) && n > 0 ==> g.n == n && g.out == f.base[f.r..f.r + n] && g.f.r == g.f.p == f.r + n)
      && (!(count > 0 && MayRead(f) && n > 0) ==>
            && g.n == (if count < 0 then -22 else if count == 0 then 0 else -1)
            && g.out == [] && g.f.r == f.r)
      && Inv(g.f) && g.f.base == f.base && g.f.w == f.w && g.f.lbfsize == f.lbfsize && g.f.cnt == f.cnt
      && (g.n > 0 ==> g.f.canWrite && g.f.flags.swr && g.f.flags.srd)
  {
  }

  /** A write call may go ahead. */
  ghost predicate MayWrite(f: File) {
    f.canWrite && f.flags.swr
  }

  /**
   The write call takes min(length, free) bytes in behind what is there, if they are fewer than 1024 and some are
   free; then it may be read and not written.  Otherwise no byte and no offset changes.
   */
  lemma SysWriteResult(f: File, data: seq<Byte>)
    requires Inv(f) && f.lbfsize == BUFSIZ
    ensures var n := Min(|data|, f.cnt);
      var g := SysWrite(f, data);
      && (MayWrite(f) && 0 < |data| < 1024 && n > 0 ==>
            && g.n == n && g.f.w == g.f.p == f.w + n && g.f.r == f.r
            && g.f.base[..g.f.w] == f.base[..f.w] + data[..n] && g.f.base[g.f.w..] == f.base[g.f.w..]
            && g.f.canRead && g.f.flags == SRD)
      && (!(MayWrite(f) && 0 < |data| < 1024 && n > 0) ==>
            && g.n == (if data == [] || f.canWrite then 0 else -1)
            && g.f.base == f.base && g.f.w == f.w && g.f.r == f.r)
      && Inv(g.f) && g.f.lbfsize == f.lbfsize
  {
  }

  /** A file that got an enlarged buffer takes no writes: the call answers 0 and nothing but the flags can have changed. */
  lemma EnlargedFileRefusesWrites(f: File, data: seq<Byte>)
    requires Inv(f) && f.lbfsize > 1024 && f.canWrite
    ensures SysWrite(f, data) == Put(f, 0)
  {
  }

  /** One system call, with what was taken in and handed out since the last clear. */
  function SysStep(t: Trace, c: Call): (t': Trace)
    requires Inv(t.f) && t.f.lbfsize == BUFSIZ
    ensures Inv(t'.f) && t'.f.lbfsize == BUFSIZ
  {
    match c
    case ReadCall(count) =>
      var g := SysRead(t.f, count);
      Trace(g.f, t.accepted, t.returned + g.out)
    case WriteCall(data) =>
      var g := SysWrite(t.f, data);
      Trace(g.f, if 0 <= g.n <= |data| then t.accepted + data[..g.n] else t.accepted, t.returned)
  }

  lemma SysStepStreams(t: Trace, c: Call)
    requires Streaming(t)
    ensures Streaming(SysStep(t, c))
  {
    var f := t.f;
    match c
    case ReadCall(count) =>
      var g := SysRead(f, count);
      SysReadResult(f, count);
      assert t.accepted[..g.f.r] == t.accepted[..f.r] + f.base[f.r..g.f.r];
    case WriteCall(data) =>
      SysWriteResult(f, data);
      SysWriteStreams(t, data, SysWrite(f, data));
  }

  lemma SysWriteStreams(t: Trace, data: seq<Byte>, g: Put)
    requires Streaming(t) && Inv(g.f) && g.f.lbfsize == BUFSIZ && g.n <= |data| && g.f.r == t.f.r
    requires g.n > 0 ==> g.f.w == t.f.w + g.n && g.f.base[..g.f.w] == t.f.base[..t.f.w] + data[..g.n]
    requires g.n <= 0 ==> g.f.w == t.f.w && g.f.base == t.f.base
    ensures Streaming(Trace(g.f, if 0 <= g.n then t.accepted + data[..g.n] else t.accepted, t.returned))
  {
    if g.n >= 0 {
      assert t.accepted[..t.f.r] == (t.accepted + data[..g.n])[..t.f.r];
    }
  }

  function SysRun(t: Trace, calls: seq<Call>): Trace
    requires Inv(t.f) && t.f.lbfsize == BUFSIZ
    decreases |calls|
  {
    if calls == [] then t else SysRun(SysStep(t, calls[0]), calls[1..])
  }

  /**
   Over every run of read and write calls all bytes returned are a prefix of what was there and what was accepted
   after it, and the unread rest lies between the offsets.
   */
  lemma {:induction false} SysRunStreams(t: Trace, calls: seq<Call>)
    requires Streaming(t)
    ensures var u := SysRun(t, calls);
      && |u.f.base| == BUFSIZ && 0 <= u.f.r <= u.f.w <= BUFSIZ && u.f.w + u.f.cnt == BUFSIZ
      && t.accepted <= u.accepted && t.returned <= u.returned
      && u.accepted == u.returned + u.f.base[u.f.r..u.f.w]
    decreases |calls|
  {
    if calls == [] {
      assert t.accepted == t.accepted[..t.f.r] + t.f.base[t.f.r..t.f.w];
    } else {
      SysStepStreams(t, calls[0]);
      SysRunStreams(SysStep(t, calls[0]), calls[1..]);
    }
  }

  datatype Call = ReadCall(count: int) | WriteCall(data: seq<Byte>)

  function CallStep(f: File, c: Call): (r: (File, int))
    requires Inv(f) && f.lbfsize == BUFSIZ
    ensures Inv(r.0) && r.0.lbfsize == BUFSIZ
  {
    match c
    case ReadCall(count) => var g := SysRead(f, count); (g.f, g.n)
    case WriteCall(data) => var g := SysWrite(f, data); (g.f, g.n)
  }

  /** The file after a run of calls, and what each call returned. */
  function CallRun(f: File, calls: seq<Call>): (r: (File, seq<int>))
    requires Inv(f) && f.lbfsize == BUFSIZ
    ensures Inv(r.0) && r.0.lbfsize == BUFSIZ
    ensures |r.1| == |calls|
    decreases |calls|
  {
    if calls == [] then (f, [])
    else
      var (f', ns) := CallRun(f, calls[..|calls| - 1]);
      var (f'', n) := CallStep(f', calls[|calls| - 1]);
      (f'', ns + [n])
  }

  ghost predicate Wrote(calls: seq<Call>, ns: seq<int>, i: int)
    requires |ns| == |calls| && 0 <= i < |calls|
  {
    calls[i].WriteCall? && ns[i] > 0
  }

  ghost predicate ReadSome(calls: seq<Call>, ns: seq<int>, i: int)
    requires |ns| == |calls| && 0 <= i < |calls|
  {
    calls[i].ReadCall? && ns[i] > 0
  }

  /** While a written block is unread, the write flag is down. */
  lemma {:induction false} WriteClosesTheGate(f: File, calls: seq<Call>, i: int)
    requires Inv(f) && f.lbfsize == BUFSIZ && 0 <= i < |calls|
    requires Wrote(calls, CallRun(f, calls).1, i)
    requires forall k :: i < k < |calls| ==> !ReadSome(calls, CallRun(f, calls).1, k)
    ensures CallRun(f, calls).0.flags.swr == false
    decreases |calls|
  {
    var last := |calls| - 1;
    var before := calls[..last];
    var (f', ns) := CallRun(f, before);
    var n := CallStep(f', calls[last]).1;
    assert CallRun(f, calls).1 == ns + [n];
    if i < last {
      forall k | i < k < last ensures !ReadSome(before, ns, k) {
        assert !ReadSome(calls, ns + [n], k);
      }
      assert Wrote(before, ns, i);
      WriteClosesTheGate(f, before, i);
      assert !ReadSome(calls, ns + [n], last);
    }
    GateStep(f', calls[last]);
  }

  /** Only a read that returns something opens the gate; a write that is accepted closes it. */
  lemma GateStep(f: File, c: Call)
    requires Inv(f) && f.lbfsize == BUFSIZ
    ensures c.WriteCall? && CallStep(f, c).1 > 0 ==> !CallStep(f, c).0.flags.swr
    ensures !f.flags.swr && !(c.ReadCall? && CallStep(f, c).1 > 0) ==> !CallStep(f, c).0.flags.swr
  {
  }

  /** Over every run of system calls, two accepted writes have a non-empty read between them. */
  lemma WritesAreSeparatedByReads(f: File, calls: seq<Call>, i: int, j: int)
    requires Inv(f) && f.lbfsize == BUFSIZ && 0 <= i < j < |calls|
    requires Wrote(calls, CallRun(f, calls).1, i) && Wrote(calls, CallRun(f, calls).1, j)
    ensures exists k :: i < k < j && ReadSome(calls, CallRun(f, calls).1, k)
  {
    var all := CallRun(f, calls).1;
    ResultsOfPrefix(f, calls, j);
    ResultsOfPrefix(f, calls, j + 1);
    var before := calls[..j];
    var ns := CallRun(f, before).1;
    assert calls[..j + 1][..j] == before;
    assert all[j] == CallStep(CallRun(f, before).0, calls[j]).1;
    if forall k :: i < k < j ==> !ReadSome(calls, all, k) {
      forall k | i < k < j ensures !ReadSome(before, ns, k) {
        assert !ReadSome(calls, all, k);
      }
      WriteClosesTheGate(f, before, i);
    }
  }

  lemma {:induction false} ResultsOfPrefix(f: File, calls: seq<Call>, j: int)
    requires Inv(f) && f.lbfsize == BUFSIZ && 0 <= j <= |calls|
    ensures CallRun(f, calls[..j]).1 == CallRun(f, calls).1[..j]
    decreases |calls|
  {
    if j == |calls| {
      assert calls[..j] == calls;
    } else {
      var before := calls[..|calls| - 1];
      ResultsOfPrefix(f, before, j);
      assert before[..j] == calls[..j];
    }
  }

  // ------------------------------------------------------------------ files opened from disk

  /** The buffer given to a file of the given size: the default one, or size + 8 bytes. */
  function BufferSize(size: nat): nat {
    if size >= BUFSIZ then size + 8 else BUFSIZ
  }

  predicate CanOpen(size: nat) {
    0 < size && (size >= BUFSIZ ==> size <= LIMIT)
  }

  /** A file as the open path leaves it; memory is the buffer after the load. */
  function Opened(content: seq<Byte>, memory: seq<Byte>): (f: File)
    requires CanOpen(|content|) && |memory| == BufferSize(|content|) && content <= memory
  {
    var size := |content|;
    File(memory, |memory|, 0, size, |memory| - size, 0, SRD, true, true, true, MAGIC)
  }

  /** The file after a sequence of reads, all the bytes they returned, and their return values. */
  datatype Session = Session(f: File, out: seq<Byte>, ns: seq<int>)

  function Reads(f: File, lens: seq<int>): Session
    requires Inv(f)
    decreases |lens|
  {
    if lens == [] then Session(f, [], [])
    else
      var g := ReadBuffer(f, lens[0]);
      var rest := Reads(g.f, lens[1..]);
      Session(rest.f, g.out + rest.out, [g.n] + rest.ns)
  }

  function Total(lens: seq<int>): int {
    if lens == [] then 0 else lens[0] + Total(lens[1..])
  }

  ghost predicate Lengths(lens: seq<int>) {
    forall i :: 0 <= i < |lens| ==> 0 < lens[i] < 0x1_0000
  }

  lemma {:induction false} TotalIsNatural(lens: seq<int>)
    requires Lengths(lens)
    ensures Total(lens) >= 0
  {
    if lens != [] {
      TotalIsNatural(lens[1..]);
    }
  }

  ghost predicate Readable(f: File) {
    Inv(f) && 0 < f.lbfsize <= LIMIT && f.used && f.magic == MAGIC
  }

  lemma ReadAdvances(f: File, len: int)
    requires Readable(f) && 0 < len < 0x1_0000
    ensures var g := ReadBuffer(f, len);
      && Readable(g.f) && g.f.base == f.base && g.f.w == f.w
      && g.f.r == Min(f.r + len, f.w) && g.n == g.f.r - f.r
      && g.out == f.base[f.r..g.f.r]
  {
  }

  /** Where a sequence of reads leaves the file. */
  lemma {:induction false} ReadsAdvance(f: File, lens: seq<int>)
    requires Readable(f) && Lengths(lens)
    ensures var f' := Reads(f, lens).f;
      && Readable(f') && f'.base == f.base && f'.w == f.w
      && f'.r == Min(f.r + Total(lens), f.w)
      && f.r <= f'.r
    decreases |lens|
  {
    if lens != [] {
      ReadAdvances(f, lens[0]);
      ReadsAdvance(ReadBuffer(f, lens[0]).f, lens[1..]);
      TotalIsNatural(lens[1..]);
    }
  }

  /** The first read of a sequence, and the session that the others make. */
  lemma ReadsUnfold(f: File, lens: seq<int>) returns (mid: File, n: int, rest: Session)
    requires Readable(f) && Lengths(lens) && lens != []
    ensures Readable(mid) && mid.base == f.base && mid.w == f.w
    ensures f.r <= mid.r <= f.w && n == mid.r - f.r
    ensures rest == Reads(mid, lens[1..])
    ensures Reads(f, lens) == Session(rest.f, f.base[f.r..mid.r] + rest.out, [n] + rest.ns)
  {
    var g := ReadBuffer(f, lens[0]);
    ReadAdvances(f, lens[0]);
    mid, n, rest := g.f, g.n, Reads(g.f, lens[1..]);
  }

  lemma TotalUnfold(n: int, ns: seq<int>)
    ensures Total([n] + ns) == n + Total(ns)
  {
    assert ([n] + ns)[1..] == ns;
  }

  /** What a sequence of reads returns. */
  lemma {:induction false} ReadsReturn(f: File, lens: seq<int>, s: Session)
    requires Readable(f) && Lengths(lens) && s == Reads(f, lens)
    requires f.r <= s.f.r <= |f.base|
    ensures s.out == f.base[f.r..s.f.r]
    decreases |lens|
  {
    if lens != [] {
      var mid, _, rest := ReadsUnfold(f, lens);
      ReadsAdvance(mid, lens[1..]);
      ReadsReturn(mid, lens[1..], rest);
      SliceJoin(f.base, f.r, mid.r, rest.f.r);
    }
  }

  lemma SliceJoin(s: seq<Byte>, a: int, b: int, c: int)
    requires 0 <= a <= b <= c <= |s|
    ensures s[a..b] + s[b..c] == s[a..c]
  {
  }

  /** The return values add up to what was returned. */
  lemma {:induction false} ReturnsAddUp(f: File, lens: seq<int>, s: Session)
    requires Readable(f) && Lengths(lens) && s == Reads(f, lens)
    ensures Total(s.ns) == |s.out|
    decreases |lens|
  {
    if lens != [] {
      var mid, n, rest := ReadsUnfold(f, lens);
      ReturnsAddUp(mid, lens[1..], rest);
      TotalUnfold(n, rest.ns);
    }
  }

  lemma ReadAtEnd(f: File, len: int)
    requires Readable(f) && 0 < len < 0x1_0000
    ensures f.r < f.w <==> ReadBuffer(f, len).n > 0
    ensures f.r == f.w ==> ReadBuffer(f, len).n == 0 && SysRead(f, len).n == -1
  {
  }

  /**
   Any sequence of reads of a freshly opened file of 1 to 8184 bytes returns consecutive
   pieces of it, as much as was asked for in all, up to exactly its size; from then
   on a buffer read returns 0, which the read system call reports as -1.
   */
  lemma OpenedFileReadsBack(content: seq<Byte>, memory: seq<Byte>, lens: seq<int>, len: int)
    requires 0 < |content| <= 8184
    requires |memory| == BufferSize(|content|) && content <= memory
    requires Lengths(lens) && 0 < len < 0x1_0000
    ensures Inv(Opened(content, memory))
    ensures Total(lens) >= 0
    ensures var Session(f, out, ns) := Reads(Opened(content, memory), lens);
      && out == content[..Min(Total(lens), |content|)]
      && Total(ns) == |out|
      && Inv(f)
      && (|out| < |content| <==> ReadBuffer(f, len).n > 0)
      && (|out| == |content| ==> ReadBuffer(f, len).n == 0 && SysRead(f, len).n == -1)
  {
    var f := Opened(content, memory);
    TotalIsNatural(lens);
    ReadsAdvance(f, lens);
    var s := Reads(f, lens);
    ReadsReturn(f, lens, s);
    ReturnsAddUp(f, lens, s);
    ReadAtEnd(s.f, len);
  }

  /** The file after a sequence of read calls, and what they returned. */
  function SysReads(f: File, lens: seq<int>): Session
    requires Inv(f)
    decreases |lens|
  {
    if lens == [] then Session(f, [], [])
    else
      var g := SysRead(f, lens[0]);
      SysReadResult(f, lens[0]);
      var rest := SysReads(g.f, lens[1..]);
      Session(rest.f, g.out + rest.out, [g.n] + rest.ns)
  }

  /** A read call on a readable file is the buffer read below it, except that 0 becomes -1. */
  lemma SysReadIsRead(f: File, len: int)
    requires Readable(f) && f.canRead && f.flags.srd && 0 < len < 0x1_0000
    ensures SysRead(f, len).f == ReadBuffer(f, len).f && SysRead(f, len).out == ReadBuffer(f, len).out
    ensures SysRead(f, len).n == if ReadBuffer(f, len).n > 0 then ReadBuffer(f, len).n else -1
    ensures SysRead(f, len).f.canRead && SysRead(f, len).f.flags.srd
  {
  }

  lemma {:induction false} SysReadsAreReads(f: File, lens: seq<int>)
    requires Readable(f) && f.canRead && f.flags.srd && Lengths(lens)
    ensures SysReads(f, lens).out == Reads(f, lens).out
    ensures forall i :: 0 <= i < |SysReads(f, lens).ns| ==> SysReads(f, lens).ns[i] != 0
    decreases |lens|
  {
    if lens != [] {
      SysReadIsRead(f, lens[0]);
      ReadAdvances(f, lens[0]);
      SysReadsAreReads(ReadBuffer(f, lens[0]).f, lens[1..]);
    }
  }

  /** An opened file of 1 to 8184 bytes, read by any sequence of read calls, gives its contents up to the total asked for. */
  lemma OpenedFileIsReadByCalls(content: seq<Byte>, memory: seq<Byte>, lens: seq<int>)
    requires 0 < |content| <= 8184
    requires |memory| == BufferSize(|content|) && content <= memory && Lengths(lens)
    ensures Total(lens) >= 0
    ensures SysReads(Opened(content, memory), lens).out == content[..Min(Total(lens), |content|)]
  {
    SysReadsAreReads(Opened(content, memory), lens);
    OpenedFileReadsBack(content, memory, lens, 1);
  }

  /** Which files can be opened, and what buffer they get. */
  lemma OpensIff(size: nat)
    ensures CanOpen(size) <==> 1 <= size <= 8192
    ensures BufferSize(size) == if size < 1024 then 1024 else size + 8
  {
  }

  /** Opening succeeds up to 8192 bytes, but beyond 8184 the file can never be read. */
  lemma OpenedFileIsReadableIff(content: seq<Byte>, memory: seq<Byte>, len: int)
    requires CanOpen(|content|) && |memory| == BufferSize(|content|) && content <= memory
    requires 0 < len < 0x1_0000
    ensures ReadBuffer(Opened(content, memory), len).n > 0 <==> |content| <= 8184
    ensures |content| > 8184 ==> ReadBuffer(Opened(content, memory), len) == Got(Opened(content, memory), EOF, [])
  {
  }

  // ------------------------------------------------------------------ the file structure

  class FileObject {
    var base: array<Byte>
    var lbfsize: int
    var r: int
    var w: int
    var cnt: int
    var p: int
    var flags: Flags
    var canRead: bool
    var canWrite: bool
    var used: bool
    var magic: int

    ghost function View(): File
      reads this, base
    {
      File(base[..], lbfsize, r, w, cnt, p, flags, canRead, canWrite, used, magic)
    }

    /** The buffer part of do_read_file_from_disk; `loaded` is what the disk driver puts in the buffer. */
    constructor Open(content: seq<Byte>, loaded: array<Byte>)
      requires CanOpen(|content|) && loaded.Length == BufferSize(|content|) && content <= loaded[..]
      ensures base == loaded && View() == Opened(content, loaded[..]) && Inv(View())
    {
      used, magic := true, MAGIC;
      canRead, canWrite := true, true;
      var fsize := |content|;
      var size := BUFSIZ;
      if fsize >= size {
        size := fsize + 8;
      }
      base := loaded;
      lbfsize := size;
      p := 0;
      cnt := size - fsize;
      r := 0;
      w := fsize;
      flags := SRD;
    }

    /** file_read_buffer on a regular file. */
    method FileReadBuffer(buffer: array<Byte>, len: int) returns (n: int)
      requires Sane(View()) && buffer != base && len % 0x1_0000 <= buffer.Length
      modifies this, buffer
      ensures base == old(base)
      ensures View() == ReadBuffer(old(View()), len).f && n == ReadBuffer(old(View()), len).n
      ensures 0 <= n ==> n <= buffer.Length && buffer[..n] == ReadBuffer(old(View()), len).out
    {
      var count := len % 0x1_0000;
      if !used || magic != MAGIC {
        return EOF;
      }
      if count <= 0 {
        return EOF;
      }
      if count > lbfsize {
        count := lbfsize;
      }
      if lbfsize <= 0 {
        return EOF;
      }
      if lbfsize > LIMIT {
        return EOF;
      }
      if r < 0 {
        r := 0;
        return EOF;
      }
      if r > lbfsize {
        return EOF;
      }
      if r > w {
        r := w;
        return 0;
      }
      var delta := w - r;
      if delta == 0 {
        return 0;
      }
      if count > delta {
        count := delta;
      }
      CopyUnread(buffer, count);
      n := count;
    }

    /** The copy from the read offset, and the bookkeeping after it. */
    method CopyUnread(buffer: array<Byte>, count: nat)
      requires buffer != base && 0 <= r && r + count <= w <= base.Length && count <= buffer.Length
      modifies this, buffer
      ensures base == old(base) && buffer[..count] == old(base[r..r + count])
      ensures View() == old(View()).(p := old(r) + count, r := old(r) + count,
        flags := old(flags).(swr := true), canWrite := true)
    {
      p := r;
      Memcpy(buffer, 0, base, p, count);
      p := p + count;
      r := Min(r + count, w);
      flags := flags.(swr := true);
      canWrite := true;
    }

    /** file_write_buffer on a regular file. */
    method FileWriteBuffer(data: array<Byte>, len: int) returns (n: int)
      requires Sane(View()) && data != base && len <= data.Length
      modifies this, base
      ensures base == old(base)
      ensures View() == WriteBuffer(old(View()), data[..], len).f && n == WriteBuffer(old(View()), data[..], len).n
    {
      var count := len;
      if count >= BUFSIZ {
        return EOF;
      }
      if lbfsize > BUFSIZ {
        return EOF;
      }
      if w < 0 {
        p, w, r, cnt := 0, 0, 0, lbfsize;
        return EOF;
      }
      if w >= BUFSIZ {
        w, cnt := BUFSIZ, 0;
        return EOF;
      }
      if cnt < 0 {
        cnt, w, r := 0, lbfsize, lbfsize;
        p := w;
        return EOF;
      }
      if cnt > lbfsize {
        cnt, p, w, r := lbfsize, 0, 0, 0;
      }
      n := WriteRest(data, count);
    }

    method WriteRest(data: array<Byte>, len: int) returns (n: int)
      requires Sane(View()) && data != base && len <= data.Length
      requires 0 <= w && 0 <= cnt <= lbfsize
      modifies this, base
      ensures base == old(base)
      ensures View() == WriteInRange(old(View()), data[..], len).f && n == WriteInRange(old(View()), data[..], len).n
    {
      var count := len;
      if count < 0 {
        return -1;
      }
      if count > cnt {
        if cnt <= 0 {
          w, r, p, cnt := lbfsize, lbfsize, lbfsize, 0;
          return -1;
        }
        count := cnt;
      }
      if w < r {
        w := r;
        cnt := lbfsize - w;
      }
      StoreAtOffset(data, count);
      n := count;
    }

    /** The copy to the write offset, and the bookkeeping after it. */
    method StoreAtOffset(data: array<Byte>, count: nat)
      requires data != base && count <= data.Length && 0 <= w && w + count <= base.Length
      modifies this, base
      ensures base == old(base)
      ensures View() == old(View()).(base := Overwrite(old(base[..]), old(w), data[..][..count]),
        p := old(w) + count, w := old(w) + count, cnt := old(cnt) - count, flags := SRD, canRead := true)
    {
      p := w;
      assert data[0..count] == data[..][..count];
      Memcpy(base, p, data, 0, count);
      Advance(count);
    }

    /** The bookkeeping of a write of count bytes. */
    method Advance(count: nat)
      modifies this`p, this`w, this`cnt, this`flags, this`canRead
      ensures View() == old(View()).(p := old(p) + count, w := old(w) + count, cnt := old(cnt) - count,
        flags := SRD, canRead := true)
    {
      p := p + count;
      w := w + count;
      cnt := cnt - count;
      flags := SRD;
      canRead := true;
    }

    /** The read system call on a regular file. */
    method ReadImp(buffer: array<Byte>, count: int) returns (n: int)
      requires Sane(View()) && buffer != base && count % 0x1_0000 <= buffer.Length
      modifies this, buffer
      ensures base == old(base)
      ensures View() == SysRead(old(View()), count).f && n == SysRead(old(View()), count).n
      ensures 0 <= n ==> n <= buffer.Length && buffer[..n] == SysRead(old(View()), count).out
    {
      if count < 0 {
        return -EINVAL;
      }
      if count == 0 {
        return 0;
      }
      if !canRead {
        return -1;
      }
      if !flags.srd {
        return -1;
      }
      n := FileReadBuffer(buffer, count);
      if n <= 0 {
        return -1;
      }
      flags := flags.(swr := true);
      canWrite := true;
    }

    /** The write system call on a regular file. */
    method WriteImp(data: array<Byte>) returns (n: int)
      requires Sane(View()) && data != base
      modifies this, base
      ensures base == old(base)
      ensures View() == SysWrite(old(View()), old(data[..])).f && n == SysWrite(old(View()), old(data[..])).n
    {
      if data.Length == 0 {
        return 0;
      }
      if !canWrite {
        return -1;
      }
      if !flags.swr {
        return 0;
      }
      n := FileWriteBuffer(data, data.Length);
      if n > 0 {
        flags := SRD;
        canRead := true;
        return;
      }
      n := 0;
    }

    /** The clearing seek: zero the first BUFSIZ bytes and start over. */
    method SeekClear()
      requires base.Length >= BUFSIZ
      modifies this, base
      ensures base == old(base) && View() == Clear(old(View()))
    {
      var i := 0;
      while i < BUFSIZ
        invariant 0 <= i <= BUFSIZ
        invariant base == old(base)
        invariant forall k :: 0 <= k < i ==> base[k] == 0
        invariant forall k :: i <= k < base.Length ==> base[k] == old(base[k])
        modifies base
      {
        base[i] := 0;
        i := i + 1;
      }
      p := 0;
      r := 0;
      w := 0;
      cnt := lbfsize;
      assert base[..] == seq(BUFSIZ, k => 0 as Byte) + old(base[..])[BUFSIZ..];
    }
  }

  /** memcpy between distinct buffers. */
  method Memcpy(dst: array<Byte>, d: nat, src: array<Byte>, s: nat, n: nat)
    requires dst != src && d + n <= dst.Length && s + n <= src.Length
    modifies dst
    ensures dst[..] == Overwrite(old(dst[..]), d, src[s..s + n])
  {
    var i := 0;
    while i < n
      invariant 0 <= i <= n
      invariant forall k :: d <= k < d + i ==> dst[k] == src[s + k - d]
      invariant forall k :: 0 <= k < d || d + i <= k < dst.Length ==> dst[k] == old(dst[k])
    {
      dst[d + i] := src[s + i];
      i := i + 1;
    }
    assert dst[d..d + n] == src[s..s + n];
    assert dst[..] == dst[..d] + dst[d..d + n] + dst[d + n..];
    assert dst[..d] == old(dst[..])[..d] && dst[d + n..] == old(dst[..])[d + n..];
  }
}
