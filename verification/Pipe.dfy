/**
 The pipe: one buffer of fixed size shared by two open files, with a read and a
 write position that wrap lazily (either may rest one past the end between
 calls) and an occupancy counter.

 `Put` and `Take` are the bodies of the two copy loops; `Write` and `Read` are the
 loops.  The class methods run those loops over an array, and the lemmas show that the
 ring is a bounded first-in first-out queue over every sequence of calls.
 */
module Pipe {
  import opened FileCommon
  import opened Sequences

  datatype Ring = Ring(base: seq<Byte>, counter: int, readPos: int, writePos: int)

  function Fresh(base: seq<Byte>): Ring {
    Ring(base, 0, 0, 0)
  }

  /** The lazy wrap at the head of each loop iteration. */
  function Wrap(size: nat, pos: int): int {
    if pos >= size then 0 else pos
  }

  predicate InBounds(r: Ring) {
    |r.base| > 0 && 0 <= r.readPos && 0 <= r.writePos
  }

  function Put(r: Ring, b: Byte): (r': Ring)
    requires InBounds(r)
    ensures InBounds(r')
  {
    var w := Wrap(|r.base|, r.writePos);
    r.(base := r.base[w := b], writePos := w + 1, counter := r.counter + 1)
  }

  function Peek(r: Ring): Byte
    requires InBounds(r)
  {
    r.base[Wrap(|r.base|, r.readPos)]
  }

  function Take(r: Ring): (r': Ring)
    requires InBounds(r)
    ensures InBounds(r')
  {
    r.(readPos := Wrap(|r.base|, r.readPos) + 1, counter := r.counter - 1)
  }

  /** The write loop: stops at a full ring or when the data is used up. */
  function Write(r: Ring, data: seq<Byte>): (r': Ring)
    requires InBounds(r)
    ensures InBounds(r')
    decreases |data|
  {
    if data == [] || r.counter >= |r.base| then r else Write(Put(r, data[0]), data[1..])
  }

  /** The read loop: stops at an empty ring, where it also resets a negative counter. */
  function Read(r: Ring, len: int): (out: Drawn)
    requires InBounds(r)
    ensures InBounds(out.ring)
    decreases len
  {
    if len <= 0 then Drawn(r, [])
    else if r.counter <= 0 then Drawn(r.(counter := 0), [])
    else
      var rest := Read(Take(r), len - 1);
      Drawn(rest.ring, [Peek(r)] + rest.bytes)
  }

  datatype Drawn = Drawn(ring: Ring, bytes: seq<Byte>) {
    function Parts(): (Ring, seq<Byte>) {
      (ring, bytes)
    }
  }

  // ------------------------------------------------------------------ as a queue

  /** Index of the i-th unread byte, counted round the buffer. */
  function At(r: Ring, i: int): int {
    var p := Wrap(|r.base|, r.readPos) + i;
    if p >= |r.base| then p - |r.base| else p
  }

  ghost predicate Inv(r: Ring) {
    && InBounds(r)
    && 0 <= r.counter <= |r.base|
    && r.readPos <= |r.base| && r.writePos <= |r.base|
    && Wrap(|r.base|, r.writePos) == At(r, r.counter)
  }

  ghost function Contents(r: Ring): (s: seq<Byte>)
    requires Inv(r)
    ensures |s| == r.counter
    ensures forall i :: 0 <= i < r.counter ==> s[i] == r.base[At(r, i)]
  {
    seq(r.counter, i requires 0 <= i < r.counter => r.base[At(r, i)])
  }

  /** The unread bytes are the `counter` bytes from `readPos` on, modulo the size. */
  lemma UnreadBytesAreModular(r: Ring, i: int)
    requires Inv(r) && 0 <= i < r.counter
    ensures Contents(r)[i] == r.base[(r.readPos + i) % |r.base|]
    ensures (r.readPos + r.counter) % |r.base| == r.writePos % |r.base|
  {
    ModuloByWrap(r.readPos + i, |r.base|);
    ModuloByWrap(r.readPos + r.counter, |r.base|);
    ModuloByWrap(r.writePos, |r.base|);
  }

  lemma ModuloByWrap(x: int, n: int)
    requires n > 0 && 0 <= x <= 2 * n
    ensures x % n == if x < n then x else if x < 2 * n then x - n else 0
  {
    if x < n {
      assert x == 0 * n + x;
      DivisionIsUnique(x, n, 0, x);
    } else if x < 2 * n {
      DivisionIsUnique(x, n, 1, x - n);
    } else {
      DivisionIsUnique(x, n, 2, 0);
    }
  }

  lemma DivisionIsUnique(x: int, n: int, q: int, m: int)
    requires n > 0 && x == q * n + m && 0 <= m < n
    ensures x % n == m
  {
    var d := x / n - q;
    assert n * d == m - x % n;
    assert d == 0;
  }

  lemma FreshIsEmpty(base: seq<Byte>)
    requires |base| > 0
    ensures Inv(Fresh(base)) && Contents(Fresh(base)) == []
  {
  }

  lemma PutAppends(r: Ring, b: Byte)
    requires Inv(r) && r.counter < |r.base|
    ensures Inv(Put(r, b)) && Contents(Put(r, b)) == Contents(r) + [b]
  {
    var r' := Put(r, b);
    var w := Wrap(|r.base|, r.writePos);
    forall i | 0 <= i < r'.counter ensures Contents(r')[i] == (Contents(r) + [b])[i] {
      assert At(r', i) == At(r, i);
      assert i < r.counter ==> At(r, i) != w;
    }
  }

  lemma TakeRemoves(r: Ring)
    requires Inv(r) && r.counter > 0
    ensures Inv(Take(r))
    ensures Contents(r) == [Peek(r)] + Contents(Take(r))
  {
    var r' := Take(r);
    forall i | 0 <= i < r'.counter ensures Contents(r')[i] == Contents(r)[i + 1] {
      assert At(r', i) == At(r, i + 1);
    }
  }

  /** A write appends exactly as many bytes as fit and nothing else. */
  lemma {:induction false} WriteAppends(r: Ring, data: seq<Byte>)
    requires Inv(r)
    ensures var r' := Write(r, data);
      var n := Min(|data|, |r.base| - r.counter);
      && Inv(r') && |r'.base| == |r.base|
      && r'.counter == r.counter + n
      && Contents(r') == Contents(r) + data[..n]
    decreases |data|
  {
    if data != [] && r.counter < |r.base| {
      PutAppends(r, data[0]);
      WriteAppends(Put(r, data[0]), data[1..]);
      var n := Min(|data|, |r.base| - r.counter);
      assert data[..n] == [data[0]] + data[1..][..n - 1];
    }
  }

  /** A read removes exactly as many bytes as are there, oldest first. */
  lemma {:induction false} ReadRemoves(r: Ring, len: int)
    requires Inv(r)
    ensures var Drawn(r', out) := Read(r, len);
      var n := Min(if len < 0 then 0 else len, r.counter);
      && Inv(r') && r'.base == r.base
      && |out| == n
      && r'.counter == r.counter - n
      && Contents(r) == out + Contents(r')
    decreases len
  {
    if len > 0 && r.counter > 0 {
      TakeRemoves(r);
      ReadRemoves(Take(r), len - 1);
      var rest := Read(Take(r), len - 1);
      assert [Peek(r)] + (rest.bytes + Contents(rest.ring)) == ([Peek(r)] + rest.bytes) + Contents(rest.ring);
    }
  }

  // ------------------------------------------------------------------ every run of calls

  /** A call that passed the argument checks.  Both ends name the same ring, so it does not matter which one is used. */
  datatype Call = ReadCall(len: int) | WriteCall(data: seq<Byte>)

  datatype Trace = Trace(ring: Ring, accepted: seq<Byte>, returned: seq<Byte>, counts: seq<int>)

  function Step(t: Trace, c: Call): (t': Trace)
    requires InBounds(t.ring)
    ensures InBounds(t'.ring)
  {
    match c
    case ReadCall(len) =>
      var Drawn(r', out) := Read(t.ring, len);
      Trace(r', t.accepted, t.returned + out, t.counts + [|out|])
    case WriteCall(data) =>
      var r' := Write(t.ring, data);
      var n := r'.counter - t.ring.counter;
      if 0 <= n <= |data| then Trace(r', t.accepted + data[..n], t.returned, t.counts + [n])
      else Trace(r', t.accepted, t.returned, t.counts + [n])
  }

  function Run(t: Trace, calls: seq<Call>): (t': Trace)
    requires InBounds(t.ring)
    ensures InBounds(t'.ring)
    decreases |calls|
  {
    if calls == [] then t else Run(Step(t, calls[0]), calls[1..])
  }

  ghost predicate Faithful(t: Trace) {
    Inv(t.ring) && t.accepted == t.returned + Contents(t.ring)
  }

  lemma StepIsFaithful(t: Trace, c: Call)
    requires Faithful(t)
    ensures Faithful(Step(t, c))
    ensures |Step(t, c).ring.base| == |t.ring.base|
    ensures Step(t, c).counts == t.counts +
      [if c.ReadCall? then Min(if c.len < 0 then 0 else c.len, |Contents(t.ring)|)
       else Min(|c.data|, |t.ring.base| - |Contents(t.ring)|)]
  {
    match c
    case ReadCall(len) =>
      ReadRemoves(t.ring, len);
      var Drawn(r', out) := Read(t.ring, len);
      assert t.returned + (out + Contents(r')) == (t.returned + out) + Contents(r');
    case WriteCall(data) =>
      WriteAppends(t.ring, data);
  }

  lemma {:induction false} RunIsFaithful(t: Trace, calls: seq<Call>)
    requires Faithful(t)
    ensures Faithful(Run(t, calls))
    ensures |Run(t, calls).ring.base| == |t.ring.base|
    decreases |calls|
  {
    if calls != [] {
      StepIsFaithful(t, calls[0]);
      RunIsFaithful(Step(t, calls[0]), calls[1..]);
    }
  }

  /**
   Over every interleaving of reads and writes of any lengths, through whichever ends of a
   new pipe: what has been read is a prefix of what was accepted, and what was
   accepted and not read is exactly what the ring holds.
   */
  lemma PipeIsFifo(base: seq<Byte>, calls: seq<Call>)
    requires |base| > 0
    ensures var t := Run(Trace(Fresh(base), [], [], []), calls);
      && Inv(t.ring)
      && t.accepted == t.returned + Contents(t.ring)
      && t.returned <= t.accepted
      && |t.accepted| - |t.returned| == t.ring.counter <= |base|
  {
    FreshIsEmpty(base);
    RunIsFaithful(Trace(Fresh(base), [], [], []), calls);
  }

  // ------------------------------------------------------------------ the kernel objects

  class PipeInfo {
    const base: array<Byte>
    const bufferSize: int
    var counter: int
    var readPos: int
    var writePos: int

    /** The part of sys_pipe that sets up the state shared by both ends. */
    constructor (sharedBuffer: array<Byte>)
      requires sharedBuffer.Length > 0
      ensures base == sharedBuffer
      ensures Valid() && View() == Fresh(sharedBuffer[..]) && Contents(View()) == []
    {
      base := sharedBuffer;
      bufferSize := sharedBuffer.Length;
      counter := 0;
      readPos := 0;
      writePos := 0;
    }

    ghost predicate Valid()
      reads this, base
    {
      bufferSize == base.Length && Inv(View())
    }

    ghost function View(): Ring
      reads this, base
    {
      Ring(base[..], counter, readPos, writePos)
    }

    /** The copy loop of file_read_pipe_buffer. */
    method CopyOut(buffer: array<Byte>, len: int) returns (n: int)
      requires Valid() && 0 < len <= buffer.Length && buffer != base
      modifies this, buffer
      ensures Valid() && View() == Read(old(View()), len).ring
      ensures n == Min(len, old(|Contents(View())|))
      ensures buffer[..n] == old(Contents(View()))[..n]
      ensures forall k :: n <= k < buffer.Length ==> buffer[k] == old(buffer[k])
      ensures Contents(View()) == old(Contents(View()))[n..]
    {
      n := 0;
      ghost var r0 := View();
      var left := len;
      ReadRemoves(r0, len);
      while left > 0
        invariant 0 <= left && n + left == len
        invariant bufferSize == base.Length && base[..] == old(base[..])
        invariant InBounds(View())
        invariant Continues(Read(r0, len).Parts(), buffer[..n], Read(View(), left).Parts())
        invariant forall k :: n <= k < buffer.Length ==> buffer[k] == old(buffer[k])
      {
        if counter <= 0 {
          counter := 0;
          break;
        }
        ghost var done, r := buffer[..n], View();
        if readPos >= bufferSize {
          readPos := 0;
        }
        buffer[n] := base[readPos];
        readPos := readPos + 1;
        counter := counter - 1;
        n := n + 1;
        left := left - 1;
        assert View() == Take(r);
        assert buffer[..n] == done + [Peek(r)];
        ContinuesStep(Read(r0, len).Parts(), done, [Peek(r)], Read(Take(r), left).Parts());
      }
      assert Read(r0, len) == Drawn(View(), buffer[..n]);
    }

    /** The copy loop of file_write_pipe_buffer. */
    method CopyIn(buffer: array<Byte>, len: int) returns (n: int)
      requires Valid() && 0 < len <= buffer.Length && buffer != base
      modifies this, base
      ensures Valid() && View() == Write(old(View()), buffer[..len])
      ensures n == Min(len, bufferSize - old(|Contents(View())|))
      ensures Contents(View()) == old(Contents(View())) + buffer[..n]
    {
      n := 0;
      ghost var r0, data := View(), buffer[..len];
      var left := len;
      WriteAppends(r0, data);
      while left > 0
        invariant 0 <= left && n + left == len
        invariant bufferSize == base.Length
        invariant counter == r0.counter + n
        invariant InBounds(View())
        invariant Write(r0, data) == Write(View(), data[n..])
      {
        if counter >= bufferSize {
          break;
        }
        ghost var r := View();
        if writePos >= bufferSize {
          writePos := 0;
        }
        base[writePos] := buffer[n];
        writePos := writePos + 1;
        counter := counter + 1;
        assert View() == Put(r, data[n]);
        assert data[n..][1..] == data[n + 1..];
        n := n + 1;
        left := left - 1;
      }
      assert View() == Write(r0, data);
    }
  }

  datatype ObjectType = PipeObject | OtherObject

  class File {
    var objectType: ObjectType
    var used: bool
    var magic: int
    var flags: Flags
    var canRead: bool
    var canWrite: bool
    var pipeInfo: PipeInfo?

    /** One end of a pipe as sys_pipe leaves it. */
    constructor (info: PipeInfo)
      ensures Check(this, false, 1) == 0 && pipeInfo == info
    {
      objectType, used, magic := PipeObject, true, MAGIC;
      canRead, canWrite, flags := true, true, NONE;
      pipeInfo := info;
    }
  }

  /** The checks both routines start with, in order: 0 means go on. */
  function Check(f: File?, noBuffer: bool, len: int): (e: int)
    reads f
    ensures e == 0 <==>
      && f != null && f.objectType == PipeObject && f.used && f.magic == MAGIC
      && !noBuffer && len > 0 && f.pipeInfo != null
    ensures e == 0 || e == -9 || e == -22
    ensures e == -22 <==>
      && f != null && f.objectType == PipeObject && f.used && f.magic == 1234
      && (noBuffer || len <= 0)
  {
    if f == null || f.objectType != PipeObject then -EBADF
    else if !f.used || f.magic != MAGIC then -EBADF
    else if noBuffer || len <= 0 then -EINVAL
    else if f.pipeInfo == null then -EBADF
    else 0
  }

  ghost predicate Usable(f: File?, buffer: array?<Byte>, len: int)
    reads f, if f == null then {} else {f.pipeInfo}, if f == null || f.pipeInfo == null then {} else {f.pipeInfo.base}
  {
    && (f != null && f.pipeInfo != null ==> f.pipeInfo.Valid() && f.pipeInfo.base != buffer)
    && (buffer != null ==> len <= buffer.Length)
  }

  /** The pipe state behind a descriptor that passed the checks. */
  ghost function Behind(f: File?): Ring
    requires f != null && f.pipeInfo != null
    reads f, f.pipeInfo, f.pipeInfo.base
  {
    f.pipeInfo.View()
  }

  /**
   file_read_pipe_buffer through one end.  A rejected call changes nothing; an accepted
   one hands over min(len, unread) bytes, oldest first.
   */
  method FileReadPipeBuffer(f: File?, buffer: array?<Byte>, len: int) returns (n: int)
    requires Usable(f, buffer, len)
    modifies f, if f == null then {} else {f.pipeInfo}, buffer
    ensures old(Check(f, buffer == null, len)) != 0 ==> n == old(Check(f, buffer == null, len))
    ensures n < 0 ==> (f != null ==> unchanged(f)) && (buffer != null ==> unchanged(buffer))
    ensures n < 0 && f != null && f.pipeInfo != null ==> unchanged(f.pipeInfo)
    ensures old(Check(f, buffer == null, len)) == 0 ==>
      && f.pipeInfo == old(f.pipeInfo) && f.pipeInfo.Valid()
      && Behind(f) == Read(old(Behind(f)), len).ring
      && n == Min(len, |Contents(old(Behind(f)))|)
      && buffer[..n] == Contents(old(Behind(f)))[..n]
      && Contents(Behind(f)) == Contents(old(Behind(f)))[n..]
      && f.flags == SWR && f.canWrite
    ensures 0 <= n && buffer != null ==> forall k :: n <= k < buffer.Length ==> buffer[k] == old(buffer[k])
  {
    n := Check(f, buffer == null, len);
    if n != 0 {
      return;
    }
    n := ReadThrough(f, f.pipeInfo, buffer, len);
  }

  method MarkWritable(f: File)
    modifies f`flags, f`canWrite
    ensures f.flags == SWR && f.canWrite
  {
    f.flags := SWR;
    f.canWrite := true;
  }

  /** An accepted read: copy, then mark the end writable. */
  method ReadThrough(f: File, info: PipeInfo, buffer: array<Byte>, len: int) returns (n: int)
    requires f.pipeInfo == info && info.Valid() && info.base != buffer && 0 < len <= buffer.Length
    modifies f, info, buffer
    ensures f.pipeInfo == info && info.Valid()
    ensures info.View() == Read(old(info.View()), len).ring
    ensures n == Min(len, |Contents(old(info.View()))|)
    ensures buffer[..n] == Contents(old(info.View()))[..n]
    ensures Contents(info.View()) == Contents(old(info.View()))[n..]
    ensures forall k :: n <= k < buffer.Length ==> buffer[k] == old(buffer[k])
    ensures f.flags == SWR && f.canWrite
  {
    n := info.CopyOut(buffer, len);
    MarkWritable(f);
  }

  /**
   file_write_pipe_buffer through one end.  A rejected call changes nothing; an accepted
   one appends min(len, free) bytes to what is unread.
   */
  method FileWritePipeBuffer(f: File?, buffer: array?<Byte>, len: int) returns (n: int)
    requires Usable(f, buffer, len)
    modifies f, if f == null then {} else {f.pipeInfo}, if f == null || f.pipeInfo == null then {} else {f.pipeInfo.base}
    ensures old(Check(f, buffer == null, len)) != 0 ==> n == old(Check(f, buffer == null, len))
    ensures n < 0 ==> (f != null ==> unchanged(f))
    ensures n < 0 && f != null && f.pipeInfo != null ==> unchanged(f.pipeInfo) && unchanged(f.pipeInfo.base)
    ensures old(Check(f, buffer == null, len)) == 0 ==>
      && f.pipeInfo == old(f.pipeInfo) && f.pipeInfo.Valid()
      && Behind(f) == Write(old(Behind(f)), buffer[..len])
      && n == Min(len, f.pipeInfo.bufferSize - |Contents(old(Behind(f)))|)
      && Contents(Behind(f)) == Contents(old(Behind(f))) + buffer[..n]
      && f.flags == SRD && f.canRead
  {
    n := Check(f, buffer == null, len);
    if n != 0 {
      return;
    }
    n := f.pipeInfo.CopyIn(buffer, len);
    f.flags := SRD;
    f.canRead := true;
  }
}
