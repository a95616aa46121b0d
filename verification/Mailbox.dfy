/**
 A local socket: a file used as a one-message mailbox.

 A write puts one message into an empty mailbox and a read takes it out.  Whether
 either may proceed is decided by two flag bits and a "full" mark that are kept
 by hand in every branch, and that the synchronisation requests 216 and 217 and the
 sleep-if-empty call also overwrite.
 */
module Mailbox {
  import opened FileCommon
  import opened Sequences

  datatype Box = Box(base: seq<Byte>, flags: Flags, full: bool, canRead: bool, canWrite: bool,
                     r: int, w: int, used: bool, magic: int, blockOnReadEmpty: bool)

  datatype Outcome = Returned(n: int) | Panicked

  datatype Effect = Effect(box: Box, outcome: Outcome, out: seq<Byte>)

  predicate Shaped(b: Box) {
    |b.base| == BUFSIZ
  }

  /** The checks that a file structure is a valid one. */
  predicate Genuine(b: Box) {
    b.used && b.magic == MAGIC
  }

  /** The socket branch of the write system call, with file_write_buffer below it. */
  function Write(b: Box, data: seq<Byte>): (e: Effect)
    requires Shaped(b)
    ensures Shaped(e.box)
  {
    if |data| == 0 then Effect(b, Returned(0), [])
    else if !b.canWrite then Effect(b, Returned(-1), [])
    else if !b.flags.swr then Effect(b, Returned(-1), [])
    else if b.full then Effect(b.(flags := SRD), Returned(-1), [])
    else if |data| >= BUFSIZ then Effect(b.(flags := NONE), Returned(-1), [])
    else Effect(b.(base := data + b.base[|data|..], full := true, flags := SRD), Returned(|data|), [])
  }

  /** The socket branch of the read system call, with file_read_buffer below it. */
  function Read(b: Box, count: int): (e: Effect)
    requires Shaped(b)
    ensures Shaped(e.box)
  {
    if count < 0 then Effect(b, Returned(-EINVAL), [])
    else if count == 0 then Effect(b, Returned(0), [])
    else if !b.canRead then Effect(b, Returned(-1), [])
    else if !b.flags.srd then Effect(b, Returned(-1), [])
    else if !b.full then
      Effect(b.(flags := SWR), if b.blockOnReadEmpty then Panicked else Returned(-1), [])
    else
      var asked := count % 0x1_0000;
      if !Genuine(b) || asked == 0 then Effect(b, Returned(-1), [])
      else
        var n := if asked > BUFSIZ then BUFSIZ else asked;
        Effect(b.(full := false, flags := SWR), Returned(n), b.base[..n])
  }

  /** Synchronisation request 216: empty the mailbox and allow writing. */
  function ResetWrite(b: Box): Box {
    if !Genuine(b) then b else b.(canWrite := true, flags := SWR, r := 0, w := 0, full := false)
  }

  /** Synchronisation request 217: allow reading. */
  function ResetRead(b: Box): Box {
    if !Genuine(b) then b else b.(canRead := true, flags := SRD)
  }

  function SleepIfEmpty(b: Box): (e: Effect) {
    if !Genuine(b) then Effect(b, Returned(-1), [])
    else if !b.full then Effect(b.(flags := b.flags.(swr := true)), Returned(0), [])
    else Effect(b.(flags := b.flags.(srd := true)), Returned(1), [])
  }

  // ------------------------------------------------------------------ what each call does

  /** The conditions under which a message is taken in. */
  ghost predicate TakesIn(b: Box, data: seq<Byte>) {
    0 < |data| < 1024 && b.canWrite && b.flags.swr && !b.full
  }

  /** The conditions under which a read hands a message out. */
  ghost predicate HandsOut(b: Box, count: int) {
    count > 0 && count % 65536 > 0 && b.canRead && b.flags.srd && b.full && b.used && b.magic == 1234
  }

  /**
   A write is accepted if and only if the message fits, the caller may write, the write flag is up and the mailbox
   is empty.  It then lies at the front of memory, the mailbox is full and readable, and its length is returned.
   */
  lemma WriteResult(b: Box, data: seq<Byte>)
    requires Shaped(b)
    ensures var Effect(b', outcome, _) := Write(b, data);
      && (TakesIn(b, data) ==>
            && outcome == Returned(|data|) && b'.full && b'.flags == SRD
            && |b'.base| == |b.base| && data <= b'.base && b'.base[|data|..] == b.base[|data|..])
      && (!TakesIn(b, data) ==>
            && outcome == Returned(if data == [] then 0 else -1)
            && b'.flags == (if data == [] || !b.canWrite || !b.flags.swr then b.flags else if b.full then SRD else NONE)
            && b'.base == b.base && b'.full == b.full)
      && SameRights(b, b')
  {
  }

  /** Neither reads nor writes change who may do what. */
  ghost predicate SameRights(b: Box, b': Box) {
    && b'.canRead == b.canRead && b'.canWrite == b.canWrite && b'.used == b.used && b'.magic == b.magic
    && b'.blockOnReadEmpty == b.blockOnReadEmpty && b'.r == b.r && b'.w == b.w
  }

  /**
   A read hands out a message if and only if it asks for some bytes, the caller may read, the read flag is up and the
   mailbox is full and genuine.  It returns the length asked for, up to the buffer, and leaves the mailbox empty and writable.
   */
  lemma ReadResult(b: Box, count: int)
    requires Shaped(b)
    ensures var Effect(b', outcome, out) := Read(b, count);
      && (HandsOut(b, count) ==>
            && outcome == Returned(if count % 65536 < 1024 then count % 65536 else 1024)
            && |out| == outcome.n && out <= b.base && !b'.full && b'.flags == SWR)
      && (!HandsOut(b, count) ==>
            && out == [] && b'.full == b.full
            && b'.flags == (if count > 0 && b.canRead && b.flags.srd && !b.full then SWR else b.flags)
            && (outcome.Returned? ==> outcome.n == if count < 0 then -22 else if count == 0 then 0 else -1))
      && b'.base == b.base && SameRights(b, b')
  {
  }

  /** What was written is what is read, by a read of that length; a longer read begins with it. */
  lemma WriteThenRead(b: Box, data: seq<Byte>, count: int)
    requires Shaped(b) && TakesIn(b, data) && b.canRead && Genuine(b) && |data| <= count < 65536
    ensures var e := Read(Write(b, data).box, count);
      && e.outcome.Returned? && data <= e.out
      && (count == |data| ==> e.out == data && e.outcome == Returned(|data|))
      && TakesIn(e.box, data)
  {
  }

  /** What the requests are for: 216 lets a message in, 217 lets a waiting one out. */
  lemma RequestsEnable(b: Box, data: seq<Byte>, count: int)
    requires Genuine(b) && 0 < |data| < 1024 && 0 < count < 65536
    ensures TakesIn(ResetWrite(b), data)
    ensures HandsOut(ResetRead(b), count) <==> b.full
    ensures ResetWrite(b).base == ResetRead(b).base == b.base
    ensures ResetRead(b).full == b.full && ResetRead(b).canWrite == b.canWrite && ResetWrite(b).canRead == b.canRead
    ensures ResetWrite(b).r == 0 && ResetWrite(b).w == 0
  {
  }

  /** Sleep-if-empty answers whether there is a message, and raises the flag for what can be done then. */
  lemma SleepResult(b: Box, data: seq<Byte>, count: int)
    requires 0 < |data| < 1024 && 0 < count < 65536
    ensures var e := SleepIfEmpty(b);
      && (e.outcome == Returned(-1) <==> !Genuine(b))
      && (e.outcome == Returned(1) <==> Genuine(b) && b.full)
      && (e.outcome == Returned(0) <==> Genuine(b) && !b.full)
      && (e.outcome == Returned(0) && b.canWrite ==> TakesIn(e.box, data))
      && (e.outcome == Returned(1) && b.canRead ==> HandsOut(e.box, count))
      && e.box.base == b.base && e.box.full == b.full && SameRights(b, e.box)
      && (e.outcome == Returned(-1) ==> e.box == b)
  {
  }

  // ------------------------------------------------------------------ runs

  datatype Op = Writing(data: seq<Byte>) | Reading(count: int) | Reset216 | Reset217 | Sleeping

  datatype Mark = Wrote | Took | Emptied

  /**
   What happened to a mailbox: the messages accepted and the memory each was laid over; which
   of them were taken out, by reads of what length and with what bytes; which were thrown
   away; and the order of all those events.
   */
  datatype History = History(
    written: seq<seq<Byte>>, beneath: seq<seq<Byte>>,
    taken: seq<nat>, counts: seq<int>, outs: seq<seq<Byte>>,
    lost: seq<nat>, log: seq<Mark>)

  const NOTHING := History([], [], [], [], [], [], [])

  function AfterWrite(h: History, data: seq<Byte>, memory: seq<Byte>): History {
    h.(written := h.written + [data], beneath := h.beneath + [memory], log := h.log + [Wrote])
  }

  function AfterRead(h: History, count: int, out: seq<Byte>): History
    requires |h.written| > 0
  {
    h.(taken := h.taken + [|h.written| - 1], counts := h.counts + [count], outs := h.outs + [out],
       log := h.log + [Took])
  }

  function AfterReset(h: History, full: bool): History {
    h.(lost := if full && |h.written| > 0 then h.lost + [|h.written| - 1] else h.lost, log := h.log + [Emptied])
  }

  datatype Trace = Trace(box: Box, h: History, panicked: bool)

  function Step(t: Trace, op: Op): (t': Trace)
    requires Shaped(t.box)
    ensures Shaped(t'.box)
  {
    if t.panicked then t
    else match op
      case Writing(data) =>
        var e := Write(t.box, data);
        if e.outcome.Returned? && e.outcome.n > 0
        then t.(box := e.box, h := AfterWrite(t.h, data, t.box.base))
        else t.(box := e.box)
      case Reading(count) =>
        var e := Read(t.box, count);
        if e.outcome.Panicked? then t.(box := e.box, panicked := true)
        else if e.outcome.n > 0 && |t.h.written| > 0
        then t.(box := e.box, h := AfterRead(t.h, count, e.out))
        else t.(box := e.box)
      case Reset216 =>
        if !Genuine(t.box) then t
        else t.(box := ResetWrite(t.box), h := AfterReset(t.h, t.box.full))
      case Reset217 => t.(box := ResetRead(t.box))
      case Sleeping => t.(box := SleepIfEmpty(t.box).box)
  }

  function Run(t: Trace, ops: seq<Op>): (t': Trace)
    requires Shaped(t.box)
    ensures Shaped(t'.box)
    decreases |ops|
  {
    if ops == [] then t else Run(Step(t, ops[0]), ops[1..])
  }

  /** A socket file as it is created. */
  ghost predicate Created(t: Trace) {
    && Shaped(t.box) && Genuine(t.box) && t.box.flags == SWR && !t.box.full
    && t.h == NOTHING && !t.panicked
  }

  // ------------------------------------------------------------------ what every run keeps

  /** A full mailbox can be read and not written, and was written last. */
  ghost predicate Guarded(b: Box, h: History) {
    && Shaped(b)
    && (b.full ==> b.flags == SRD && |h.written| > 0)
    && (b.full <==> h.log != [] && h.log[|h.log| - 1] == Wrote)
  }

  /** Memory once a message has been laid over its front. */
  function Laid(message: seq<Byte>, memory: seq<Byte>): seq<Byte> {
    if |message| <= |memory| then message + memory[|message|..] else message
  }

  /** The memory after the k-th message. */
  ghost function MemoryAfter(written: seq<seq<Byte>>, beneath: seq<seq<Byte>>, k: nat): seq<Byte>
    requires k < |written| == |beneath|
  {
    Laid(written[k], beneath[k])
  }

  /** Memory changes by messages only: each is laid over what the ones before it left. */
  ghost predicate Layered(written: seq<seq<Byte>>, beneath: seq<seq<Byte>>, base: seq<Byte>) {
    && |beneath| == |written|
    && (forall k :: 0 <= k < |written| ==> |written[k]| < BUFSIZ && |beneath[k]| == BUFSIZ)
    && (forall k :: 0 < k < |written| ==> beneath[k] == MemoryAfter(written, beneath, k - 1))
    && (|written| > 0 ==> base == MemoryAfter(written, beneath, |written| - 1))
  }

  /** Every message but one still waiting has been either taken or lost, and only one of the two. */
  ghost predicate Accounted(h: History, full: bool) {
    && (forall j :: 0 <= j < |h.taken| ==> h.taken[j] < |h.written|)
    && (forall j :: 0 <= j < |h.lost| ==> h.lost[j] < |h.written|)
    && (forall i :: 0 <= i < |h.written| ==>
          (i in h.taken || i in h.lost || (full && i == |h.written| - 1)))
    && (forall i :: i in h.taken ==> i !in h.lost)
    && (full ==> |h.written| - 1 !in h.taken && |h.written| - 1 !in h.lost)
  }

  /** The j-th read returned the message it took and, if longer, what older messages left behind it. */
  ghost predicate ReadBack(h: History, j: nat)
    requires |h.written| == |h.beneath| && j < |h.taken| == |h.outs| == |h.counts|
  {
    && h.taken[j] < |h.written|
    && |h.outs[j]| == Min(h.counts[j] % 0x1_0000, BUFSIZ)
    && h.outs[j] <= MemoryAfter(h.written, h.beneath, h.taken[j])
  }

  ghost predicate InOrder(h: History) {
    && Increasing(h.taken) && Increasing(h.lost)
    && |h.beneath| == |h.written| && |h.outs| == |h.taken| == |h.counts|
    && (forall j :: 0 <= j < |h.taken| ==> ReadBack(h, j))
  }

  /** A message is taken right after it was written; two writes never follow one another. */
  ghost predicate Alternates(log: seq<Mark>) {
    && (forall i :: 0 <= i < |log| && log[i] == Took ==> i > 0 && log[i - 1] == Wrote)
    && (forall i :: 0 < i < |log| && log[i] == Wrote ==> log[i - 1] != Wrote)
  }

  ghost predicate Inv(t: Trace) {
    && Guarded(t.box, t.h) && Layered(t.h.written, t.h.beneath, t.box.base) && Accounted(t.h, t.box.full)
    && InOrder(t.h) && Alternates(t.h.log)
  }

  lemma WriteIsLayered(written: seq<seq<Byte>>, beneath: seq<seq<Byte>>, data: seq<Byte>, base: seq<Byte>)
    requires Layered(written, beneath, base) && |base| == BUFSIZ && |data| < BUFSIZ
    ensures Layered(written + [data], beneath + [base], Laid(data, base))
  {
    var ms, bs := written + [data], beneath + [base];
    forall k | 0 < k < |ms| ensures bs[k] == MemoryAfter(ms, bs, k - 1) {
      assert MemoryAfter(ms, bs, k - 1) == MemoryAfter(written, beneath, k - 1);
    }
  }

  /** A new message waits; those before it are taken or lost already. */
  lemma WriteIsAccounted(h: History, data: seq<Byte>, base: seq<Byte>)
    requires Accounted(h, false)
    ensures Accounted(AfterWrite(h, data, base), true)
  {
    var h' := AfterWrite(h, data, base);
    forall i | 0 <= i < |h'.written| ensures i in h'.taken || i in h'.lost || i == |h'.written| - 1 {
      assert i < |h.written| ==> i in h.taken || i in h.lost;
    }
  }

  lemma WriteKeepsOrder(h: History, data: seq<Byte>, base: seq<Byte>)
    requires InOrder(h)
    ensures InOrder(AfterWrite(h, data, base))
  {
    var h' := AfterWrite(h, data, base);
    forall j: nat | j < |h'.taken| ensures ReadBack(h', j) {
      assert ReadBack(h, j);
      assert MemoryAfter(h'.written, h'.beneath, h.taken[j]) == MemoryAfter(h.written, h.beneath, h.taken[j]);
    }
  }

  /** A write either leaves message and memory alone or lays a message into an empty mailbox. */
  lemma WriteEffect(t: Trace, data: seq<Byte>)
    requires Guarded(t.box, t.h)
    ensures var t' := Step(t, Writing(data));
      && (t'.h == t.h ==> t'.box.base == t.box.base && t'.box.full == t.box.full && (t.box.full ==> t'.box.flags == SRD))
      && (t'.h != t.h ==> !t.box.full && t'.box.full && t'.box.flags == SRD && |data| < BUFSIZ
                          && t'.h == AfterWrite(t.h, data, t.box.base) && t'.box.base == Laid(data, t.box.base))
  {
  }

  lemma WriteKeepsInv(t: Trace, data: seq<Byte>)
    requires Inv(t)
    ensures Inv(Step(t, Writing(data)))
  {
    WriteEffect(t, data);
    if Step(t, Writing(data)).h != t.h {
      WriteIsLayered(t.h.written, t.h.beneath, data, t.box.base);
      WriteIsAccounted(t.h, data, t.box.base);
      WriteKeepsOrder(t.h, data, t.box.base);
    }
  }

  /** Taking the waiting message moves it from waiting to taken. */
  lemma ReadIsAccounted(h: History, count: int, out: seq<Byte>)
    requires Accounted(h, true) && |h.written| > 0
    ensures Accounted(AfterRead(h, count, out), false)
  {
    var h' := AfterRead(h, count, out);
    assert h'.taken[|h.taken|] == |h.written| - 1;
    forall i | 0 <= i < |h'.written| ensures i in h'.taken || i in h'.lost {
      assert i in h.taken ==> i in h'.taken;
    }
  }

  lemma ReadKeepsOrder(h: History, count: int, out: seq<Byte>, base: seq<Byte>)
    requires InOrder(h) && Accounted(h, true) && Layered(h.written, h.beneath, base) && |h.written| > 0
    requires |out| == Min(count % 0x1_0000, BUFSIZ) && out <= base
    ensures InOrder(AfterRead(h, count, out))
  {
    var h' := AfterRead(h, count, out);
    forall i, j | 0 <= i < j < |h'.taken| ensures h'.taken[i] < h'.taken[j] {
      assert h.taken[i] in h.taken;
    }
    forall j: nat | j < |h'.taken| ensures ReadBack(h', j) {
      if j < |h.taken| {
        assert ReadBack(h, j);
        assert h'.taken[j] == h.taken[j] && h'.outs[j] == h.outs[j] && h'.counts[j] == h.counts[j];
      } else {
        assert h'.taken[j] == |h.written| - 1 && h'.outs[j] == out && h'.counts[j] == count;
      }
    }
  }

  /** A read either leaves message and memory alone or takes the message and leaves the memory. */
  lemma ReadEffect(t: Trace, count: int, out: seq<Byte>)
    requires Guarded(t.box, t.h) && out == Read(t.box, count).out
    ensures var t' := Step(t, Reading(count));
      && t'.box.base == t.box.base
      && (t'.h == t.h ==> t'.box.full == t.box.full && (t.box.full ==> t'.box.flags == t.box.flags))
      && (t'.h != t.h ==> t.box.full && !t'.box.full && |t.h.written| > 0 && t'.h == AfterRead(t.h, count, out)
                          && |out| == Min(count % 0x1_0000, BUFSIZ) && out <= t.box.base)
  {
  }

  lemma ReadKeepsInv(t: Trace, count: int)
    requires Inv(t)
    ensures Inv(Step(t, Reading(count)))
  {
    var t', out := Step(t, Reading(count)), Read(t.box, count).out;
    ReadEffect(t, count, out);
    if t'.h != t.h {
      ReadIsAccounted(t.h, count, out);
      ReadKeepsOrder(t.h, count, out, t.box.base);
      ReadAlternates(t.h, count, out);
    }
  }

  lemma ReadAlternates(h: History, count: int, out: seq<Byte>)
    requires Alternates(h.log) && h.log != [] && h.log[|h.log| - 1] == Wrote && |h.written| > 0
    ensures Alternates(AfterRead(h, count, out).log)
  {
  }

  /** Emptying a full mailbox loses the waiting message. */
  lemma ResetIsAccounted(h: History, full: bool)
    requires Accounted(h, full) && Increasing(h.lost) && (full ==> |h.written| > 0)
    ensures Accounted(AfterReset(h, full), false) && Increasing(AfterReset(h, full).lost)
  {
    var h' := AfterReset(h, full);
    if full {
      assert h'.lost[|h.lost|] == |h.written| - 1;
      forall i | 0 <= i < |h'.written| ensures i in h'.taken || i in h'.lost {
        assert i in h.lost ==> i in h'.lost;
      }
      forall i, j | 0 <= i < j < |h'.lost| ensures h'.lost[i] < h'.lost[j] {
        assert h.lost[i] in h.lost;
      }
    }
  }

  /** What was taken has nothing to do with what is lost. */
  lemma ResetKeepsReads(h: History, full: bool)
    requires InOrder(h) && Increasing(AfterReset(h, full).lost)
    ensures InOrder(AfterReset(h, full))
  {
    var h' := AfterReset(h, full);
    forall j: nat | j < |h'.taken| ensures ReadBack(h', j) {
      assert ReadBack(h, j);
    }
  }

  lemma ResetKeepsInv(t: Trace)
    requires Inv(t)
    ensures Inv(Step(t, Reset216))
  {
    ResetIsAccounted(t.h, t.box.full);
    ResetKeepsReads(t.h, t.box.full);
  }

  lemma StepKeepsInv(t: Trace, op: Op)
    requires Inv(t)
    ensures Inv(Step(t, op))
  {
    match op
    case Writing(data) => WriteKeepsInv(t, data);
    case Reading(count) => ReadKeepsInv(t, count);
    case Reset216 => ResetKeepsInv(t);
    case Reset217 =>
    case Sleeping =>
  }

  lemma {:induction false} RunKeepsInv(t: Trace, ops: seq<Op>)
    requires Inv(t)
    ensures Inv(Run(t, ops))
    decreases |ops|
  {
    if ops != [] {
      StepKeepsInv(t, ops[0]);
      RunKeepsInv(Step(t, ops[0]), ops[1..]);
    }
  }

  /**
   Over every run of a new mailbox: a full one is readable and nothing else; the messages
   taken out are an in-order subsequence of those written; a read returns exactly the
   length asked for, of the message followed by what older messages left behind it; every
   other message is waiting or was lost, also in order; and a message is only ever taken
   directly after it was written.
   */
  lemma MailboxIsFaithful(t: Trace, ops: seq<Op>)
    requires Created(t)
    ensures var u := Run(t, ops);
      && (u.box.full ==> u.box.flags == SRD)
      && Layered(u.h.written, u.h.beneath, u.box.base) && InOrder(u.h) && Accounted(u.h, u.box.full) && Alternates(u.h.log)
  {
    RunKeepsInv(t, ops);
  }

  /** An unread message is never overwritten: until it is taken or reset away its bytes stay put. */
  lemma UnreadMessageIsSafe(t: Trace, op: Op)
    requires Inv(t) && t.box.full
    ensures var t' := Step(t, op);
      t'.box.full ==> t'.box.base == t.box.base && t'.h == t.h
    ensures !Step(t, op).box.full ==> op.Reading? || op.Reset216?
  {
  }

  ghost predicate Without216(ops: seq<Op>) {
    forall i :: 0 <= i < |ops| ==> !ops[i].Reset216?
  }

  /** Messages are lost at request 216 only, one at most each time. */
  lemma {:induction false} LossOnlyAt216(t: Trace, ops: seq<Op>)
    requires Shaped(t.box) && Without216(ops)
    ensures Run(t, ops).h.lost == t.h.lost
    ensures Emptied in Run(t, ops).h.log ==> Emptied in t.h.log
    decreases |ops|
  {
    if ops != [] {
      LossOnlyAt216(Step(t, ops[0]), ops[1..]);
    }
  }

  /** Without request 216, successful writes and reads strictly alternate, a write first. */
  lemma StrictAlternation(t: Trace, ops: seq<Op>, i: int)
    requires Created(t) && Without216(ops)
    requires 0 <= i < |Run(t, ops).h.log|
    ensures Run(t, ops).h.log[i] == if i % 2 == 0 then Wrote else Took
    decreases i
  {
    RunKeepsInv(t, ops);
    LossOnlyAt216(t, ops);
    var log := Run(t, ops).h.log;
    assert log[i] in log;
    if i > 0 {
      StrictAlternation(t, ops, i - 1);
    }
  }

  // ------------------------------------------------------------------ when a read panics

  /** No panic so far, and the read flag is up exactly when there is something to read. */
  ghost predicate Readable(t: Trace) {
    Shaped(t.box) && !t.panicked && (t.box.full ==> t.box.flags == SRD) && (t.box.flags.srd ==> t.box.full)
  }

  /** Request 217 reaches an empty mailbox: the read flag goes up with nothing to read. */
  ghost predicate Arms(t: Trace, op: Op) {
    op.Reset217? && !t.box.full && Genuine(t.box)
  }

  /** The one step that raises the read flag on an empty mailbox. */
  lemma StepReadableIff(t: Trace, op: Op)
    requires Readable(t)
    ensures Readable(Step(t, op)) <==> !Arms(t, op)
  {
    match op
    case Writing(data) =>
    case Reading(count) =>
    case Reset216 =>
    case Reset217 =>
    case Sleeping =>
  }

  /** A read panics the kernel exactly when it may read, would block, and the read flag is up in vain. */
  lemma ReadPanicsIff(t: Trace, count: int)
    requires Shaped(t.box) && !t.panicked && (t.box.full ==> t.box.flags == SRD)
    ensures Step(t, Reading(count)).panicked <==>
      count > 0 && t.box.canRead && t.box.blockOnReadEmpty && !Readable(t)
  {
  }

  ghost predicate NeverArms(t: Trace, ops: seq<Op>)
    requires Shaped(t.box)
    decreases |ops|
  {
    ops != [] ==> !Arms(t, ops[0]) && NeverArms(Step(t, ops[0]), ops[1..])
  }

  /** A read put in at any point of the run would not panic, nor has the run itself. */
  ghost predicate PanicFree(t: Trace, ops: seq<Op>, count: int)
    requires Shaped(t.box)
    decreases |ops|
  {
    && !Step(t, Reading(count)).panicked
    && (ops != [] ==> PanicFree(Step(t, ops[0]), ops[1..], count))
  }

  /**
   Sockets are created blocking.  However reads, writes, resets and sleeps follow one another, no read
   at any point panics if and only if request 217 never reaches an empty mailbox.
   */
  lemma {:induction false} PanicFreeIff(t: Trace, ops: seq<Op>, count: int)
    requires Readable(t) && t.box.canRead && t.box.blockOnReadEmpty && count > 0
    ensures PanicFree(t, ops, count) <==> NeverArms(t, ops)
    decreases |ops|
  {
    ReadPanicsIff(t, count);
    if ops != [] {
      var t' := Step(t, ops[0]);
      StepReadableIff(t, ops[0]);
      if Arms(t, ops[0]) {
        ReadPanicsIff(t', count);
        assert !PanicFree(t', ops[1..], count);
      } else {
        PanicFreeIff(t', ops[1..], count);
      }
    }
  }

  /** Whether blocking or not, a run in which 217 never reaches an empty mailbox does not panic. */
  lemma {:induction false} UnarmedRunIsReadable(t: Trace, ops: seq<Op>)
    requires Readable(t) && NeverArms(t, ops)
    ensures Readable(Run(t, ops))
    decreases |ops|
  {
    if ops != [] {
      StepReadableIff(t, ops[0]);
      UnarmedRunIsReadable(Step(t, ops[0]), ops[1..]);
    }
  }

  /** The shortest run that does panic. */
  lemma PanicAfter217(t: Trace, count: int)
    requires Created(t) && t.box.canRead && t.box.blockOnReadEmpty && count > 0
    ensures Run(t, [Reset217, Reading(count)]).panicked
  {
    var ops := [Reset217, Reading(count)];
    assert ops[1..][0] == Reading(count) && ops[1..][1..] == [];
    assert Run(t, ops) == Run(Step(t, ops[0]), ops[1..]);
  }

  // ------------------------------------------------------------------ when nothing moves any more

  /** The write passes every check but the one on its length. */
  ghost predicate Refuses(t: Trace, op: Op) {
    && op.Writing? && |op.data| >= BUFSIZ
    && !t.panicked && t.box.canWrite && t.box.flags.swr && !t.box.full
  }

  /** The requests that set flags whatever they were. */
  ghost predicate Revives(t: Trace, op: Op) {
    !t.panicked && Genuine(t.box) && (op.Reset216? || op.Reset217? || op.Sleeping?)
  }

  /**
   How both flags come to be down, and how they come up again: a write refused for its length takes
   them down, and requests 216 and 217 and sleep-if-empty, but no read or write, raise one.
   */
  lemma StepWedgedIff(t: Trace, op: Op)
    requires Shaped(t.box) && (t.box.full ==> t.box.flags == SRD)
    ensures Step(t, op).box.flags == NONE <==> Refuses(t, op) || (t.box.flags == NONE && !Revives(t, op))
    ensures t.box.flags == NONE && !Revives(t, op) ==> Step(t, op) == t
  {
    match op
    case Writing(data) =>
    case Reading(count) =>
    case Reset216 =>
    case Reset217 =>
    case Sleeping =>
  }

  /** Some write of the run is refused for its length, and nothing revives the mailbox after it. */
  ghost predicate WedgedByRun(t: Trace, ops: seq<Op>)
    requires Shaped(t.box)
    decreases |ops|
  {
    && ops != []
    && (WedgedByRun(Step(t, ops[0]), ops[1..]) || (Refuses(t, ops[0]) && NeverRevives(Step(t, ops[0]), ops[1..])))
  }

  ghost predicate NeverRevives(t: Trace, ops: seq<Op>)
    requires Shaped(t.box)
    decreases |ops|
  {
    ops != [] ==> !Revives(t, ops[0]) && NeverRevives(Step(t, ops[0]), ops[1..])
  }

  /** Once both flags are down, a run leaves them down if nothing in it revives the mailbox; then it changes nothing. */
  lemma {:induction false} WedgeLasts(t: Trace, ops: seq<Op>)
    requires Inv(t) && t.box.flags == NONE && NeverRevives(t, ops)
    ensures Run(t, ops) == t
    decreases |ops|
  {
    if ops != [] {
      StepWedgedIff(t, ops[0]);
      WedgeLasts(t, ops[1..]);
    }
  }

  /**
   Over every run of any operations, the mailbox ends with both flags down if and only if some write was
   refused for its length, or they were down before, and nothing revived it since.
   */
  lemma {:induction false} WedgedIff(t: Trace, ops: seq<Op>)
    requires Inv(t)
    ensures Run(t, ops).box.flags == NONE <==>
      WedgedByRun(t, ops) || (t.box.flags == NONE && NeverRevives(t, ops))
    decreases |ops|
  {
    if ops != [] {
      StepKeepsInv(t, ops[0]);
      StepWedgedIff(t, ops[0]);
      WedgedIff(Step(t, ops[0]), ops[1..]);
    }
  }

  /** Some write of the run is longer than the mailbox and finds it empty. */
  ghost predicate MeetsOverlongWrite(t: Trace, ops: seq<Op>)
    requires Shaped(t.box)
    decreases |ops|
  {
    && ops != []
    && ((ops[0].Writing? && |ops[0].data| >= BUFSIZ && !t.box.full)
        || MeetsOverlongWrite(Step(t, ops[0]), ops[1..]))
  }

  /** An empty mailbox invites a write, a full one a read, or else both flags are down. */
  ghost predicate Inviting(t: Trace) {
    && Inv(t) && !t.panicked && t.box.canWrite
    && (t.box.full || t.box.flags == SWR || t.box.flags == NONE)
  }

  ghost predicate OnlyReadsAndWrites(ops: seq<Op>) {
    forall i :: 0 <= i < |ops| ==> ops[i].Reading? || ops[i].Writing?
  }

  lemma {:induction false} OverlongWriteWedgesFrom(t: Trace, ops: seq<Op>)
    requires Inviting(t) && t.box.flags != NONE && OnlyReadsAndWrites(ops)
    ensures Run(t, ops).box.flags == NONE <==> MeetsOverlongWrite(t, ops)
    decreases |ops|
  {
    if ops != [] {
      var t' := Step(t, ops[0]);
      StepKeepsInv(t, ops[0]);
      StepWedgedIff(t, ops[0]);
      if t'.box.flags == NONE {
        ReadsAndWritesNeverRevive(t', ops[1..]);
        WedgeLasts(t', ops[1..]);
      } else {
        OverlongWriteWedgesFrom(t', ops[1..]);
      }
    }
  }

  lemma {:induction false} ReadsAndWritesNeverRevive(t: Trace, ops: seq<Op>)
    requires Shaped(t.box) && OnlyReadsAndWrites(ops)
    ensures NeverRevives(t, ops)
    decreases |ops|
  {
    if ops != [] {
      ReadsAndWritesNeverRevive(Step(t, ops[0]), ops[1..]);
    }
  }

  /**
   Used by reads and writes alone, a new mailbox ends with both flags down, so that nothing will ever move
   through it again, if and only if some write of 1024 bytes or more found it empty.
   */
  lemma OverlongWriteWedges(t: Trace, ops: seq<Op>)
    requires Created(t) && t.box.canWrite && OnlyReadsAndWrites(ops)
    ensures Run(t, ops).box.flags == NONE <==> MeetsOverlongWrite(t, ops)
  {
    OverlongWriteWedgesFrom(t, ops);
  }

  // ------------------------------------------------------------------ the file structure

  class SocketFile {
    const base: array<Byte>
    var flags: Flags
    var full: bool
    var canRead: bool
    var canWrite: bool
    var r: int
    var w: int
    var used: bool
    var magic: int
    var blockOnReadEmpty: bool

    ghost function View(): Box
      reads this, base
    {
      Box(base[..], flags, full, canRead, canWrite, r, w, used, magic, blockOnReadEmpty)
    }

    /** The file of a new local socket over the given buffer. */
    constructor (buffer: array<Byte>)
      requires buffer.Length == BUFSIZ
      ensures base == buffer && canRead && canWrite && blockOnReadEmpty
      ensures Created(Trace(View(), NOTHING, false)) && Readable(Trace(View(), NOTHING, false))
    {
      base := buffer;
      canRead, canWrite, blockOnReadEmpty := true, true, true;
      flags := SWR;
      r, w, full := 0, 0, false;
      used, magic := true, MAGIC;
    }

    /** The write system call on a local socket. */
    method WriteImp(data: array<Byte>) returns (n: int)
      requires base.Length == BUFSIZ && data != base
      modifies this, base
      ensures View() == Write(old(View()), old(data[..])).box
      ensures Returned(n) == Write(old(View()), old(data[..])).outcome
    {
      if data.Length == 0 {
        return 0;
      }
      if !canWrite {
        return -1;
      }
      if !flags.swr {
        return -1;
      }
      if full {
        flags := SRD;
        return -1;
      }
      flags := NONE;
      n := StoreMessage(data);
      if n <= 0 {
        return -1;
      }
      full := true;
      flags := SRD;
      assert base[..] == data[..] + old(base[..])[data.Length..];
    }

    /** The socket branch of file_write_buffer: the message goes to the start of the buffer. */
    method StoreMessage(data: array<Byte>) returns (n: int)
      requires base.Length == BUFSIZ && data != base && data.Length > 0
      modifies base
      ensures data.Length >= BUFSIZ ==> n == -1 && base[..] == old(base[..])
      ensures data.Length < BUFSIZ ==> n == data.Length && base[..] == data[..] + old(base[..])[data.Length..]
    {
      if data.Length >= BUFSIZ {
        return -1;
      }
      var i := 0;
      while i < data.Length
        invariant 0 <= i <= data.Length
        invariant forall k :: 0 <= k < i ==> base[k] == data[k]
        invariant forall k :: i <= k < base.Length ==> base[k] == old(base[k])
      {
        base[i] := data[i];
        i := i + 1;
      }
      n := data.Length;
    }

    /** The read system call on a local socket. */
    method ReadImp(buffer: array<Byte>, count: int) returns (outcome: Outcome)
      requires base.Length == BUFSIZ && buffer != base && count % 0x1_0000 <= buffer.Length
      modifies this, buffer
      ensures View() == Read(old(View()), count).box && outcome == Read(old(View()), count).outcome
      ensures outcome.Returned? && outcome.n > 0 ==>
        outcome.n <= buffer.Length && buffer[..outcome.n] == Read(old(View()), count).out
    {
      if count < 0 {
        return Returned(-EINVAL);
      }
      if count == 0 {
        return Returned(0);
      }
      if !canRead {
        return Returned(-1);
      }
      if !flags.srd {
        return Returned(-1);
      }
      if !full {
        flags := SWR;
        if blockOnReadEmpty {
          return Panicked;
        }
        return Returned(-1);
      }
      var n := count % 0x1_0000;
      if !used || magic != MAGIC || n <= 0 {
        return Returned(-1);
      }
      if n > BUFSIZ {
        n := BUFSIZ;
      }
      var i := 0;
      while i < n
        invariant 0 <= i <= n
        invariant base[..] == old(base[..])
        invariant forall k :: 0 <= k < i ==> buffer[k] == base[k]
        modifies buffer
      {
        buffer[i] := base[i];
        i := i + 1;
      }
      full := false;
      flags := SWR;
      outcome := Returned(n);
    }

    /** Requests 216 and 217 of sys_set_file_sync. */
    method SetFileSync(request: int)
      modifies this
      ensures request == 216 ==> View() == ResetWrite(old(View()))
      ensures request == 217 ==> View() == ResetRead(old(View()))
      ensures request != 216 && request != 217 ==> View() == old(View())
    {
      if !used || magic != MAGIC {
        return;
      }
      if request == 216 {
        canWrite := true;
        flags := SWR;
        r := 0;
        w := 0;
        full := false;
      } else if request == 217 {
        canRead := true;
        flags := SRD;
      }
    }

    method SleepIfSocketIsEmpty() returns (n: int)
      modifies this
      ensures View() == SleepIfEmpty(old(View())).box && Returned(n) == SleepIfEmpty(old(View())).outcome
    {
      if !used || magic != MAGIC {
        return -1;
      }
      if !full {
        flags := flags.(swr := true);
        return 0;
      }
      flags := flags.(srd := true);
      n := 1;
    }
  }
}
