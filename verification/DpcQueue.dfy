/**
 The 32-slot queue through which the bootstrap processor hands raw device
 events to the processor that polls it.

 `Post` and `Get` are the two routines as functions of the whole queue state; the class
 `Queue` performs them on the nine parallel arrays.  Everything below that is
 about *runs*: any interleaving of posts and gets, each taken as one atomic
 step, with any message codes.  The queue is not first-in first-out, because an
 unsuccessful poll still moves the read index on; what does hold is exactly-once delivery,
 an exact delivery time, and exact conditions for losing a post and for keeping the order.
 */
module DpcQueue {
  import opened Sequences

  const SLOTS := 32

  newtype Long = x: int | 0 <= x < 0x1_0000_0000_0000_0000
  newtype Octet = x: int | 0 <= x < 0x100

  datatype Message = Message(
    code: int,
    long1: Long, long2: Long, long3: Long, long4: Long,
    char1: Octet, char2: Octet, char3: Octet, char4: Octet)

  /** head is the next slot to poll, tail the next slot to fill; code 0 marks a free slot. */
  datatype State = State(head: int, tail: int, slots: seq<Message>, cache: Message)

  predicate Shaped(q: State) {
    |q.slots| == SLOTS
  }

  /** The repair both routines apply to an index before using it. */
  function InRange(i: int): int {
    if i < 0 || i >= SLOTS then 0 else i
  }

  function Next(i: int): int {
    if i + 1 >= SLOTS then 0 else i + 1
  }

  predicate Accepts(q: State)
    requires Shaped(q)
  {
    q.slots[InRange(q.tail)].code == 0
  }

  function Post(q: State, m: Message): (q': State)
    requires Shaped(q)
    ensures Shaped(q')
  {
    var t := InRange(q.tail);
    if Accepts(q) then q.(slots := q.slots[t := m], tail := Next(t)) else q.(tail := t)
  }

  predicate Delivers(q: State)
    requires Shaped(q)
  {
    q.slots[InRange(q.head)].code > 0
  }

  function Get(q: State): (q': State)
    requires Shaped(q)
    ensures Shaped(q')
  {
    var h := InRange(q.head);
    if Delivers(q) then
      q.(cache := q.slots[h], slots := q.slots[h := q.slots[h].(code := 0)], head := Next(h))
    else
      q.(head := Next(h))
  }

  // ------------------------------------------------------------------ the arrays

  class Queue {
    var head: int
    var tail: int
    const msg: array<int>
    const long1: array<Long>
    const long2: array<Long>
    const long3: array<Long>
    const long4: array<Long>
    const char1: array<Octet>
    const char2: array<Octet>
    const char3: array<Octet>
    const char4: array<Octet>
    var cacheMsg: int
    var cacheLongs: seq<Long>
    var cacheChars: seq<Octet>

    /** The queue in zeroed memory. */
    constructor ()
      ensures Valid() && fresh(Repr - {this})
      ensures IsEmptyTrace(Trace(View(), [], [], []))
    {
      head, tail := 0, 0;
      msg := new int[SLOTS](i => 0);
      long1 := new Long[SLOTS](i => 0);
      long2 := new Long[SLOTS](i => 0);
      long3 := new Long[SLOTS](i => 0);
      long4 := new Long[SLOTS](i => 0);
      char1 := new Octet[SLOTS](i => 0);
      char2 := new Octet[SLOTS](i => 0);
      char3 := new Octet[SLOTS](i => 0);
      char4 := new Octet[SLOTS](i => 0);
      cacheMsg := 0;
      cacheLongs := [0, 0, 0, 0];
      cacheChars := [0, 0, 0, 0];
    }

    ghost predicate Valid()
      reads this
    {
      && msg.Length == SLOTS
      && long1.Length == long2.Length == long3.Length == long4.Length == SLOTS
      && char1.Length == char2.Length == char3.Length == char4.Length == SLOTS
      && long1 != long2 && long1 != long3 && long1 != long4
      && long2 != long3 && long2 != long4 && long3 != long4
      && char1 != char2 && char1 != char3 && char1 != char4
      && char2 != char3 && char2 != char4 && char3 != char4
      && |cacheLongs| == 4 && |cacheChars| == 4
    }

    ghost const Repr: set<object> :=
      {this, msg, long1, long2, long3, long4, char1, char2, char3, char4}

    ghost function Slot(i: int): Message
      requires Valid() && 0 <= i < SLOTS
      reads Repr
    {
      Message(msg[i], long1[i], long2[i], long3[i], long4[i], char1[i], char2[i], char3[i], char4[i])
    }

    ghost function Cache(): Message
      requires Valid()
      reads Repr
    {
      Message(cacheMsg, cacheLongs[0], cacheLongs[1], cacheLongs[2], cacheLongs[3],
              cacheChars[0], cacheChars[1], cacheChars[2], cacheChars[3])
    }

    ghost function View(): (q: State)
      requires Valid()
      reads Repr
      ensures Shaped(q) && forall i :: 0 <= i < SLOTS ==> q.slots[i] == Slot(i)
    {
      State(head, tail, seq(SLOTS, i requires Valid() && 0 <= i < SLOTS reads Repr => Slot(i)), Cache())
    }

    method FillSlot(t: int, m: Message)
      requires Valid() && 0 <= t < SLOTS
      modifies msg, long1, long2, long3, long4, char1, char2, char3, char4
      ensures Slot(t) == m
      ensures forall i :: 0 <= i < SLOTS && i != t ==> Slot(i) == old(Slot(i))
    {
      msg[t] := m.code;
      long1[t] := m.long1;
      long2[t] := m.long2;
      long3[t] := m.long3;
      long4[t] := m.long4;
      char1[t] := m.char1;
      char2[t] := m.char2;
      char3[t] := m.char3;
      char4[t] := m.char4;
    }

    /** qf_post_message: a post that finds the tail slot occupied is silently lost. */
    method PostMessage(m: Message)
      requires Valid()
      modifies Repr
      ensures Valid()
      ensures View() == Post(old(View()), m)
    {
      if tail < 0 || tail >= SLOTS {
        tail := 0;
      }
      ghost var t := tail;
      assert forall i :: 0 <= i < SLOTS ==> Slot(i) == old(Slot(i));
      label Filling:
      ghost var before := old(View());
      if msg[tail] == 0 {
        FillSlot(tail, m);
        tail := tail + 1;
        if tail >= SLOTS {
          tail := 0;
        }
        assert Slot(t) == m;
        assert forall i :: 0 <= i < SLOTS && i != t ==> Slot(i) == old@Filling(Slot(i));
        assert View().slots == before.slots[t := m];
      } else {
        assert View().slots == before.slots;
      }
    }

    /** qf_get_message: the slot index of the message now in the cache, or -1. */
    method GetMessage() returns (slot: int)
      requires Valid()
      modifies Repr
      ensures Valid()
      ensures View() == Get(old(View()))
      ensures slot == if Delivers(old(View())) then InRange(old(head)) else -1
    {
      if head < 0 || head >= SLOTS {
        head := 0;
      }
      if msg[head] <= 0 {
        head := head + 1;
        if head >= SLOTS {
          head := 0;
        }
        assert View().slots == old(View()).slots;
        return -1;
      }
      slot := head;
      ghost var before := old(View());
      FetchSlot(slot);
      label Fetched:
      head := head + 1;
      if head >= SLOTS {
        head := 0;
      }
      assert forall i :: 0 <= i < SLOTS ==> Slot(i) == old@Fetched(Slot(i));
      assert Slot(slot) == before.slots[slot].(code := 0);
      assert forall i :: 0 <= i < SLOTS && i != slot ==> Slot(i) == before.slots[i];
      assert View().slots == before.slots[slot := before.slots[slot].(code := 0)];
    }

    /** Copy a slot to the cache and free it. */
    method FetchSlot(h: int)
      requires Valid() && 0 <= h < SLOTS
      modifies this`cacheMsg, this`cacheLongs, this`cacheChars, msg
      ensures Valid() && Cache() == old(Slot(h)) && Slot(h) == old(Slot(h)).(code := 0)
      ensures forall i :: 0 <= i < SLOTS && i != h ==> Slot(i) == old(Slot(i))
    {
      cacheMsg := msg[h];
      cacheLongs := [long1[h], long2[h], long3[h], long4[h]];
      cacheChars := [char1[h], char2[h], char3[h], char4[h]];
      msg[h] := 0;
    }
  }

  // ------------------------------------------------------------------ runs

  datatype Event = Posting(m: Message) | Fetching

  /**
   A queue together with what an observer has seen so far: the messages accepted,
   in order; the messages handed to the poller, in order; and, for each of
   those, which accepted message it was.
   */
  datatype Trace = Trace(q: State, accepted: seq<Message>, outputs: seq<Message>, ids: seq<int>)

  /** The latest of the first n accepted messages that was put into slot s (negative if none). */
  function Owner(n: nat, s: int): int {
    n - 1 - (n - 1 - s) % SLOTS
  }

  function Step(t: Trace, e: Event): (t': Trace)
    requires Shaped(t.q)
    ensures Shaped(t'.q)
  {
    match e
    case Posting(m) =>
      if Accepts(t.q) then t.(q := Post(t.q, m), accepted := t.accepted + [m])
      else t.(q := Post(t.q, m))
    case Fetching =>
      var q' := Get(t.q);
      if Delivers(t.q) then
        t.(q := q', outputs := t.outputs + [q'.cache], ids := t.ids + [Owner(|t.accepted|, InRange(t.q.head))])
      else
        t.(q := q')
  }

  function Run(t: Trace, es: seq<Event>): (t': Trace)
    requires Shaped(t.q)
    ensures Shaped(t'.q)
    decreases |es|
  {
    if es == [] then t else Run(Step(t, es[0]), es[1..])
  }

  ghost predicate IsEmptyTrace(t: Trace) {
    && Shaped(t.q) && t.q.head == 0 && t.q.tail == 0
    && (forall s :: 0 <= s < SLOTS ==> t.q.slots[s].code == 0)
    && t.accepted == [] && t.outputs == [] && t.ids == []
  }

  function Gets(es: seq<Event>): nat {
    if es == [] then 0 else (if es[0].Fetching? then 1 else 0) + Gets(es[1..])
  }

  /** The messages in a row of slots that count as there: code 0 marks a free slot. */
  function Stored(slots: seq<Message>): multiset<Message> {
    if slots == [] then multiset{}
    else Content(slots[0]) + Stored(slots[1..])
  }

  function Content(slot: Message): multiset<Message> {
    if slot.code != 0 then multiset{slot} else multiset{}
  }

  // ------------------------------------------------------------------ the invariant

  ghost predicate Indices(t: Trace) {
    Shaped(t.q) && 0 <= t.q.head < SLOTS && t.q.tail == |t.accepted| % SLOTS
  }

  /** A slot is occupied exactly when its latest message has a code and is undelivered, and then holds it intact. */
  ghost predicate Holds(t: Trace, s: int)
    requires Shaped(t.q) && 0 <= s < SLOTS
  {
    var k := Owner(|t.accepted|, s);
    && (t.q.slots[s].code != 0 <==> 0 <= k < |t.accepted| && t.accepted[k].code != 0 && k !in t.ids)
    && (t.q.slots[s].code != 0 ==> k < |t.accepted| && t.q.slots[s] == t.accepted[k])
  }

  /** Whatever was output was accepted with a positive code, once; older messages are all accounted for. */
  ghost predicate Delivered(t: Trace) {
    && |t.outputs| == |t.ids|
    && (forall j :: 0 <= j < |t.ids| ==> 0 <= t.ids[j] < |t.accepted| && t.outputs[j] == t.accepted[t.ids[j]])
    && (forall j :: 0 <= j < |t.outputs| ==> t.outputs[j].code > 0)
    && (forall i, j :: 0 <= i < j < |t.ids| ==> t.ids[i] != t.ids[j])
    && (forall k :: 0 <= k < |t.accepted| - SLOTS ==> t.accepted[k].code == 0 || k in t.ids)
  }

  ghost predicate SlotsHold(t: Trace)
    requires Shaped(t.q)
  {
    forall s :: 0 <= s < SLOTS ==> Holds(t, s)
  }

  ghost predicate Conserved(t: Trace) {
    Stored(t.accepted) == multiset(t.outputs) + Stored(t.q.slots)
  }

  ghost predicate Inv(t: Trace) {
    Indices(t) && SlotsHold(t) && Delivered(t) && Conserved(t)
  }

  lemma {:induction false} StoredOfFree(slots: seq<Message>)
    requires forall s :: 0 <= s < |slots| ==> slots[s].code == 0
    ensures Stored(slots) == multiset{}
  {
    if slots != [] {
      StoredOfFree(slots[1..]);
    }
  }

  lemma {:induction false} StoredAppend(ms: seq<Message>, m: Message)
    ensures Stored(ms + [m]) == Stored(ms) + Content(m)
  {
    if ms == [] {
      assert [m][1..] == [] && ms + [m] == [m];
    } else {
      assert (ms + [m])[1..] == ms[1..] + [m];
      StoredAppend(ms[1..], m);
    }
  }

  lemma Regroup(a: multiset<Message>, b: multiset<Message>, c: multiset<Message>,
                d: multiset<Message>, e: multiset<Message>)
    requires b + c == d + e
    ensures (a + b) + c == (a + d) + e
  {
    assert (a + b) + c == a + (b + c);
  }

  /** Replacing one slot changes the stored messages by exactly that slot. */
  lemma {:induction false} StoredUpdate(slots: seq<Message>, i: int, m: Message)
    requires 0 <= i < |slots|
    ensures Stored(slots[i := m]) + Content(slots[i]) == Stored(slots) + Content(m)
  {
    if i == 0 {
      assert slots[i := m][1..] == slots[1..];
    } else {
      var rest := slots[1..];
      assert slots[i := m][1..] == rest[i - 1 := m] && slots[i := m][0] == slots[0];
      StoredUpdate(rest, i - 1, m);
      assert Stored(slots[i := m]) == Content(slots[0]) + Stored(rest[i - 1 := m]);
      assert Stored(slots) == Content(slots[0]) + Stored(rest);
      Regroup(Content(slots[0]), Stored(rest[i - 1 := m]), Content(slots[i]), Stored(rest), Content(m));
    }
  }

  lemma EmptyIsInvariant(t: Trace)
    requires IsEmptyTrace(t)
    ensures Inv(t)
  {
    StoredOfFree(t.q.slots);
    forall s | 0 <= s < SLOTS ensures Holds(t, s) {
      assert Owner(0, s) < 0;
    }
  }

  /** Advancing the number of accepted messages moves the owner of just one slot. */
  lemma OwnerStep(n: nat, s: int)
    requires 0 <= s < SLOTS
    ensures Owner(n + 1, s) == if s == n % SLOTS then n as int else Owner(n, s)
    ensures Owner(n, n % SLOTS) == n - SLOTS
    ensures Owner(n, s) < n
    ensures n - SLOTS <= Owner(n, s)
  {
  }

  lemma OwnerSlot(n: nat, s: int)
    requires 0 <= s < SLOTS
    ensures Owner(n, s) % SLOTS == s
  {
  }

  /** Each of the last 32 messages owns its slot. */
  lemma OwnerOf(n: nat, k: int)
    requires 0 <= k && n - SLOTS <= k < n
    ensures 0 <= k % SLOTS < SLOTS && Owner(n, k % SLOTS) == k
  {
  }

  lemma PostKeepsSlots(t: Trace, m: Message, s: int)
    requires Indices(t) && SlotsHold(t) && Delivered(t) && 0 <= s < SLOTS
    ensures Holds(Step(t, Posting(m)), s)
  {
    OwnerStep(|t.accepted|, s);
    assert Holds(t, s);
  }

  lemma PostKeepsConservation(t: Trace, m: Message)
    requires Indices(t) && Conserved(t)
    ensures Conserved(Step(t, Posting(m)))
  {
    if Accepts(t.q) {
      var t' := Step(t, Posting(m));
      StoredUpdate(t.q.slots, t.q.tail, m);
      StoredAppend(t.accepted, m);
      assert Stored(t'.q.slots) == Stored(t.q.slots) + Content(m);
    }
  }

  lemma PostKeepsDelivered(t: Trace, m: Message)
    requires Indices(t) && SlotsHold(t) && Delivered(t)
    ensures Delivered(Step(t, Posting(m)))
  {
    OwnerStep(|t.accepted|, t.q.tail);
    assert Holds(t, t.q.tail);
  }

  lemma PostKeepsInv(t: Trace, m: Message)
    requires Inv(t)
    ensures Inv(Step(t, Posting(m)))
  {
    PostKeepsSlotsHold(t, m);
    PostKeepsDelivered(t, m);
    PostKeepsConservation(t, m);
    StepKeepsIndices(t, Posting(m));
  }

  lemma PostKeepsSlotsHold(t: Trace, m: Message)
    requires Indices(t) && SlotsHold(t) && Delivered(t)
    ensures SlotsHold(Step(t, Posting(m)))
  {
    forall s | 0 <= s < SLOTS ensures Holds(Step(t, Posting(m)), s) {
      PostKeepsSlots(t, m, s);
    }
  }

  lemma GetKeepsSlots(t: Trace, s: int)
    requires Indices(t) && SlotsHold(t) && 0 <= s < SLOTS
    ensures Holds(Step(t, Fetching), s)
  {
    var n, h := |t.accepted|, t.q.head;
    assert Holds(t, s) && Holds(t, h);
    OwnerSlot(n, s);
    OwnerSlot(n, h);
    assert s != h ==> Owner(n, s) != Owner(n, h);
  }

  lemma GetKeepsDelivered(t: Trace)
    requires Indices(t) && SlotsHold(t) && Delivered(t)
    ensures Delivered(Step(t, Fetching))
  {
    OwnerStep(|t.accepted|, t.q.head);
    assert Holds(t, t.q.head);
  }

  lemma GetKeepsConservation(t: Trace)
    requires Indices(t) && Conserved(t)
    ensures Conserved(Step(t, Fetching))
  {
    var h := t.q.head;
    var t' := Step(t, Fetching);
    if Delivers(t.q) {
      StoredUpdate(t.q.slots, h, t.q.slots[h].(code := 0));
      assert multiset(t'.outputs) == multiset(t.outputs) + multiset{t.q.slots[h]};
      assert Stored(t'.q.slots) + multiset{t.q.slots[h]} == Stored(t.q.slots);
    }
  }

  lemma GetKeepsInv(t: Trace)
    requires Inv(t)
    ensures Inv(Step(t, Fetching))
  {
    GetKeepsSlotsHold(t);
    GetKeepsDelivered(t);
    GetKeepsConservation(t);
    StepKeepsIndices(t, Fetching);
  }

  lemma GetKeepsSlotsHold(t: Trace)
    requires Indices(t) && SlotsHold(t)
    ensures SlotsHold(Step(t, Fetching))
  {
    forall s | 0 <= s < SLOTS ensures Holds(Step(t, Fetching), s) {
      GetKeepsSlots(t, s);
    }
  }

  lemma StepKeepsIndices(t: Trace, e: Event)
    requires Indices(t)
    ensures Indices(Step(t, e))
  {
  }

  lemma StepKeepsInv(t: Trace, e: Event)
    requires Inv(t)
    ensures Inv(Step(t, e))
  {
    match e
    case Posting(m) => PostKeepsInv(t, m);
    case Fetching => GetKeepsInv(t);
  }

  lemma {:induction false} RunKeepsInv(t: Trace, es: seq<Event>)
    requires Inv(t)
    ensures Inv(Run(t, es))
    decreases |es|
  {
    if es != [] {
      StepKeepsInv(t, es[0]);
      RunKeepsInv(Step(t, es[0]), es[1..]);
    }
  }

  // ------------------------------------------------------------------ exactly once

  /**
   Over every run from the empty queue, with any codes: nothing is duplicated, invented or
   altered.  Each output is one accepted message with a positive code, none is output
   twice, and the accepted messages with a code are exactly those output plus those still in slots.
   */
  lemma ExactlyOnce(t: Trace, es: seq<Event>)
    requires IsEmptyTrace(t)
    ensures var u := Run(t, es);
      && Stored(u.accepted) == multiset(u.outputs) + Stored(u.q.slots)
      && |u.outputs| == |u.ids|
      && (forall j :: 0 <= j < |u.ids| ==> 0 <= u.ids[j] < |u.accepted| && u.outputs[j] == u.accepted[u.ids[j]])
      && (forall j :: 0 <= j < |u.outputs| ==> u.outputs[j].code > 0)
      && (forall i, j :: 0 <= i < j < |u.ids| ==> u.ids[i] != u.ids[j])
  {
    EmptyIsInvariant(t);
    RunKeepsInv(t, es);
  }

  /** Between deliveries the cache is left alone: over every run it holds the last message handed over. */
  lemma {:induction false} CacheIsLastOutput(t: Trace, es: seq<Event>)
    requires Shaped(t.q) && (t.outputs != [] ==> t.q.cache == t.outputs[|t.outputs| - 1])
    ensures var u := Run(t, es);
      && (u.outputs != [] ==> u.q.cache == u.outputs[|u.outputs| - 1])
      && (u.outputs == t.outputs ==> u.q.cache == t.q.cache)
      && |u.outputs| >= |t.outputs|
    decreases |es|
  {
    if es != [] {
      CacheIsLastOutput(Step(t, es[0]), es[1..]);
    }
  }

  /** An index found out of range is taken for 0. */
  lemma BadIndexIsZero(q: State, m: Message, i: int)
    requires Shaped(q) && (i < 0 || i >= 32)
    ensures Post(q.(tail := i), m) == Post(q.(tail := 0), m)
    ensures Get(q.(head := i)) == Get(q.(head := 0))
  {
  }

  // ------------------------------------------------------------------ delivery time

  /** How many gets come before the one that polls slot s. */
  function Distance(head: int, s: int): int {
    (s - head) % SLOTS
  }

  /** The slot holds a message that a poll will hand over. */
  predicate Waiting(q: State, s: int)
    requires Shaped(q)
  {
    0 <= s < SLOTS && q.slots[s].code > 0
  }

  /** One step towards the poll of an occupied slot leaves the slot and its owner alone. */
  lemma StoredSlotStep(t: Trace, s: int, e: Event)
    requires Indices(t) && Waiting(t.q, s)
    requires e.Fetching? ==> Distance(t.q.head, s) > 0
    ensures var t' := Step(t, e);
      && Indices(t')
      && Owner(|t'.accepted|, s) == Owner(|t.accepted|, s)
      && t'.q.slots[s] == t.q.slots[s]
      && Distance(t'.q.head, s) == Distance(t.q.head, s) - (if e.Fetching? then 1 else 0)
      && |t.outputs| <= |t'.outputs| <= |t.outputs| + (if e.Fetching? then 1 else 0)
  {
    PollDistanceStep(t.q, s, e);
    OwnerStep(|t.accepted|, s);
    StepKeepsIndices(t, e);
  }

  lemma PollDistanceStep(q: State, s: int, e: Event)
    requires Shaped(q) && 0 <= q.head < SLOTS && Waiting(q, s)
    requires e.Fetching? ==> Distance(q.head, s) > 0
    ensures var q' := if e.Fetching? then Get(q) else Post(q, e.m);
      && 0 <= q'.head < SLOTS && q'.slots[s] == q.slots[s]
      && Distance(q'.head, s) == Distance(q.head, s) - (if e.Fetching? then 1 else 0)
  {
  }

  /** Until its slot is polled, a stored message is untouched, however posts interleave. */
  lemma {:induction false} UntouchedUntilPolled(t: Trace, s: int, es: seq<Event>)
    requires Indices(t) && Waiting(t.q, s)
    requires Gets(es) <= Distance(t.q.head, s)
    ensures var u := Run(t, es);
      && Indices(u)
      && u.q.slots[s] == t.q.slots[s]
      && Owner(|u.accepted|, s) == Owner(|t.accepted|, s)
      && Distance(u.q.head, s) == Distance(t.q.head, s) - Gets(es)
      && |t.outputs| <= |u.outputs| <= |t.outputs| + Gets(es)
    decreases |es|
  {
    if es != [] {
      StoredSlotStep(t, s, es[0]);
      UntouchedUntilPolled(Step(t, es[0]), s, es[1..]);
    }
  }

  /** The poll of a waiting message hands it over. */
  lemma PollHandsOver(u: Trace, s: int)
    requires Shaped(u.q) && u.q.head == s && Waiting(u.q, s)
    ensures var v := Step(u, Fetching);
      && v.q.cache == u.q.slots[s] && v.outputs == u.outputs + [u.q.slots[s]]
      && v.ids == u.ids + [Owner(|u.accepted|, s)]
  {
  }

  /** A stored message is not handed over before its slot is polled. */
  lemma StillStored(t: Trace, s: int, es: seq<Event>)
    requires Inv(t) && Waiting(t.q, s)
    requires Gets(es) <= Distance(t.q.head, s)
    ensures 0 <= Owner(|t.accepted|, s) < |t.accepted| && t.q.slots[s] == t.accepted[Owner(|t.accepted|, s)]
    ensures Owner(|t.accepted|, s) !in Run(t, es).ids
    ensures |Run(t, es).outputs| <= |t.outputs| + Gets(es)
  {
    assert Holds(t, s);
    UntouchedUntilPolled(t, s, es);
    RunKeepsInv(t, es);
    assert Holds(Run(t, es), s);
  }

  /** And it is by that very poll. */
  lemma StoredDelivery(t: Trace, s: int, es: seq<Event>)
    requires Inv(t) && Waiting(t.q, s)
    requires Gets(es) == Distance(t.q.head, s)
    ensures var u := Run(t, es);
      var v := Step(u, Fetching);
      && v.q.cache == t.q.slots[s] && v.outputs == u.outputs + [t.q.slots[s]]
      && v.ids == u.ids + [Owner(|t.accepted|, s)]
  {
    var u := Run(t, es);
    UntouchedUntilPolled(t, s, es);
    DistanceZero(u.q.head, s);
    PollHandsOver(u, s);
  }

  lemma DistanceZero(head: int, s: int)
    requires 0 <= head < SLOTS && 0 <= s < SLOTS && Distance(head, s) == 0
    ensures head == s
  {
  }

  /** The first k events of a run, then the rest. */
  lemma {:induction false} RunSplits(t: Trace, es: seq<Event>, k: nat)
    requires Shaped(t.q) && k <= |es|
    ensures Run(t, es) == Run(Run(t, es[..k]), es[k..])
    ensures Gets(es) == Gets(es[..k]) + Gets(es[k..])
    decreases k
  {
    if k == 0 {
      assert es[..0] == [] && es[0..] == es;
    } else {
      RunSplits(Step(t, es[0]), es[1..], k - 1);
      assert es[1..][..k - 1] == es[..k][1..];
      assert es[1..][k - 1..] == es[k..];
    }
  }

  lemma {:induction false} IdsOnlyGrow(t: Trace, es: seq<Event>)
    requires Shaped(t.q)
    ensures t.ids <= Run(t, es).ids
    ensures t.accepted <= Run(t, es).accepted
    decreases |es|
  {
    if es != [] {
      IdsOnlyGrow(Step(t, es[0]), es[1..]);
    }
  }

  /** The position of the n-th get of es. */
  lemma {:induction false} PositionOfGet(es: seq<Event>, n: nat) returns (k: nat)
    requires n < Gets(es)
    ensures k < |es| && es[k].Fetching? && Gets(es[..k]) == n
  {
    if es[0].Fetching? && n == 0 {
      k := 0;
    } else {
      var before := if es[0].Fetching? then 1 else 0;
      var k' := PositionOfGet(es[1..], n - before);
      k := k' + 1;
      assert es[..k][1..] == es[1..][..k'];
    }
  }

  /** A run up to and with one event, then the rest. */
  lemma RunAround(t: Trace, es: seq<Event>, k: nat)
    requires Shaped(t.q) && k < |es|
    ensures Run(t, es) == Run(Step(Run(t, es[..k]), es[k]), es[k + 1..])
  {
    RunSplits(t, es, k);
    assert es[k..][0] == es[k] && es[k..][1..] == es[k + 1..];
  }

  /** Where in a long enough run a stored message is handed over, and that all is new behind that point. */
  lemma DeliveryPoint(t: Trace, s: int, es: seq<Event>) returns (k: nat)
    requires Inv(t) && Waiting(t.q, s) && Gets(es) > Distance(t.q.head, s)
    ensures k < |es| && Gets(es[..k]) == Distance(t.q.head, s)
    ensures var u := Run(t, es[..k]);
      u.ids + [Owner(|t.accepted|, s)] <= Run(t, es).ids
  {
    k := PositionOfGet(es, Distance(t.q.head, s));
    StoredDelivery(t, s, es[..k]);
    RunAround(t, es, k);
    IdsOnlyGrow(Step(Run(t, es[..k]), Fetching), es[k + 1..]);
  }

  lemma StoredIsDelivered(t: Trace, s: int, es: seq<Event>)
    requires Inv(t) && Waiting(t.q, s) && Gets(es) > Distance(t.q.head, s)
    ensures Owner(|t.accepted|, s) in Run(t, es).ids
  {
    var k := DeliveryPoint(t, s, es);
    assert Owner(|t.accepted|, s) == Run(t, es).ids[|Run(t, es[..k]).ids|];
  }

  /**
   The exact delivery time.  An accepted message sits at some distance d < 32 from
   the poller.  The first d gets after its post, with any posts between them, return
   other messages (at most 31 of them) or nothing; the next get returns exactly this one.
   */
  lemma DeliveryTime(t: Trace, m: Message, es: seq<Event>)
    requires Inv(t) && m.code > 0 && Accepts(t.q)
    requires Gets(es) == Distance(t.q.head, t.q.tail)
    ensures Gets(es) < 32
    ensures var u := Run(Step(t, Posting(m)), es);
      var v := Step(u, Fetching);
      && |u.outputs| <= |t.outputs| + 31
      && |t.accepted| !in u.ids
      && v.q.cache == m
      && v.outputs == u.outputs + [m]
      && v.ids == u.ids + [|t.accepted|]
  {
    PostKeepsInv(t, m);
    OwnerStep(|t.accepted|, t.q.tail);
    StillStored(Step(t, Posting(m)), t.q.tail, es);
    StoredDelivery(Step(t, Posting(m)), t.q.tail, es);
  }

  /** Thirty-two gets after its post, in any interleaving, a message has been handed over if its code is positive. */
  lemma DeliveredWithin32(t: Trace, m: Message, es: seq<Event>)
    requires Inv(t) && Accepts(t.q) && Gets(es) >= 32
    ensures |t.accepted| in Run(Step(t, Posting(m)), es).ids <==> m.code > 0
  {
    var t1 := Step(t, Posting(m));
    PostKeepsInv(t, m);
    OwnerStep(|t.accepted|, t.q.tail);
    if m.code > 0 {
      StoredIsDelivered(t1, t.q.tail, es);
    } else {
      RunKeepsInv(t1, es);
      IdsOnlyGrow(t1, es);
      assert Run(t1, es).accepted[|t.accepted|] == m;
    }
  }

  // ------------------------------------------------------------------ lost posts

  /** A post is lost exactly when the message accepted 32 acceptances ago is still waiting. */
  lemma LostIff(t: Trace, m: Message)
    requires Inv(t)
    ensures var n := |t.accepted|;
      !Accepts(t.q) <==> n >= 32 && t.accepted[n - 32].code != 0 && n - 32 !in t.ids
    ensures Step(t, Posting(m)).accepted == if Accepts(t.q) then t.accepted + [m] else t.accepted
  {
    OwnerStep(|t.accepted|, t.q.tail);
    assert Holds(t, t.q.tail);
  }

  /** The first 32 posts to an empty queue are all accepted. */
  lemma FirstPostsAreAccepted(t: Trace, es: seq<Event>)
    requires IsEmptyTrace(t)
    requires |Run(t, es).accepted| < 32
    ensures Accepts(Run(t, es).q)
  {
    EmptyIsInvariant(t);
    RunKeepsInv(t, es);
    LostIff(Run(t, es), Run(t, es).q.cache);
  }

  /**
   If the poller runs 32 times between the acceptance of a message and the attempt
   to post the 32nd message after it, that attempt succeeds, unless the code was negative.
   */
  lemma PolledOftenNeverLoses(t: Trace, m: Message, es: seq<Event>)
    requires Inv(t) && Accepts(t.q) && Gets(es) >= 32
    requires |Run(Step(t, Posting(m)), es).accepted| == |t.accepted| + 32
    ensures Accepts(Run(Step(t, Posting(m)), es).q) <==> m.code >= 0
  {
    var t1 := Step(t, Posting(m));
    var u := Run(t1, es);
    PostKeepsInv(t, m);
    RunKeepsInv(t1, es);
    DeliveredWithin32(t, m, es);
    IdsOnlyGrow(t1, es);
    assert u.accepted[|t.accepted|] == m;
    LostIff(u, m);
  }

  // ------------------------------------------------------------------ the order of delivery

  /** Wherever y occurs, x has occurred before it. */
  ghost predicate Precedes(ids: seq<int>, x: int, y: int) {
    forall j :: 0 <= j < |ids| && ids[j] == y ==> x in ids[..j]
  }

  lemma NearerComesFirst(t: Trace, a: int, b: int, es: seq<Event>)
    requires Inv(t) && Waiting(t.q, a) && Waiting(t.q, b)
    requires Distance(t.q.head, a) < Distance(t.q.head, b)
    ensures Precedes(Run(t, es).ids, Owner(|t.accepted|, a), Owner(|t.accepted|, b))
  {
    var x, y := Owner(|t.accepted|, a), Owner(|t.accepted|, b);
    var ids := Run(t, es).ids;
    if Gets(es) <= Distance(t.q.head, b) {
      StillStored(t, b, es);
    } else {
      var k := DeliveryPoint(t, a, es);
      var u := Run(t, es[..k]);
      StillStored(t, b, es[..k]);
      OwnerSlot(|t.accepted|, a);
      OwnerSlot(|t.accepted|, b);
      assert y !in u.ids + [x];
      LaterThan(u.ids, x, y, ids);
    }
  }

  lemma LaterThan(done: seq<int>, x: int, y: int, ids: seq<int>)
    requires done + [x] <= ids && y !in done + [x]
    ensures Precedes(ids, x, y)
  {
    assert forall i :: 0 <= i <= |done| ==> ids[i] == (done + [x])[i];
    forall j | 0 <= j < |ids| && ids[j] == y ensures x in ids[..j] {
      assert ids[..j][|done|] == x;
    }
  }

  /** n polls in a row. */
  function Polls(n: nat): (es: seq<Event>)
    ensures |es| == n && forall i :: 0 <= i < n ==> es[i].Fetching?
  {
    seq(n, i => Fetching)
  }

  lemma {:induction false} PollsAreGets(es: seq<Event>)
    requires forall i :: 0 <= i < |es| ==> es[i].Fetching?
    ensures Gets(es) == |es|
  {
    if es != [] {
      PollsAreGets(es[1..]);
    }
  }

  /** Of two waiting messages the one nearer to the poller is handed over first in every continuation, and only then. */
  lemma HandedOverFirstIff(t: Trace, a: int, b: int)
    requires Inv(t) && Waiting(t.q, a) && Waiting(t.q, b) && a != b
    ensures Distance(t.q.head, a) < Distance(t.q.head, b) <==>
      forall es :: Precedes(Run(t, es).ids, Owner(|t.accepted|, a), Owner(|t.accepted|, b))
  {
    var x, y := Owner(|t.accepted|, a), Owner(|t.accepted|, b);
    if Distance(t.q.head, a) < Distance(t.q.head, b) {
      forall es ensures Precedes(Run(t, es).ids, x, y) {
        NearerComesFirst(t, a, b, es);
      }
    } else {
      DistancesDiffer(t.q.head, a, b);
      var es := FartherComesLater(t, a, b);
      assert !Precedes(Run(t, es).ids, x, y);
    }
  }

  lemma FartherComesLater(t: Trace, a: int, b: int) returns (es: seq<Event>)
    requires Inv(t) && Waiting(t.q, a) && Waiting(t.q, b)
    requires Distance(t.q.head, b) < Distance(t.q.head, a)
    ensures !Precedes(Run(t, es).ids, Owner(|t.accepted|, a), Owner(|t.accepted|, b))
  {
    es := Polls(Distance(t.q.head, b) + 1);
    PollsAreGets(es);
    StillStored(t, a, es);
    StoredIsDelivered(t, b, es);
  }

  /** The post is accepted and will be handed over before some message that is already waiting. */
  ghost predicate Overtakes(t: Trace, e: Event)
    requires Indices(t)
  {
    && e.Posting? && e.m.code > 0 && Accepts(t.q)
    && exists s :: Waiting(t.q, s) && Distance(t.q.head, s) > Distance(t.q.head, t.q.tail)
  }

  ghost predicate NeverOvertakes(t: Trace, es: seq<Event>)
    requires Indices(t)
    decreases |es|
  {
    NextIndices(t, es);
    es != [] ==> !Overtakes(t, es[0]) && NeverOvertakes(Step(t, es[0]), es[1..])
  }

  lemma NextIndices(t: Trace, es: seq<Event>)
    requires Indices(t)
    ensures es != [] ==> Indices(Step(t, es[0]))
  {
    if es != [] {
      StepKeepsIndices(t, es[0]);
    }
  }

  /** Older messages wait nearer to the poller, and everything delivered is older than everything waiting. */
  ghost predicate Ordered(t: Trace)
    requires Indices(t)
  {
    && Increasing(t.ids)
    && (forall s, j :: Waiting(t.q, s) && 0 <= j < |t.ids| ==> t.ids[j] < Owner(|t.accepted|, s))
    && (forall a, b :: Waiting(t.q, a) && Waiting(t.q, b) && Owner(|t.accepted|, a) < Owner(|t.accepted|, b) ==>
          Distance(t.q.head, a) < Distance(t.q.head, b))
  }

  lemma DistancesDiffer(h: int, a: int, b: int)
    requires 0 <= a < SLOTS && 0 <= b < SLOTS && a != b
    ensures Distance(h, a) != Distance(h, b)
  {
  }

  /** What a waiting message becomes, or was, when a post is accepted. */
  lemma WaitingAfterPost(t: Trace, m: Message, s: int)
    requires Indices(t) && Accepts(t.q) && Waiting(Step(t, Posting(m)).q, s)
    ensures var n := |t.accepted|;
      && (s != t.q.tail ==> Waiting(t.q, s) && Owner(n + 1, s) == Owner(n, s) < n)
      && (s == t.q.tail ==> Owner(n + 1, s) == n && m.code > 0)
      && (s != t.q.tail ==> Distance(t.q.head, s) != Distance(t.q.head, t.q.tail))
  {
    OwnerStep(|t.accepted|, s);
    if s != t.q.tail {
      DistancesDiffer(t.q.head, s, t.q.tail);
    }
  }

  lemma PostKeepsOrdered(t: Trace, m: Message)
    requires Inv(t) && Ordered(t) && !Overtakes(t, Posting(m))
    ensures Indices(Step(t, Posting(m))) && Ordered(Step(t, Posting(m)))
  {
    StepKeepsIndices(t, Posting(m));
    if Accepts(t.q) {
      var t', n, h := Step(t, Posting(m)), |t.accepted|, t.q.head;
      forall s, j | Waiting(t'.q, s) && 0 <= j < |t'.ids| ensures t'.ids[j] < Owner(n + 1, s) {
        WaitingAfterPost(t, m, s);
      }
      forall a, b | Waiting(t'.q, a) && Waiting(t'.q, b) && Owner(n + 1, a) < Owner(n + 1, b)
        ensures Distance(h, a) < Distance(h, b)
      {
        WaitingAfterPost(t, m, a);
        WaitingAfterPost(t, m, b);
      }
    }
  }

  /** What a waiting message was before a poll. */
  lemma WaitingAfterGet(t: Trace, s: int)
    requires Indices(t) && Waiting(Step(t, Fetching).q, s)
    ensures Waiting(t.q, s) && s != t.q.head
    ensures Distance(Step(t, Fetching).q.head, s) == Distance(t.q.head, s) - 1 >= 0
  {
  }

  /** The message about to be handed over is older than all others that wait. */
  lemma HeadIsOldest(t: Trace, s: int)
    requires Inv(t) && Ordered(t) && Waiting(t.q, t.q.head) && Waiting(t.q, s) && s != t.q.head
    ensures Owner(|t.accepted|, t.q.head) < Owner(|t.accepted|, s)
  {
    OwnerSlot(|t.accepted|, s);
    OwnerSlot(|t.accepted|, t.q.head);
    DistanceCases(t.q.head, t.q.head);
    DistanceCases(t.q.head, s);
  }

  lemma GetKeepsOrdered(t: Trace)
    requires Inv(t) && Ordered(t)
    ensures Indices(Step(t, Fetching)) && Ordered(Step(t, Fetching))
  {
    StepKeepsIndices(t, Fetching);
    var t', n := Step(t, Fetching), |t.accepted|;
    forall s, j | Waiting(t'.q, s) && 0 <= j < |t'.ids| ensures t'.ids[j] < Owner(n, s) {
      WaitingAfterGet(t, s);
      if Delivers(t.q) {
        HeadIsOldest(t, s);
      }
    }
    forall a, b | Waiting(t'.q, a) && Waiting(t'.q, b) && Owner(n, a) < Owner(n, b)
      ensures Distance(t'.q.head, a) < Distance(t'.q.head, b)
    {
      WaitingAfterGet(t, a);
      WaitingAfterGet(t, b);
    }
  }

  lemma {:induction false} PollsKeepOrdered(t: Trace, es: seq<Event>)
    requires Inv(t) && Ordered(t) && forall i :: 0 <= i < |es| ==> es[i].Fetching?
    ensures Increasing(Run(t, es).ids)
    decreases |es|
  {
    if es != [] {
      assert es[0] == Fetching;
      GetKeepsOrdered(t);
      GetKeepsInv(t);
      PollsKeepOrdered(Step(t, es[0]), es[1..]);
    }
  }

  /** A message that lands nearer than a waiting one shows in the order of any run long enough. */
  lemma OvertakingShows(t: Trace, m: Message, es: seq<Event>)
    requires Inv(t) && Overtakes(t, Posting(m)) && Gets(es) >= SLOTS
    ensures !Increasing(Run(Step(t, Posting(m)), es).ids)
  {
    var t1, n := Step(t, Posting(m)), |t.accepted|;
    var s :| Waiting(t.q, s) && Distance(t.q.head, s) > Distance(t.q.head, t.q.tail);
    PostKeepsInv(t, m);
    OwnerStep(n, s);
    OwnerStep(n, t.q.tail);
    var k := Owner(n, s);
    StoredIsDelivered(t1, s, es);
    NearerComesFirst(t1, t.q.tail, s, es);
    var ids := Run(t1, es).ids;
    var j :| 0 <= j < |ids| && ids[j] == k;
    var i :| 0 <= i < j && ids[..j][i] == n;
    assert ids[i] == n > k;
  }

  lemma {:induction false} FifoFrom(t: Trace, es: seq<Event>)
    requires Inv(t) && Ordered(t)
    ensures Increasing(Run(t, es + Polls(SLOTS)).ids) <==> NeverOvertakes(t, es)
    decreases |es|
  {
    var all := es + Polls(SLOTS);
    if es == [] {
      assert all == Polls(SLOTS);
      PollsKeepOrdered(t, all);
    } else {
      assert all[0] == es[0] && all[1..] == es[1..] + Polls(SLOTS);
      StepKeepsInv(t, es[0]);
      if Overtakes(t, es[0]) {
        GetsOfDrain(es[1..]);
        OvertakingShows(t, es[0].m, all[1..]);
      } else {
        if es[0].Posting? {
          PostKeepsOrdered(t, es[0].m);
        } else {
          GetKeepsOrdered(t);
        }
        FifoFrom(Step(t, es[0]), es[1..]);
      }
    }
  }

  lemma {:induction false} GetsOfDrain(es: seq<Event>)
    ensures Gets(es + Polls(SLOTS)) >= SLOTS
  {
    if es == [] {
      assert es + Polls(SLOTS) == Polls(SLOTS);
      PollsAreGets(Polls(SLOTS));
    } else {
      assert (es + Polls(SLOTS))[1..] == es[1..] + Polls(SLOTS);
      GetsOfDrain(es[1..]);
    }
  }

  /**
   When the queue is first-in first-out: a run from empty, once drained, has handed the messages over
   in the order of acceptance if and only if no accepted message ever landed nearer to the
   poller than one already waiting.
   */
  lemma FifoIff(t: Trace, es: seq<Event>)
    requires IsEmptyTrace(t)
    ensures Indices(t)
    ensures Increasing(Run(t, es + Polls(SLOTS)).ids) <==> NeverOvertakes(t, es)
  {
    EmptyIsInvariant(t);
    FifoFrom(t, es);
  }

  ghost predicate PositiveCodes(ms: seq<Message>) {
    forall k :: 0 <= k < |ms| ==> ms[k].code > 0
  }

  /** The waiting message that was accepted last. */
  ghost predicate LatestWaiting(t: Trace, s: int)
    requires Shaped(t.q)
  {
    Waiting(t.q, s) && forall b :: Waiting(t.q, b) ==> Owner(|t.accepted|, b) <= Owner(|t.accepted|, s)
  }

  /** If anything waits, some message is the latest to do so. */
  lemma {:induction false} LatestAmong(t: Trace, k: nat) returns (s: int)
    requires Shaped(t.q) && k <= SLOTS && exists b :: Waiting(t.q, b) && b < k
    ensures Waiting(t.q, s) && s < k
    ensures forall b :: Waiting(t.q, b) && b < k ==> Owner(|t.accepted|, b) <= Owner(|t.accepted|, s)
  {
    if exists b :: Waiting(t.q, b) && b < k - 1 {
      s := LatestAmong(t, k - 1);
      if Waiting(t.q, k - 1) && Owner(|t.accepted|, k - 1) > Owner(|t.accepted|, s) {
        s := k - 1;
      }
    } else {
      s := k - 1;
    }
  }

  /**
   What that comes to at the post, for any codes: as long as the order was kept, an accepted message
   overtakes exactly when the head has moved past the latest waiting message, but not past the tail.
   */
  lemma OvertakesIff(t: Trace, m: Message, s: int)
    requires Inv(t) && Ordered(t) && m.code > 0 && LatestWaiting(t, s)
    ensures Overtakes(t, Posting(m)) <==> Accepts(t.q) && 0 < Distance(s, t.q.head) <= Distance(s, t.q.tail)
  {
    var n, h, tail := |t.accepted|, t.q.head, t.q.tail;
    if Accepts(t.q) {
      forall b | Waiting(t.q, b) ensures Distance(h, b) <= Distance(h, s) {
        OwnerSlot(n, b);
        OwnerSlot(n, s);
      }
      NearerBetween(h, s, tail);
    }
  }

  /** The tail is nearer to the head than s exactly when the head is behind s and not behind the tail. */
  lemma NearerBetween(h: int, s: int, tail: int)
    requires 0 <= h < SLOTS && 0 <= s < SLOTS && 0 <= tail < SLOTS && s != tail
    ensures Distance(h, s) > Distance(h, tail) <==> 0 < Distance(s, h) <= Distance(s, tail)
  {
    DistanceCases(h, s);
    DistanceCases(h, tail);
    DistanceCases(s, h);
    DistanceCases(s, tail);
  }

  lemma DistanceCases(i: int, j: int)
    requires 0 <= i < SLOTS && 0 <= j < SLOTS
    ensures Distance(i, j) == if j >= i then j - i else j - i + SLOTS
  {
  }

  lemma NothingToOvertake(t: Trace, e: Event)
    requires Indices(t) && forall s :: !Waiting(t.q, s)
    ensures !Overtakes(t, e)
  {
  }

  /** With positive codes only: exactly when head and tail meet while something is waiting. */
  lemma PositiveOvertakesIff(t: Trace, m: Message)
    requires Inv(t) && Ordered(t) && PositiveCodes(t.accepted) && m.code > 0
    ensures Overtakes(t, Posting(m)) <==> Accepts(t.q) && t.q.head == t.q.tail && exists s :: Waiting(t.q, s)
  {
    var n, h, tail := |t.accepted|, t.q.head, t.q.tail;
    if Accepts(t.q) && exists s :: Waiting(t.q, s) {
      var last := LatestWaits(t);
      NextDistance(h, last, n - 1);
      forall s | Waiting(t.q, s) ensures Distance(h, s) <= Distance(h, last) {
        OwnerStep(n, s);
        OwnerSlot(n, s);
      }
    }
  }

  lemma NextDistance(h: int, s: int, k: int)
    requires 0 <= h < SLOTS && s == k % SLOTS
    ensures Distance(h, (k + 1) % SLOTS) == if h == (k + 1) % SLOTS then 0 else Distance(h, s) + 1
    ensures Distance(h, s) >= 0
    ensures h == (k + 1) % SLOTS ==> Distance(h, s) > 0
  {
  }

  /** If anything waits in an ordered queue, the latest message does. */
  lemma LatestWaits(t: Trace) returns (last: int)
    requires Inv(t) && Ordered(t) && PositiveCodes(t.accepted) && exists s :: Waiting(t.q, s)
    ensures Waiting(t.q, last) && last == (|t.accepted| - 1) % SLOTS && Owner(|t.accepted|, last) == |t.accepted| - 1
  {
    var n := |t.accepted|;
    var s :| Waiting(t.q, s);
    assert Holds(t, s);
    OwnerStep(n, s);
    last := (n - 1) % SLOTS;
    OwnerOf(n, n - 1);
    assert Holds(t, last);
    assert forall j :: 0 <= j < |t.ids| ==> t.ids[j] < Owner(n, s);
  }

  /** Increasing indices that leave none out are all of them. */
  lemma {:induction false} IncreasingOnto(ids: seq<int>, n: nat)
    requires Increasing(ids)
    requires forall j :: 0 <= j < |ids| ==> 0 <= ids[j] < n
    requires forall k :: 0 <= k < n ==> k in ids
    ensures |ids| == n && forall j :: 0 <= j < n ==> ids[j] == j
  {
    if |ids| > 0 {
      assert 0 <= ids[0] < n;
    }
    if n > 0 {
      assert n - 1 in ids;
      var last := |ids| - 1;
      var j :| 0 <= j < |ids| && ids[j] == n - 1;
      assert ids[j] <= ids[last] <= n - 1;
      assert j == last;
      var rest := ids[..last];
      forall k | 0 <= k < n - 1 ensures k in rest {
        assert k in ids;
        var i :| 0 <= i < |ids| && ids[i] == k;
        assert rest[i] == k;
      }
      IncreasingOnto(rest, n - 1);
    }
  }

  /** Thirty-two polls hand over everything that has a positive code. */
  lemma DrainDeliversAll(t: Trace, k: int)
    requires Inv(t) && 0 <= k < |t.accepted| && t.accepted[k].code > 0
    ensures k in Run(t, Polls(SLOTS)).ids
  {
    var es := Polls(SLOTS);
    PollsAreGets(es);
    IdsOnlyGrow(t, es);
    if k in t.ids {
      var j :| 0 <= j < |t.ids| && t.ids[j] == k;
      assert Run(t, es).ids[j] == k;
    } else {
      OwnerOf(|t.accepted|, k);
      assert Holds(t, k % SLOTS);
      StoredIsDelivered(t, k % SLOTS, es);
    }
  }

  lemma {:induction false} PollsAcceptNothing(t: Trace, es: seq<Event>)
    requires Shaped(t.q) && forall i :: 0 <= i < |es| ==> es[i].Fetching?
    ensures Run(t, es).accepted == t.accepted
    decreases |es|
  {
    if es != [] {
      PollsAcceptNothing(Step(t, es[0]), es[1..]);
    }
  }

  /** With positive codes, a run that never overtakes hands over exactly what was accepted, in that order. */
  lemma FifoOutputs(t: Trace, es: seq<Event>)
    requires IsEmptyTrace(t) && PositiveCodes(Run(t, es).accepted)
    requires Indices(t) && NeverOvertakes(t, es)
    ensures Run(t, es + Polls(SLOTS)).outputs == Run(t, es).accepted
  {
    var all := es + Polls(SLOTS);
    FifoIff(t, es);
    EmptyIsInvariant(t);
    RunKeepsInv(t, es);
    RunSplits(t, all, |es|);
    assert all[..|es|] == es && all[|es|..] == Polls(SLOTS);
    DrainedInOrder(Run(t, es), Run(t, all));
  }

  lemma DrainedInOrder(u: Trace, v: Trace)
    requires Inv(u) && PositiveCodes(u.accepted) && v == Run(u, Polls(SLOTS)) && Increasing(v.ids)
    ensures v.outputs == u.accepted
  {
    RunKeepsInv(u, Polls(SLOTS));
    PollsAcceptNothing(u, Polls(SLOTS));
    forall k | 0 <= k < |u.accepted| ensures k in v.ids {
      DrainDeliversAll(u, k);
    }
    IdentityDelivers(v);
  }

  /** If everything accepted was handed over in order, the outputs are what was accepted. */
  lemma IdentityDelivers(v: Trace)
    requires Delivered(v) && Increasing(v.ids) && forall k :: 0 <= k < |v.accepted| ==> k in v.ids
    ensures v.outputs == v.accepted
  {
    IncreasingOnto(v.ids, |v.accepted|);
  }

  /** So it is not a FIFO in general: after one empty poll the second of two posts comes out first. */
  lemma NotFifo(t: Trace, a: Message, b: Message)
    requires IsEmptyTrace(t) && a.code > 0 && b.code > 0
    ensures Run(t, [Fetching, Posting(a), Posting(b), Fetching]).outputs == [b]
  {
    var es := [Fetching, Posting(a), Posting(b), Fetching];
    var t1 := Step(t, es[0]);
    var t2 := Step(t1, es[1]);
    var t3 := Step(t2, es[2]);
    assert es[1..][1..][1..] == [Fetching] && es[1..][1..][1..][1..] == [];
    assert es[1..][0] == es[1] && es[1..][1..][0] == es[2];
    assert Run(t, es) == Run(t1, es[1..]) == Run(t2, es[1..][1..]) == Run(t3, [Fetching]);
    assert Run(t3, [Fetching]) == Step(t3, Fetching);
  }

  // ------------------------------------------------------------------ negative codes

  /** A negative code is never fetched and occupies its slot for ever. */
  lemma {:induction false} NegativeCodeJamsItsSlot(t: Trace, s: int, es: seq<Event>)
    requires Shaped(t.q) && 0 <= s < SLOTS && t.q.slots[s].code < 0
    ensures Run(t, es).q.slots[s] == t.q.slots[s]
    decreases |es|
  {
    if es != [] {
      NegativeCodeJamsItsSlot(Step(t, es[0]), s, es[1..]);
    }
  }

  lemma DistanceAfterNext(i: int, s: int)
    requires 0 <= i < SLOTS && 0 <= s < SLOTS && i != s
    ensures Distance(Next(i), s) == Distance(i, s) - 1
  {
  }

  /** The tail never gets past a jammed slot. */
  lemma {:induction false} TailStopsAtJam(t: Trace, s: int, es: seq<Event>)
    requires Indices(t) && 0 <= s < SLOTS && t.q.slots[s].code < 0
    ensures |Run(t, es).accepted| <= |t.accepted| + Distance(t.q.tail, s)
    decreases |es|
  {
    if es != [] {
      var t' := Step(t, es[0]);
      StepKeepsIndices(t, es[0]);
      if t'.accepted != t.accepted {
        DistanceAfterNext(t.q.tail, s);
      }
      TailStopsAtJam(t', s, es[1..]);
    }
  }

  /** Once a negative code has been accepted, no continuation accepts more than 31 messages. */
  lemma NegativeCodeEndsTheQueue(t: Trace, m: Message, es: seq<Event>)
    requires Indices(t) && Accepts(t.q) && m.code < 0
    ensures |Run(Step(t, Posting(m)), es).accepted| <= |t.accepted| + 1 + 31
  {
    StepKeepsIndices(t, Posting(m));
    TailStopsAtJam(Step(t, Posting(m)), t.q.tail, es);
  }
}
