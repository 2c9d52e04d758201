/** The lock-free multi-producer single-consumer mailbox of a worker, with its sleep/wake protocol.
    One step is one atomic operation, under sequentially consistent interleaving of any number of
    producers and the one consumer. `head` and `tail` count without bound; the code sees them modulo
    2^32, in every comparison and in the compare-and-swap. */
module Mailbox {
  import opened Words

  const SIZE := 256

  /** A message is a pointer other than NULL; 0 is NULL. */
  type Ptr = nat

  /** Where a producer is inside `sys_mpsc_push`. `head` is its 32-bit local; `tail` is the counter
      whose low word it loaded. */
  datatype Producer =
    | Idle
    | HasHead(ptr: Ptr, head: u32)
    | HasTail(ptr: Ptr, head: u32, tail: nat)
    | Reserved(ptr: Ptr, index: nat)
    | Stored
    | Posting

  /** Where the consumer is inside `sys_mpsc_pop` and `sys_worker_sleep`. */
  datatype Consumer =
    | Running
    | PopHasTail(tail: u32)
    | Taking(tail: u32)
    | Holding(tail: u32, ptr: Ptr)
    | Flagged
    | SleepHasTail(tail: u32)
    | Aborting
    | Waiting
    | Woken
    | Finished

  /** `pushed` and `popped` are histories: the pointers in the order of the successful
      compare-and-swaps, and the pointers `sys_mpsc_pop` returned. */
  datatype State = State(
    head: nat, tail: nat, slots: seq<Ptr>, sleeping: bool, sem: nat,
    producers: seq<Producer>, consumer: Consumer, pushed: seq<Ptr>, popped: seq<Ptr>)

  datatype Step =
    | Push(i: nat, ptr: Ptr)
    | LoadTail(i: nat)
    | Full(i: nat)
    | Reserve(i: nat)
    | Retry(i: nat)
    | Publish(i: nat)
    | CheckFlag(i: nat)
    | Post(i: nat)
    | Pop
    | PopHead
    | Exchange
    | Advance
    | Sleep
    | SleepTail
    | SleepHead
    | Abort
    | Wake
    | Unflag
    | Finish

  function Init(n: nat): State {
    State(0, 0, seq(SIZE, _ => 0), false, 0, seq(n, _ => Idle), Running, [], [])
  }

  /** `head - tail >= QUEUE_SIZE` on 32-bit words. */
  predicate LooksFull(head: u32, tail: nat) {
    (head - tail) % WORD >= SIZE
  }

  /** `step` is the next operation of its thread. A compare-and-swap succeeds only when the word `head`
      still equals the local copy, and it may fail even then. */
  predicate Enabled(s: State, step: Step) {
    match step
    case Push(i, ptr) => i < |s.producers| && s.producers[i] == Idle && ptr != 0
    case LoadTail(i) => i < |s.producers| && s.producers[i].HasHead?
    case Full(i) => i < |s.producers| && s.producers[i].HasTail? && LooksFull(s.producers[i].head, s.producers[i].tail)
    case Reserve(i) =>
      && i < |s.producers| && s.producers[i].HasTail? && !LooksFull(s.producers[i].head, s.producers[i].tail)
      && s.producers[i].head == s.head % WORD
    case Retry(i) =>
      i < |s.producers| && s.producers[i].HasTail? && !LooksFull(s.producers[i].head, s.producers[i].tail)
    case Publish(i) => i < |s.producers| && s.producers[i].Reserved? && |s.slots| == SIZE
    case CheckFlag(i) => i < |s.producers| && s.producers[i] == Stored
    case Post(i) => i < |s.producers| && s.producers[i] == Posting
    case Pop => s.consumer == Running
    case PopHead => s.consumer.PopHasTail?
    case Exchange => s.consumer.Taking? && |s.slots| == SIZE
    case Advance => s.consumer.Holding?
    case Sleep => s.consumer == Running
    case SleepTail => s.consumer == Flagged
    case SleepHead => s.consumer.SleepHasTail?
    case Abort => s.consumer == Aborting
    case Wake => s.consumer == Waiting && s.sem > 0
    case Unflag => s.consumer == Woken
    case Finish => s.consumer == Running
  }

  /** When a compare-and-swap succeeds, `head` is less than `patience` ahead of the tail its producer
      loaded: that bounds how long a producer may stall between the two. */
  predicate Timely(patience: nat, s: State, step: Step)
    requires Enabled(s, step)
  {
    step.Reserve? ==> s.head - s.producers[step.i].tail < patience
  }

  function Moved(s: State, i: nat, p: Producer): State
    requires i < |s.producers|
  {
    s.(producers := s.producers[i := p])
  }

  function Do(s: State, step: Step): State
    requires Enabled(s, step)
  {
    match step
    case Push(i, ptr) => Moved(s, i, HasHead(ptr, s.head % WORD))
    case LoadTail(i) => Moved(s, i, HasTail(s.producers[i].ptr, s.producers[i].head, s.tail))
    case Full(i) => Moved(s, i, Idle)
    case Reserve(i) =>
      var ptr := s.producers[i].ptr;
      Moved(s, i, Reserved(ptr, s.head)).(head := s.head + 1, pushed := s.pushed + [ptr])
    case Retry(i) => Moved(s, i, HasHead(s.producers[i].ptr, s.head % WORD))
    case Publish(i) =>
      Moved(s, i, Stored).(slots := s.slots[s.producers[i].index % SIZE := s.producers[i].ptr])
    case CheckFlag(i) => Moved(s, i, if s.sleeping then Posting else Idle)
    case Post(i) => Moved(s, i, Idle).(sem := s.sem + 1)
    case Pop => s.(consumer := PopHasTail(s.tail % WORD))
    case PopHead =>
      s.(consumer := if s.consumer.tail == s.head % WORD then Running else Taking(s.consumer.tail))
    case Exchange =>
      var j := s.consumer.tail % SIZE;
      s.(slots := s.slots[j := 0],
         consumer := if s.slots[j] == 0 then Running else Holding(s.consumer.tail, s.slots[j]))
    case Advance => s.(tail := s.tail + 1, popped := s.popped + [s.consumer.ptr], consumer := Running)
    case Sleep => s.(sleeping := true, consumer := Flagged)
    case SleepTail => s.(consumer := SleepHasTail(s.tail % WORD))
    case SleepHead => s.(consumer := if s.consumer.tail == s.head % WORD then Waiting else Aborting)
    case Abort => s.(sleeping := false, consumer := Running)
    case Wake => s.(sem := s.sem - 1, consumer := Woken)
    case Unflag => s.(sleeping := false, consumer := Running)
    case Finish => s.(consumer := Finished)
  }

  /** A run of the system from `s` to `t`. */
  ghost predicate Run(patience: nat, s: State, steps: seq<Step>, t: State)
    decreases |steps|
  {
    if steps == [] then s == t
    else
      && Enabled(s, steps[0]) && Timely(patience, s, steps[0])
      && Run(patience, Do(s, steps[0]), steps[1..], t)
  }

  ghost predicate Reachable(patience: nat, n: nat, s: State) {
    exists steps :: Run(patience, Init(n), steps, s)
  }

  //
  // The invariant.
  //

  /** Every slot is NULL or holds the message of the one index of the window it belongs to. */
  ghost predicate Slots(s: State) {
    && |s.slots| == SIZE
    && forall k :: s.tail <= k < s.tail + SIZE ==>
         s.slots[k % SIZE] == 0 || (k < s.head && k < |s.pushed| && s.slots[k % SIZE] == s.pushed[k])
  }

  predicate ReservedAt(s: State, i: nat, k: nat) {
    i < |s.producers| && s.producers[i].Reserved? && s.producers[i].index == k
  }

  predicate HeldAt(s: State, k: nat) {
    s.consumer.Holding? && k == s.tail
  }

  /** Every index between tail and head is published, reserved by a producer that has yet to store, or
      held by the consumer that has yet to advance. */
  ghost predicate Accounted(s: State) {
    |s.slots| == SIZE &&
    forall k :: s.tail <= k < s.head ==> s.slots[k % SIZE] != 0 || HeldAt(s, k) || exists i :: ReservedAt(s, i, k)
  }

  ghost predicate ProducerOk(s: State, i: nat)
    requires i < |s.producers|
  {
    match s.producers[i]
    case HasHead(ptr, _) => ptr != 0
    case HasTail(ptr, _, tail) => ptr != 0 && tail <= s.tail
    case Reserved(ptr, k) =>
      && ptr != 0 && s.tail <= k < s.head && k < |s.pushed| && s.pushed[k] == ptr
      && |s.slots| == SIZE && s.slots[k % SIZE] == 0 && !HeldAt(s, k)
    case _ => true
  }

  ghost predicate Producers(s: State) {
    && (forall i :: 0 <= i < |s.producers| ==> ProducerOk(s, i))
    && (forall i, j, k :: ReservedAt(s, i, k) && ReservedAt(s, j, k) ==> i == j)
  }

  predicate ConsumerOk(s: State) {
    match s.consumer
    case PopHasTail(t) => t == s.tail % WORD
    case Taking(t) => t == s.tail % WORD && s.tail < s.head
    case Holding(t, ptr) =>
      && t == s.tail % WORD && s.tail < s.head && s.tail < |s.pushed| && ptr == s.pushed[s.tail]
      && |s.slots| == SIZE && s.slots[s.tail % SIZE] == 0
    case SleepHasTail(t) => t == s.tail % WORD
    case _ => true
  }

  predicate Counters(s: State) {
    && s.tail <= s.head <= s.tail + SIZE
    && |s.pushed| == s.head
    && s.popped == s.pushed[..s.tail]
    && forall k :: 0 <= k < |s.pushed| ==> s.pushed[k] != 0
  }

  ghost predicate Inv(s: State) {
    Counters(s) && Slots(s) && Accounted(s) && Producers(s) && ConsumerOk(s)
  }

  /** Two indices of one window share a slot only if they are equal. */
  lemma SameSlot(a: nat, b: nat)
    requires a % SIZE == b % SIZE && a < b + SIZE && b < a + SIZE
    ensures a == b
  {
  }

  lemma SmallDifference(head: nat, tail: nat)
    requires tail <= head < tail + WORD
    ensures (head % WORD - tail) % WORD == head - tail
  {
  }

  lemma SameWord(head: nat, tail: nat)
    requires tail <= head <= tail + SIZE && head % WORD == tail % WORD
    ensures head == tail
  {
  }

  lemma SlotOfWord(k: nat)
    ensures k % WORD % SIZE == k % SIZE
  {
  }

  lemma InitInv(n: nat)
    ensures Inv(Init(n))
  {
  }

  /** The test on stale 32-bit copies is sound while fewer than 2^32 - 256 messages went by. */
  lemma ReserveHasRoom(s: State, i: nat, patience: nat)
    requires Inv(s) && patience <= WORD && Enabled(s, Reserve(i)) && Timely(patience, s, Reserve(i))
    ensures s.head < s.tail + SIZE && s.slots[s.head % SIZE] == 0
  {
    var p := s.producers[i];
    assert ProducerOk(s, i);
    SmallDifference(s.head, p.tail);
  }

  lemma InvReserve(s: State, i: nat, patience: nat)
    requires Inv(s) && patience <= WORD && Enabled(s, Reserve(i)) && Timely(patience, s, Reserve(i))
    ensures Inv(Do(s, Reserve(i)))
  {
    ReserveHasRoom(s, i, patience);
    PtrOk(s, i);
    var t := Do(s, Reserve(i));
    forall j | 0 <= j < |t.producers| ensures ProducerOk(t, j) {
      assert ProducerOk(s, j);
    }
    forall k | t.tail <= k < t.head
      ensures t.slots[k % SIZE] != 0 || HeldAt(t, k) || exists j :: ReservedAt(t, j, k)
    {
      if k == s.head {
        assert ReservedAt(t, i, k);
      } else if s.slots[k % SIZE] == 0 && !HeldAt(s, k) {
        var j :| ReservedAt(s, j, k);
        assert ReservedAt(t, j, k);
      }
    }
    forall a, b, k | ReservedAt(t, a, k) && ReservedAt(t, b, k) ensures a == b {
      assert a != i ==> ReservedAt(s, a, k) && ProducerOk(s, a);
      assert b != i ==> ReservedAt(s, b, k) && ProducerOk(s, b);
    }
  }

  lemma InvPublish(s: State, i: nat)
    requires Inv(s) && Enabled(s, Publish(i))
    ensures Inv(Do(s, Publish(i)))
  {
    var t := Do(s, Publish(i));
    var index := s.producers[i].index;
    assert ProducerOk(s, i) && ReservedAt(s, i, index);
    forall j | 0 <= j < |t.producers| ensures ProducerOk(t, j) {
      assert ProducerOk(s, j);
      if j != i && s.producers[j].Reserved? {
        assert ReservedAt(s, j, s.producers[j].index);
        if s.producers[j].index % SIZE == index % SIZE {
          SameSlot(s.producers[j].index, index);
        }
      }
    }
    forall k | t.tail <= k < t.tail + SIZE
      ensures t.slots[k % SIZE] == 0 || (k < t.head && t.slots[k % SIZE] == t.pushed[k])
    {
      if k % SIZE == index % SIZE {
        SameSlot(k, index);
      }
    }
    forall k | t.tail <= k < t.head
      ensures t.slots[k % SIZE] != 0 || HeldAt(t, k) || exists j :: ReservedAt(t, j, k)
    {
      if k % SIZE != index % SIZE && s.slots[k % SIZE] == 0 && !HeldAt(s, k) {
        var j :| ReservedAt(s, j, k);
        assert ReservedAt(t, j, k);
      }
    }
    forall a, b, k | ReservedAt(t, a, k) && ReservedAt(t, b, k) ensures a == b {
      assert ReservedAt(s, a, k) && ReservedAt(s, b, k);
    }
    if s.consumer.Holding? && s.tail % SIZE == index % SIZE {
      SameSlot(s.tail, index);
    }
  }

  /** The steps of a producer that touch neither the queue nor its reservation. */
  lemma InvProducer(s: State, t: State, i: nat)
    requires Inv(s) && i < |s.producers| && !s.producers[i].Reserved?
    requires |t.producers| == |s.producers| && t == Moved(s, i, t.producers[i]).(sem := t.sem)
    requires !t.producers[i].Reserved? && ProducerOk(t, i)
    ensures Inv(t)
  {
    forall j | 0 <= j < |t.producers| ensures ProducerOk(t, j) {
      assert ProducerOk(s, j);
    }
    forall k | t.tail <= k < t.head
      ensures t.slots[k % SIZE] != 0 || HeldAt(t, k) || exists j :: ReservedAt(t, j, k)
    {
      if s.slots[k % SIZE] == 0 && !HeldAt(s, k) {
        var j :| ReservedAt(s, j, k);
        assert ReservedAt(t, j, k);
      }
    }
    forall a, b, k | ReservedAt(t, a, k) && ReservedAt(t, b, k) ensures a == b {
      assert ReservedAt(s, a, k) && ReservedAt(s, b, k);
    }
  }

  lemma InvExchange(s: State)
    requires Inv(s) && Enabled(s, Exchange)
    ensures Inv(Do(s, Exchange))
  {
    var t := Do(s, Exchange);
    SlotOfWord(s.tail);
    assert s.tail % SIZE == s.consumer.tail % SIZE;
    forall j | 0 <= j < |t.producers| ensures ProducerOk(t, j) {
      assert ProducerOk(s, j);
    }
    forall k | t.tail <= k < t.tail + SIZE
      ensures t.slots[k % SIZE] == 0 || (k < t.head && t.slots[k % SIZE] == t.pushed[k])
    {
    }
    forall k | t.tail <= k < t.head
      ensures t.slots[k % SIZE] != 0 || HeldAt(t, k) || exists j :: ReservedAt(t, j, k)
    {
      if k % SIZE == s.tail % SIZE {
        SameSlot(k, s.tail);
      }
      if s.slots[k % SIZE] == 0 {
        var j :| ReservedAt(s, j, k);
        assert ReservedAt(t, j, k);
      }
    }
    forall a, b, k | ReservedAt(t, a, k) && ReservedAt(t, b, k) ensures a == b {
      assert ReservedAt(s, a, k) && ReservedAt(s, b, k);
    }
  }

  lemma InvAdvance(s: State)
    requires Inv(s) && Enabled(s, Advance)
    ensures Inv(Do(s, Advance))
  {
    var t := Do(s, Advance);
    forall j | 0 <= j < |t.producers| ensures ProducerOk(t, j) {
      assert ProducerOk(s, j);
    }
    forall k | t.tail <= k < t.tail + SIZE
      ensures t.slots[k % SIZE] == 0 || (k < t.head && t.slots[k % SIZE] == t.pushed[k])
    {
      if k == s.tail + SIZE {
        assert k % SIZE == s.tail % SIZE;
      }
    }
    forall k | t.tail <= k < t.head
      ensures t.slots[k % SIZE] != 0 || HeldAt(t, k) || exists j :: ReservedAt(t, j, k)
    {
      if s.slots[k % SIZE] == 0 {
        var j :| ReservedAt(s, j, k);
        assert ReservedAt(t, j, k);
      }
    }
    forall a, b, k | ReservedAt(t, a, k) && ReservedAt(t, b, k) ensures a == b {
      assert ReservedAt(s, a, k) && ReservedAt(s, b, k);
    }
  }

  /** The consumer's remaining steps change its own position, the flag and the semaphore only. */
  lemma InvConsumer(s: State, t: State)
    requires Inv(s) && !s.consumer.Holding? && !t.consumer.Holding?
    requires t == s.(consumer := t.consumer, sleeping := t.sleeping, sem := t.sem)
    requires ConsumerOk(t)
    ensures Inv(t)
  {
    forall j | 0 <= j < |t.producers| ensures ProducerOk(t, j) {
      assert ProducerOk(s, j);
    }
    forall k | t.tail <= k < t.head
      ensures t.slots[k % SIZE] != 0 || HeldAt(t, k) || exists j :: ReservedAt(t, j, k)
    {
      if s.slots[k % SIZE] == 0 {
        var j :| ReservedAt(s, j, k);
        assert ReservedAt(t, j, k);
      }
    }
    forall a, b, k | ReservedAt(t, a, k) && ReservedAt(t, b, k) ensures a == b {
      assert ReservedAt(s, a, k) && ReservedAt(s, b, k);
    }
  }

  /** What every step keeps. */
  lemma StepKeepsInv(s: State, step: Step, patience: nat)
    requires Inv(s) && patience <= WORD && Enabled(s, step) && Timely(patience, s, step)
    ensures Inv(Do(s, step))
  {
    hide Slots, Accounted, Producers, Counters;
    var t := Do(s, step);
    match step
    case Reserve(i) => InvReserve(s, i, patience);
    case Publish(i) => InvPublish(s, i);
    case Exchange => InvExchange(s);
    case Advance => InvAdvance(s);
    case Push(i, ptr) => InvProducer(s, t, i);
    case LoadTail(i) => PtrOk(s, i); InvProducer(s, t, i);
    case Full(i) => InvProducer(s, t, i);
    case Retry(i) => PtrOk(s, i); InvProducer(s, t, i);
    case CheckFlag(i) => InvProducer(s, t, i);
    case Post(i) => InvProducer(s, t, i);
    case PopHead => TailIsNotHead(s); InvConsumer(s, t);
    case _ => InvConsumer(s, t);
  }

  lemma PtrOk(s: State, i: nat)
    requires Inv(s) && i < |s.producers| && (s.producers[i].HasHead? || s.producers[i].HasTail?)
    ensures s.producers[i].ptr != 0
  {
    assert ProducerOk(s, i);
  }

  lemma TailIsNotHead(s: State)
    requires Inv(s)
    ensures s.tail % WORD != s.head % WORD ==> s.tail < s.head
  {
  }

  lemma {:induction false} RunKeepsInv(patience: nat, s: State, steps: seq<Step>, t: State)
    requires Inv(s) && patience <= WORD && Run(patience, s, steps, t)
    ensures Inv(t)
    decreases |steps|
  {
    hide Inv, Enabled, Do;
    if steps != [] {
      StepKeepsInv(s, steps[0], patience);
      RunKeepsInv(patience, Do(s, steps[0]), steps[1..], t);
    }
  }

  //
  // Safety, and the exact stall it tolerates.
  //

  /** The window never exceeds the ring, what was popped is a prefix of what was pushed, a reserving
      producer is about to store over NULL, and slots outside the window are NULL. */
  ghost predicate Safe(s: State) {
    && s.tail <= s.head <= s.tail + 256
    && |s.pushed| == s.head && s.popped == s.pushed[..s.tail]
    && |s.slots| == 256
    && (forall i: nat, k: nat :: ReservedAt(s, i, k) ==> s.slots[k % SIZE] == 0)
    && (forall k :: s.head <= k < s.tail + SIZE ==> s.slots[k % SIZE] == 0)
  }

  lemma InvIsSafe(s: State)
    requires Inv(s)
    ensures Safe(s)
  {
    forall i: nat, k: nat | ReservedAt(s, i, k) ensures s.slots[k % SIZE] == 0 {
      assert ProducerOk(s, i);
    }
  }

  /** Every reachable state is safe when no producer stalls across 2^32 messages. */
  lemma ReachableIsSafe(patience: nat, n: nat, s: State)
    requires patience <= WORD && Reachable(patience, n, s)
    ensures Inv(s) && Safe(s)
  {
    hide Inv, Safe, Run;
    var steps :| Run(patience, Init(n), steps, s);
    InitInv(n);
    RunKeepsInv(patience, Init(n), steps, s);
    InvIsSafe(s);
  }

  lemma {:induction false} RunAppend(patience: nat, s: State, a: seq<Step>, t: State, b: seq<Step>, u: State)
    requires Run(patience, s, a, t) && Run(patience, t, b, u)
    ensures Run(patience, s, a + b, u)
    decreases |a|
  {
    hide Enabled, Do, Timely;
    if a == [] {
      assert a + b == b;
    } else {
      assert (a + b)[1..] == a[1..] + b;
      RunAppend(patience, Do(s, a[0]), a[1..], t, b, u);
    }
  }

  lemma OneStep(patience: nat, s: State, step: Step)
    requires Enabled(s, step) && Timely(patience, s, step)
    ensures Run(patience, s, [step], Do(s, step))
  {
    hide Do, Enabled, Timely;
    assert [step][1..] == [];
    assert Run(patience, Do(s, step), [], Do(s, step));
  }

  function Ones(n: nat): seq<Ptr> {
    seq(n, _ => 1)
  }

  /** Producer 0 has loaded head and tail as 0 and stalls; `pushed` messages went through producer 1
      and the consumer took `popped` of them. */
  function Stalled(pushed: nat, popped: nat, slots: seq<Ptr>): State {
    State(pushed, popped, slots, false, 0, [HasTail(1, 0, 0), Idle], Running, Ones(pushed), Ones(popped))
  }

  /** Producer 1 pushes one more. */
  lemma PushOne(patience: nat, pushed: nat, popped: nat, slots: seq<Ptr>) returns (steps: seq<Step>)
    requires patience > SIZE && |slots| == SIZE && popped <= pushed < popped + SIZE
    ensures Run(patience, Stalled(pushed, popped, slots), steps,
                Stalled(pushed + 1, popped, slots[pushed % SIZE := 1]))
  {
    hide Run;
    var s0 := Stalled(pushed, popped, slots);
    var s1 := Do(s0, Push(1, 1));
    OneStep(patience, s0, Push(1, 1));
    var s2 := Do(s1, LoadTail(1));
    OneStep(patience, s1, LoadTail(1));
    SmallDifference(pushed, popped);
    var s3 := Do(s2, Reserve(1));
    OneStep(patience, s2, Reserve(1));
    var s4 := Do(s3, Publish(1));
    OneStep(patience, s3, Publish(1));
    var s5 := Do(s4, CheckFlag(1));
    OneStep(patience, s4, CheckFlag(1));
    assert Ones(pushed) + [1] == Ones(pushed + 1);
    assert s5.producers == [HasTail(1, 0, 0), Idle];
    assert s5 == Stalled(pushed + 1, popped, slots[pushed % SIZE := 1]);
    RunAppend(patience, s0, [Push(1, 1)], s1, [LoadTail(1)], s2);
    RunAppend(patience, s0, [Push(1, 1)] + [LoadTail(1)], s2, [Reserve(1)], s3);
    RunAppend(patience, s0, [Push(1, 1)] + [LoadTail(1)] + [Reserve(1)], s3, [Publish(1)], s4);
    RunAppend(patience, s0, [Push(1, 1)] + [LoadTail(1)] + [Reserve(1)] + [Publish(1)], s4, [CheckFlag(1)], s5);
    steps := [Push(1, 1)] + [LoadTail(1)] + [Reserve(1)] + [Publish(1)] + [CheckFlag(1)];
  }

  /** The consumer takes the one message there is. */
  lemma PopOne(patience: nat, n: nat, slots: seq<Ptr>) returns (steps: seq<Step>)
    requires |slots| == SIZE && slots[n % SIZE] == 1
    ensures Run(patience, Stalled(n + 1, n, slots), steps, Stalled(n + 1, n + 1, slots[n % SIZE := 0]))
  {
    hide Run;
    var s0 := Stalled(n + 1, n, slots);
    var s1 := Do(s0, Pop);
    OneStep(patience, s0, Pop);
    var s2 := Do(s1, PopHead);
    OneStep(patience, s1, PopHead);
    SlotOfWord(n);
    var s3 := Do(s2, Exchange);
    OneStep(patience, s2, Exchange);
    var s4 := Do(s3, Advance);
    OneStep(patience, s3, Advance);
    assert Ones(n) + [1] == Ones(n + 1);
    assert s4 == Stalled(n + 1, n + 1, slots[n % SIZE := 0]);
    RunAppend(patience, s0, [Pop], s1, [PopHead], s2);
    RunAppend(patience, s0, [Pop] + [PopHead], s2, [Exchange], s3);
    RunAppend(patience, s0, [Pop] + [PopHead] + [Exchange], s3, [Advance], s4);
    steps := [Pop] + [PopHead] + [Exchange] + [Advance];
  }

  const EMPTY: seq<Ptr> := seq(SIZE, _ => 0)

  /** Any number of messages pass while producer 0 stalls. */
  lemma {:induction false} PassMany(patience: nat, n: nat) returns (steps: seq<Step>)
    requires patience > SIZE
    ensures Run(patience, Stalled(0, 0, EMPTY), steps, Stalled(n, n, EMPTY))
    decreases n
  {
    hide Run;
    if n == 0 {
      steps := [];
      NoSteps(patience, Stalled(0, 0, EMPTY));
    } else {
      var before := PassMany(patience, n - 1);
      var s, slots := Stalled(n - 1, n - 1, EMPTY), EMPTY[(n - 1) % SIZE := 1];
      var push := PushOne(patience, n - 1, n - 1, EMPTY);
      var pop := PopOne(patience, n - 1, slots);
      assert slots[(n - 1) % SIZE := 0] == EMPTY;
      RunAppend(patience, s, push, Stalled(n, n - 1, slots), pop, Stalled(n, n, EMPTY));
      RunAppend(patience, Stalled(0, 0, EMPTY), before, s, push + pop, Stalled(n, n, EMPTY));
      steps := before + (push + pop);
    }
  }

  lemma NoSteps(patience: nat, s: State)
    ensures Run(patience, s, [], s)
  {
  }

  /** Then producer 1 fills the ring. */
  lemma {:induction false} FillMany(patience: nat, n: nat, k: nat) returns (steps: seq<Step>, slots: seq<Ptr>)
    requires patience > SIZE && k <= SIZE
    ensures |slots| == SIZE && Run(patience, Stalled(n, n, EMPTY), steps, Stalled(n + k, n, slots))
    decreases k
  {
    hide Run;
    if k == 0 {
      steps, slots := [], EMPTY;
      NoSteps(patience, Stalled(n, n, EMPTY));
    } else {
      var before, full := FillMany(patience, n, k - 1);
      var push := PushOne(patience, n + k - 1, n, full);
      slots := full[(n + k - 1) % SIZE := 1];
      RunAppend(patience, Stalled(n, n, EMPTY), before, Stalled(n + k - 1, n, full), push, Stalled(n + k, n, slots));
      steps := before + push;
    }
  }

  lemma StallBegins(patience: nat) returns (steps: seq<Step>)
    ensures Run(patience, Init(2), steps, Stalled(0, 0, EMPTY))
  {
    var s1 := Do(Init(2), Push(0, 1));
    OneStep(patience, Init(2), Push(0, 1));
    OneStep(patience, s1, LoadTail(0));
    assert Do(s1, LoadTail(0)) == Stalled(0, 0, EMPTY);
    RunAppend(patience, Init(2), [Push(0, 1)], s1, [LoadTail(0)], Stalled(0, 0, EMPTY));
    steps := [Push(0, 1)] + [LoadTail(0)];
  }

  /** A producer that stalls across exactly 2^32 messages reserves a 257th entry in a full ring: its
      words compare as if nothing had happened, and the next store overwrites an unread message. */
  lemma StallOverflows(patience: nat) returns (s: State)
    requires patience > WORD
    ensures Reachable(patience, 2, s) && s.head == s.tail + 257 && !Safe(s)
  {
    hide Run;
    var n := WORD - SIZE;
    var begin := StallBegins(patience);
    var pass := PassMany(patience, n);
    var fill, slots := FillMany(patience, n, SIZE);
    var full := Stalled(WORD, n, slots);
    RunAppend(patience, Init(2), begin, Stalled(0, 0, EMPTY), pass, Stalled(n, n, EMPTY));
    RunAppend(patience, Init(2), begin + pass, Stalled(n, n, EMPTY), fill, full);
    OneStep(patience, full, Reserve(0));
    s := Do(full, Reserve(0));
    RunAppend(patience, Init(2), begin + pass + fill, full, [Reserve(0)], s);
  }

  /** The mailbox is safe in every run of any number of producers exactly when no producer's
      compare-and-swap succeeds 2^32 or more messages after the tail it loaded. */
  lemma SafeIffTimely(patience: nat)
    ensures (forall n, s :: Reachable(patience, n, s) ==> Safe(s)) <==> patience <= WORD
  {
    hide Safe, Run, Inv, Reachable;
    if patience <= WORD {
      forall n, s | Reachable(patience, n, s) ensures Safe(s) {
        ReachableIsSafe(patience, n, s);
      }
    } else {
      var s := StallOverflows(patience);
    }
  }
}
