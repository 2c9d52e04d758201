/** Delivery: no message is lost or duplicated, no wakeup is lost, and the drain at join releases
    what is left. */
module MailboxDelivery {
  import opened Words
  import opened Mailbox

  //
  // Conservation.
  //

  /** The bag of the non-NULL pointers. */
  ghost function Bag(ps: seq<Ptr>): multiset<Ptr> {
    multiset(ps)[0 := 0]
  }

  function ReservedPtr(p: Producer): Ptr {
    if p.Reserved? then p.ptr else 0
  }

  function ReservedPtrs(ps: seq<Producer>): seq<Ptr> {
    seq(|ps|, i requires 0 <= i < |ps| => ReservedPtr(ps[i]))
  }

  function HeldPtrs(c: Consumer): seq<Ptr> {
    if c.Holding? then [c.ptr] else []
  }

  /** Every pushed message is popped, held by the consumer, in a slot, or reserved and not yet stored. */
  ghost predicate Conserved(s: State) {
    multiset(s.pushed)
    == multiset(s.popped) + multiset(HeldPtrs(s.consumer)) + Bag(s.slots) + Bag(ReservedPtrs(s.producers))
  }

  lemma BagUpdate(ps: seq<Ptr>, i: nat, p: Ptr)
    requires i < |ps|
    ensures Bag(ps[i := p]) == Bag(ps) - (if ps[i] == 0 then multiset{} else multiset{ps[i]})
                            + (if p == 0 then multiset{} else multiset{p})
  {
    assert multiset(ps[i := p]) == multiset(ps) - multiset{ps[i]} + multiset{p};
    if ps[i] != 0 {
      assert ps[i] in Bag(ps);
    }
  }

  lemma ReservedUpdate(ps: seq<Producer>, i: nat, p: Producer)
    requires i < |ps|
    ensures ReservedPtrs(ps[i := p]) == ReservedPtrs(ps)[i := ReservedPtr(p)]
  {
  }

  lemma BagHas(ps: seq<Ptr>, i: nat)
    requires i < |ps| && ps[i] != 0
    ensures multiset{ps[i]} <= Bag(ps)
  {
    assert ps[i] in multiset(ps);
  }

  /** Replacing producer `i` changes the reserved bag by what it reserved before and after. */
  lemma ReservedBagUpdate(ps: seq<Producer>, i: nat, p: Producer)
    requires i < |ps|
    ensures Bag(ReservedPtrs(ps[i := p]))
         == Bag(ReservedPtrs(ps)) - (if ReservedPtr(ps[i]) == 0 then multiset{} else multiset{ReservedPtr(ps[i])})
                                  + (if ReservedPtr(p) == 0 then multiset{} else multiset{ReservedPtr(p)})
  {
    hide Bag, ReservedPtrs, ReservedPtr;
    ReservedUpdate(ps, i, p);
    ReservedIs(ps, i);
    BagUpdate(ReservedPtrs(ps), i, ReservedPtr(p));
  }

  lemma ReserveConserves(s: State, i: nat)
    requires Inv(s) && Conserved(s) && Enabled(s, Reserve(i))
    ensures Conserved(Do(s, Reserve(i)))
  {
    hide Inv, Bag, ReservedPtrs;
    PtrOk(s, i);
    ReservedBagUpdate(s.producers, i, Reserved(s.producers[i].ptr, s.head));
  }

  lemma PublishConserves(s: State, i: nat)
    requires Inv(s) && Conserved(s) && Enabled(s, Publish(i))
    ensures Conserved(Do(s, Publish(i)))
  {
    hide Inv, Bag, ReservedPtrs;
    PublishesOverNull(s, i);
    ReservedBagUpdate(s.producers, i, Stored);
    BagUpdate(s.slots, s.producers[i].index % SIZE, s.producers[i].ptr);
    ReservedIs(s.producers, i);
    BagHas(ReservedPtrs(s.producers), i);
  }

  lemma ExchangeConserves(s: State)
    requires Inv(s) && Conserved(s) && Enabled(s, Exchange)
    ensures Conserved(Do(s, Exchange))
  {
    hide Inv, Bag, ReservedPtrs;
    var j := s.consumer.tail % SIZE;
    BagUpdate(s.slots, j, 0);
    if s.slots[j] != 0 {
      BagHas(s.slots, j);
    }
  }

  lemma AdvanceConserves(s: State)
    requires Conserved(s) && Enabled(s, Advance)
    ensures Conserved(Do(s, Advance))
  {
    hide Bag, ReservedPtrs;
  }

  lemma ConsumerConserves(s: State, t: State)
    requires Conserved(s) && !s.consumer.Holding? && !t.consumer.Holding?
    requires t.pushed == s.pushed && t.popped == s.popped && t.slots == s.slots && t.producers == s.producers
    ensures Conserved(t)
  {
  }

  lemma ProducerConserves(s: State, t: State, i: nat)
    requires Conserved(s) && i < |s.producers| == |t.producers| && t.consumer == s.consumer
    requires t.pushed == s.pushed && t.popped == s.popped && t.slots == s.slots
    requires t.producers == s.producers[i := t.producers[i]] && !s.producers[i].Reserved? && !t.producers[i].Reserved?
    ensures Conserved(t)
  {
    hide Bag, ReservedPtrs;
    ReservedBagUpdate(s.producers, i, t.producers[i]);
  }

  lemma StepConserves(s: State, step: Step, patience: nat)
    requires Inv(s) && Conserved(s) && patience <= WORD && Enabled(s, step) && Timely(patience, s, step)
    ensures Conserved(Do(s, step))
  {
    hide Inv, Conserved;
    var t := Do(s, step);
    match step {
      case Reserve(i) => ReserveConserves(s, i);
      case Publish(i) => PublishConserves(s, i);
      case Exchange => ExchangeConserves(s);
      case Push(i, _) => ProducerConserves(s, t, i);
      case LoadTail(i) => ProducerConserves(s, t, i);
      case Full(i) => ProducerConserves(s, t, i);
      case Retry(i) => ProducerConserves(s, t, i);
      case CheckFlag(i) => ProducerConserves(s, t, i);
      case Post(i) => ProducerConserves(s, t, i);
      case Advance => AdvanceConserves(s);
      case _ => ConsumerConserves(s, t);
    }
  }

  lemma ReservedIs(ps: seq<Producer>, i: nat)
    requires i < |ps|
    ensures |ReservedPtrs(ps)| == |ps| && ReservedPtrs(ps)[i] == ReservedPtr(ps[i])
  {
  }

  /** The publishing store always hits a NULL slot, however stale the fullness test was. */
  lemma PublishesOverNull(s: State, i: nat)
    requires Inv(s) && Enabled(s, Publish(i))
    ensures s.producers[i].ptr != 0 && s.slots[s.producers[i].index % SIZE] == 0
  {
    assert ProducerOk(s, i);
  }

  lemma InitConserved(n: nat)
    ensures Conserved(Init(n))
  {
    assert forall p :: p in Init(n).slots ==> p == 0;
    assert forall p :: p in ReservedPtrs(Init(n).producers) ==> p == 0;
    assert Bag(Init(n).slots) == multiset{};
    assert Bag(ReservedPtrs(Init(n).producers)) == multiset{};
  }

  lemma {:induction false} RunConserves(patience: nat, s: State, steps: seq<Step>, t: State)
    requires Inv(s) && Conserved(s) && patience <= WORD && Run(patience, s, steps, t)
    ensures Conserved(t)
    decreases |steps|
  {
    hide Inv, Conserved, Enabled, Do, Timely;
    if steps != [] {
      StepKeepsInv(s, steps[0], patience);
      StepConserves(s, steps[0], patience);
      RunConserves(patience, Do(s, steps[0]), steps[1..], t);
    }
  }

  /** In every reachable state nothing is lost and nothing delivered twice. */
  lemma NothingIsLost(patience: nat, n: nat, s: State)
    requires patience <= WORD && Reachable(patience, n, s)
    ensures Conserved(s) && s.popped <= s.pushed
  {
    hide Inv, Conserved, Run;
    var steps :| Run(patience, Init(n), steps, s);
    InitInv(n);
    InitConserved(n);
    RunConserves(patience, Init(n), steps, s);
    ReachableIsSafe(patience, n, s);
  }

  /** When `sys_mpsc_pop` finds NULL behind a non-empty queue, the producer of that very entry has
      reserved it and not stored yet. */
  lemma PopMissIsInFlight(s: State) returns (i: nat)
    requires Inv(s) && s.consumer.Taking? && s.slots[s.consumer.tail % SIZE] == 0
    ensures ReservedAt(s, i, s.tail)
  {
    SlotOfWord(s.tail);
    assert s.slots[s.tail % SIZE] == 0 && !HeldAt(s, s.tail);
    i :| ReservedAt(s, i, s.tail);
  }

  //
  // Sleep and wake.
  //

  /** A producer that has reserved an entry and has its flag check or its post ahead of it. */
  predicate WillPost(p: Producer) {
    p.Reserved? || p == Stored || p == Posting
  }

  ghost predicate WakeInv(s: State) {
    && (s.sleeping <==> s.consumer == Flagged || s.consumer.SleepHasTail? || s.consumer == Aborting
                        || s.consumer == Waiting || s.consumer == Woken)
    && (s.consumer == Waiting && s.head != s.tail ==>
          s.sem > 0 || exists i :: 0 <= i < |s.producers| && WillPost(s.producers[i]))
  }

  lemma StepKeepsWakeInv(s: State, step: Step)
    requires Inv(s) && WakeInv(s) && Enabled(s, step)
    ensures WakeInv(Do(s, step))
  {
    hide Slots, Accounted, Producers;
    var t := Do(s, step);
    if step.SleepHead? && t.consumer == Waiting {
      SameWord(s.head, s.tail);
    }
    if t.consumer == Waiting && t.head != t.tail && t.sem == 0 && !step.SleepHead? {
      if step.Reserve? {
        assert WillPost(t.producers[step.i]);
      } else {
        var i :| 0 <= i < |s.producers| && WillPost(s.producers[i]);
        assert WillPost(t.producers[i]);
      }
    }
  }

  lemma {:induction false} RunKeepsWakeInv(patience: nat, s: State, steps: seq<Step>, t: State)
    requires Inv(s) && WakeInv(s) && patience <= WORD && Run(patience, s, steps, t)
    ensures WakeInv(t)
    decreases |steps|
  {
    hide Inv, WakeInv, Enabled, Do, Timely;
    if steps != [] {
      StepKeepsInv(s, steps[0], patience);
      StepKeepsWakeInv(s, steps[0]);
      RunKeepsWakeInv(patience, Do(s, steps[0]), steps[1..], t);
    }
  }

  /** No lost wakeup: in every reachable state in which the consumer waits and the queue is not empty,
      the semaphore is positive or a producer is on its way to the flag check; and then at most three
      steps of that producer alone make the semaphore positive. */
  lemma NoLostWakeup(patience: nat, n: nat, s: State) returns (steps: seq<Step>, t: State)
    requires patience <= WORD && Reachable(patience, n, s) && s.consumer == Waiting && s.head != s.tail
    ensures s.sem > 0 || exists i :: 0 <= i < |s.producers| && WillPost(s.producers[i])
    ensures |steps| <= 3 && Run(patience, s, steps, t) && Enabled(t, Wake)
  {
    hide Inv, Run;
    var before :| Run(patience, Init(n), before, s);
    InitInv(n);
    RunKeepsWakeInv(patience, Init(n), before, s);
    ReachableIsSafe(patience, n, s);
    if s.sem > 0 {
      NoSteps(patience, s);
      steps, t := [], s;
    } else {
      var i :| 0 <= i < |s.producers| && WillPost(s.producers[i]);
      steps, t := PostOf(patience, s, i);
    }
  }

  /** A producer past its reservation posts, when the consumer sleeps. */
  lemma PostOf(patience: nat, s: State, i: nat) returns (steps: seq<Step>, t: State)
    requires s.sleeping && s.consumer == Waiting && |s.slots| == SIZE
    requires i < |s.producers| && WillPost(s.producers[i])
    ensures |steps| <= (if s.producers[i].Reserved? then 3 else 2) && Run(patience, s, steps, t) && Enabled(t, Wake)
    ensures s.producers[i] == Posting ==> |steps| == 1
    decreases if s.producers[i].Reserved? then 2 else if s.producers[i] == Stored then 1 else 0
  {
    hide Run;
    if s.producers[i] == Posting {
      OneStep(patience, s, Post(i));
      steps, t := [Post(i)], Do(s, Post(i));
    } else {
      var step := if s.producers[i] == Stored then CheckFlag(i) else Publish(i);
      var u := Do(s, step);
      OneStep(patience, s, step);
      var rest;
      rest, t := PostOf(patience, u, i);
      RunAppend(patience, s, [step], u, rest, t);
      steps := [step] + rest;
    }
  }

  //
  // The drain at join.
  //

  /** The pointers `sys_thread_join` frees, from the 32-bit words it loaded. */
  function Drained(slots: seq<Ptr>, tail: u32, head: u32): seq<Ptr>
    requires |slots| == SIZE
    decreases head - tail
  {
    if tail < head then
      (if slots[tail % SIZE] != 0 then [slots[tail % SIZE]] else []) + Drained(slots[tail % SIZE := 0], tail + 1, head)
    else []
  }

  /** The slots after the drain. */
  function Cleared(slots: seq<Ptr>, tail: u32, head: u32): (r: seq<Ptr>)
    requires |slots| == SIZE
    ensures |r| == SIZE
    decreases head - tail
  {
    if tail < head then Cleared(slots[tail % SIZE := 0], tail + 1, head) else slots
  }

  /** The drain loop. */
  method Drain(buffer: array<Ptr>, head: u32, tail: u32) returns (freed: seq<Ptr>)
    requires buffer.Length == SIZE
    modifies buffer
    ensures freed == Drained(old(buffer[..]), tail, head)
    ensures buffer[..] == Cleared(old(buffer[..]), tail, head)
  {
    freed := [];
    var t: u32 := tail;
    while t < head
      invariant freed + Drained(buffer[..], t, head) == Drained(old(buffer[..]), tail, head)
      invariant Cleared(buffer[..], t, head) == Cleared(old(buffer[..]), tail, head)
    {
      var ptr := buffer[t % SIZE];
      ghost var slots := buffer[..];
      buffer[t % SIZE] := 0;
      assert buffer[..] == slots[t % SIZE := 0];
      ghost var rest := Drained(buffer[..], t + 1, head);
      if ptr != 0 {
        assert freed + ([ptr] + rest) == (freed + [ptr]) + rest;
        freed := freed + [ptr];
      } else {
        assert [] + rest == rest;
      }
      t := t + 1;
    }
  }

  /** The worker has returned and no producer is inside `sys_mpsc_push`. */
  ghost predicate Quiescent(s: State) {
    s.consumer == Finished && forall i :: 0 <= i < |s.producers| ==> s.producers[i] == Idle
  }

  /** The unread window holds exactly the messages pushed and not popped. */
  lemma {:induction false} DrainedIs(slots: seq<Ptr>, pushed: seq<Ptr>, k: nat, head: nat, tailWord: u32)
    requires |slots| == SIZE && k <= head == |pushed| && head <= k + SIZE
    requires k % SIZE == tailWord % SIZE && tailWord + (head - k) < WORD
    requires forall j :: k <= j < head ==> pushed[j] != 0 && slots[j % SIZE] == pushed[j]
    ensures Drained(slots, tailWord, tailWord + (head - k)) == pushed[k..head]
    decreases head - k
  {
    if k < head {
      var rest := slots[k % SIZE := 0];
      forall j | k < j < head ensures rest[j % SIZE] == pushed[j] {
        if j % SIZE == k % SIZE {
          SameSlot(j, k);
        }
      }
      NextSlot(k, tailWord);
      DrainedIs(rest, pushed, k + 1, head, tailWord + 1);
      assert pushed[k..head] == [pushed[k]] + pushed[k + 1..head];
    }
  }

  lemma NextSlot(a: nat, b: nat)
    requires a % SIZE == b % SIZE
    ensures (a + 1) % SIZE == (b + 1) % SIZE
  {
  }

  /** Once the window is drained, no slot holds a pointer. */
  lemma {:induction false} ClearedIs(slots: seq<Ptr>, k: nat, head: nat, tailWord: u32)
    requires |slots| == SIZE && k <= head <= k + SIZE
    requires k % SIZE == tailWord % SIZE && tailWord + (head - k) < WORD
    requires forall j :: head <= j < k + SIZE ==> slots[j % SIZE] == 0
    ensures Cleared(slots, tailWord, tailWord + (head - k)) == EMPTY
    decreases head - k
  {
    if k < head {
      var rest := slots[k % SIZE := 0];
      forall j | head <= j < k + 1 + SIZE ensures rest[j % SIZE] == 0 {
        if j == k + SIZE {
          assert j % SIZE == k % SIZE;
        }
      }
      NextSlot(k, tailWord);
      ClearedIs(rest, k + 1, head, tailWord + 1);
    } else {
      forall j | 0 <= j < SIZE ensures slots[j] == 0 {
        IndexOfSlot(head, j);
      }
      assert slots == EMPTY;
    }
  }

  /** Each slot is that of one of any 256 consecutive indices. */
  lemma IndexOfSlot(from: nat, j: nat)
    requires j < SIZE
    ensures exists k :: from <= k < from + SIZE && k % SIZE == j
  {
    var k := from + (j - from) % SIZE;
    assert k % SIZE == j;
  }

  /** The drain compares 32-bit words with `<`. It releases every leftover exactly once, in push order,
      and leaves every slot NULL, if and only if the window does not straddle a multiple of 2^32;
      otherwise it releases none. */
  lemma DrainReleasesAllIff(s: State)
    requires Inv(s) && Quiescent(s)
    ensures s.tail % WORD <= s.head % WORD ==>
      && s.popped + Drained(s.slots, s.tail % WORD, s.head % WORD) == s.pushed
      && Cleared(s.slots, s.tail % WORD, s.head % WORD) == EMPTY
    ensures s.tail % WORD > s.head % WORD ==>
      s.tail < s.head && Drained(s.slots, s.tail % WORD, s.head % WORD) == []
  {
    hide Drained, Cleared;
    forall j | s.tail <= j < s.head ensures s.pushed[j] != 0 && s.slots[j % SIZE] == s.pushed[j] {
      assert !HeldAt(s, j) && forall i: nat :: !ReservedAt(s, i, j);
    }
    if s.tail % WORD <= s.head % WORD {
      NoStraddle(s.tail, s.head);
      SlotOfWord(s.tail);
      DrainedIs(s.slots, s.pushed, s.tail, s.head, s.tail % WORD);
      assert s.pushed == s.pushed[..s.tail] + s.pushed[s.tail..s.head];
      assert s.tail % WORD + (s.head - s.tail) == s.head % WORD;
      ClearedIs(s.slots, s.tail, s.head, s.tail % WORD);
    } else {
      NothingDrained(s.slots, s.tail % WORD, s.head % WORD);
    }
  }

  lemma NothingDrained(slots: seq<Ptr>, tail: u32, head: u32)
    requires |slots| == SIZE && tail >= head
    ensures Drained(slots, tail, head) == []
  {
  }

  lemma NoStraddle(tail: nat, head: nat)
    requires tail <= head <= tail + SIZE && tail % WORD <= head % WORD
    ensures head % WORD - tail % WORD == head - tail
  {
  }

  /** The window does straddle in some run: two producers, one message short of 2^32 taken, one more left
      unread when the worker returns. The drain then does not free it. */
  lemma LeakHappens(patience: nat) returns (s: State)
    requires patience > SIZE
    ensures Reachable(patience, 2, s) && Quiescent(s) && |s.slots| == SIZE
    ensures s.tail % WORD > s.head % WORD && |s.popped| + 1 == |s.pushed|
    ensures Drained(s.slots, s.tail % WORD, s.head % WORD) == []
  {
    hide Run, Drained;
    var n := WORD - 1;
    var start, passed := Stalled(0, 0, EMPTY), Stalled(n, n, EMPTY);
    var begin := StallBegins(patience);
    var pass := PassMany(patience, n);
    RunAppend(patience, Init(2), begin, start, pass, passed);
    var end;
    end, s := StallEnds(patience, n);
    RunAppend(patience, Init(2), begin + pass, passed, end, s);
    assert n % WORD == n && (n + 1) % WORD == 0;
    NothingDrained(s.slots, n, 0);
  }

  /** Producer 0 starts its loop again and pushes, then the worker returns. */
  lemma StallEnds(patience: nat, n: nat) returns (steps: seq<Step>, s: State)
    requires patience > SIZE
    ensures Run(patience, Stalled(n, n, EMPTY), steps, s) && Quiescent(s) && |s.slots| == SIZE
    ensures s.tail == n && s.head == n + 1 && |s.popped| == n && |s.pushed| == n + 1
  {
    hide Run;
    var s0 := Stalled(n, n, EMPTY);
    var s1 := Do(s0, Retry(0));
    OneStep(patience, s0, Retry(0));
    var s2 := Do(s1, LoadTail(0));
    OneStep(patience, s1, LoadTail(0));
    SmallDifference(n, n);
    var s3 := Do(s2, Reserve(0));
    OneStep(patience, s2, Reserve(0));
    var s4 := Do(s3, Publish(0));
    OneStep(patience, s3, Publish(0));
    var s5 := Do(s4, CheckFlag(0));
    OneStep(patience, s4, CheckFlag(0));
    s := Do(s5, Finish);
    OneStep(patience, s5, Finish);
    RunAppend(patience, s0, [Retry(0)], s1, [LoadTail(0)], s2);
    RunAppend(patience, s0, [Retry(0)] + [LoadTail(0)], s2, [Reserve(0)], s3);
    RunAppend(patience, s0, [Retry(0)] + [LoadTail(0)] + [Reserve(0)], s3, [Publish(0)], s4);
    RunAppend(patience, s0, [Retry(0)] + [LoadTail(0)] + [Reserve(0)] + [Publish(0)], s4, [CheckFlag(0)], s5);
    steps := [Retry(0)] + [LoadTail(0)] + [Reserve(0)] + [Publish(0)] + [CheckFlag(0)];
    RunAppend(patience, s0, steps, s5, [Finish], s);
    steps := steps + [Finish];
  }
}
