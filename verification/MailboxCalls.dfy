/** What each call of the mailbox does from beginning to end when no other thread takes a step meanwhile:
    the sequential meaning of the atomic steps, from any state the invariant allows. */
module MailboxCalls {
  import opened Words
  import opened Mailbox

  /** The local copies are up to date, so the test for a full ring is exact. */
  lemma FreshTest(s: State)
    requires Inv(s)
    ensures LooksFull(s.head % WORD, s.tail) <==> s.head - s.tail == 256
  {
    hide Slots, Accounted, Producers, ConsumerOk;
    SmallDifference(s.head, s.tail);
  }

  /** With both copies loaded a producer gives up exactly when the words say the ring is full, and otherwise
      tries the compare-and-swap, which can succeed exactly when `head` still has the word it loaded. */
  lemma LoopChoices(s: State, i: nat)
    requires i < |s.producers| && s.producers[i].HasTail?
    ensures var p := s.producers[i]; var distance := (p.head - p.tail) % 0x1_0000_0000;
      && (Enabled(s, Full(i)) <==> distance >= 256)
      && (Enabled(s, Retry(i)) <==> distance < 256)
      && (Enabled(s, Reserve(i)) <==> distance < 256 && p.head == s.head % 0x1_0000_0000)
  {
  }

  lemma TwoSteps(patience: nat, s: State, a: seq<Step>, t: State, step: Step)
    requires Run(patience, s, a, t) && Enabled(t, step) && Timely(patience, t, step)
    ensures Run(patience, s, a + [step], Do(t, step))
  {
    hide Run, Enabled, Timely, Do;
    OneStep(patience, t, step);
    RunAppend(patience, s, a, t, [step], Do(t, step));
  }

  /** `sys_mpsc_push` past its loop: the pointer is stored, and the semaphore posted if the worker sleeps. */
  function Pushed(s: State, i: nat, ptr: Ptr): State
    requires i < |s.producers| && |s.slots| == SIZE
  {
    s.(head := s.head + 1, pushed := s.pushed + [ptr], slots := s.slots[s.head % 256 := ptr],
       producers := s.producers[i := Idle], sem := if s.sleeping then s.sem + 1 else s.sem)
  }

  /** From the top of the loop, with a fresh copy of `head`. */
  lemma PushFrom(patience: nat, s: State, i: nat, ptr: Ptr) returns (steps: seq<Step>, t: State)
    requires Inv(s) && patience > SIZE && i < |s.producers| && s.producers[i] == HasHead(ptr, s.head % WORD)
    ensures |s.slots| == SIZE && Run(patience, s, steps, t)
    ensures t == if s.head - s.tail < 256 then Pushed(s, i, ptr) else Moved(s, i, Idle)
  {
    hide Run, LooksFull, Inv;
    Lengths(s);
    FreshTest(s);
    OneStep(patience, s, LoadTail(i));
    steps, t := [LoadTail(i)], Do(s, LoadTail(i));
    if s.head - s.tail < 256 {
      TwoSteps(patience, s, steps, t, Reserve(i));
      steps, t := steps + [Reserve(i)], Do(t, Reserve(i));
      TwoSteps(patience, s, steps, t, Publish(i));
      steps, t := steps + [Publish(i)], Do(t, Publish(i));
      TwoSteps(patience, s, steps, t, CheckFlag(i));
      steps, t := steps + [CheckFlag(i)], Do(t, CheckFlag(i));
      if s.sleeping {
        TwoSteps(patience, s, steps, t, Post(i));
        steps, t := steps + [Post(i)], Do(t, Post(i));
      }
      assert t.producers == s.producers[i := Idle];
    } else {
      TwoSteps(patience, s, steps, t, Full(i));
      steps, t := steps + [Full(i)], Do(t, Full(i));
      assert t.producers == s.producers[i := Idle];
    }
  }

  lemma Lengths(s: State)
    requires Inv(s)
    ensures |s.slots| == SIZE && s.tail <= s.head <= s.tail + SIZE && |s.pushed| == s.head
  {
  }

  /** `sys_mpsc_push` alone: with fewer than 256 entries it appends the pointer to the queue, otherwise it
      returns -1 and changes nothing. */
  lemma PushAlone(patience: nat, s: State, i: nat, ptr: Ptr) returns (steps: seq<Step>, t: State)
    requires Inv(s) && patience > SIZE && i < |s.producers| && s.producers[i] == Idle && ptr != 0
    ensures |s.slots| == SIZE && Run(patience, s, steps, t)
    ensures t == if s.head - s.tail < 256 then Pushed(s, i, ptr) else s
  {
    hide Run, Inv;
    Lengths(s);
    var u := Do(s, Push(i, ptr));
    OneStep(patience, s, Push(i, ptr));
    assert Inv(u) by { InvProducer(s, u, i); }
    var rest;
    rest, t := PushFrom(patience, u, i, ptr);
    RunAppend(patience, s, [Push(i, ptr)], u, rest, t);
    steps := [Push(i, ptr)] + rest;
    assert u.producers[i := Idle] == s.producers[i := Idle] == s.producers;
  }

  /** A failed compare-and-swap leaves a fresh copy of `head`, however stale the old copies were: alone, the
      next turn of the loop completes the push. */
  lemma RetryAlone(patience: nat, s: State, i: nat) returns (steps: seq<Step>, t: State)
    requires Inv(s) && patience > SIZE && Enabled(s, Retry(i))
    ensures |s.slots| == SIZE && Run(patience, s, steps, t)
    ensures t == if s.head - s.tail < 256 then Pushed(s, i, s.producers[i].ptr) else Moved(s, i, Idle)
  {
    hide Run, Inv;
    Lengths(s);
    PtrOk(s, i);
    var ptr := s.producers[i].ptr;
    var u := Do(s, Retry(i));
    OneStep(patience, s, Retry(i));
    assert Inv(u) by { InvProducer(s, u, i); }
    var rest;
    rest, t := PushFrom(patience, u, i, ptr);
    RunAppend(patience, s, [Retry(i)], u, rest, t);
    steps := [Retry(i)] + rest;
    assert u.producers[i := Idle] == s.producers[i := Idle];
  }

  /** `sys_mpsc_pop` alone: it returns the oldest message and NULLs its slot, or returns 0 and changes
      nothing when the queue is empty or the oldest entry is reserved and not stored yet. */
  lemma PopAlone(patience: nat, s: State) returns (steps: seq<Step>, t: State)
    requires Inv(s) && s.consumer == Running
    ensures |s.slots| == SIZE && |s.pushed| == s.head && Run(patience, s, steps, t)
    ensures t == if s.tail < s.head && s.slots[s.tail % 256] != 0
                 then s.(tail := s.tail + 1, popped := s.popped + [s.pushed[s.tail]],
                         slots := s.slots[s.tail % 256 := 0])
                 else s
  {
    hide Run, Inv;
    Lengths(s);
    SlotOfWord(s.tail);
    OneStep(patience, s, Pop);
    steps, t := [Pop], Do(s, Pop);
    TwoSteps(patience, s, steps, t, PopHead);
    steps, t := steps + [PopHead], Do(t, PopHead);
    if s.tail == s.head {
    } else {
      EmptyTest(s);
      TwoSteps(patience, s, steps, t, Exchange);
      steps, t := steps + [Exchange], Do(t, Exchange);
      if s.slots[s.tail % 256] != 0 {
        OldestSlot(s);
        TwoSteps(patience, s, steps, t, Advance);
        steps, t := steps + [Advance], Do(t, Advance);
      } else {
        assert s.slots[s.tail % 256 := 0] == s.slots;
      }
    }
  }

  lemma EmptyTest(s: State)
    requires Inv(s)
    ensures s.tail % WORD == s.head % WORD <==> s.tail == s.head
  {
    hide Slots, Accounted, Producers, ConsumerOk;
    if s.tail % WORD == s.head % WORD {
      SameWord(s.head, s.tail);
    }
  }

  lemma OldestSlot(s: State)
    requires Inv(s) && |s.slots| == SIZE && s.slots[s.tail % SIZE] != 0
    ensures s.tail < |s.pushed| && s.slots[s.tail % SIZE] == s.pushed[s.tail]
  {
    hide Accounted, Producers, ConsumerOk;
  }

  /** The double check of `sys_worker_sleep`, on 32-bit words and whatever happened since the flag was set:
      the worker goes on to wait exactly when the queue is empty. */
  lemma WaitsIffEmpty(s: State)
    requires Inv(s) && s.consumer.SleepHasTail?
    ensures var t := Do(s, SleepHead);
      && t == s.(consumer := t.consumer)
      && (s.head == s.tail ==> t.consumer == Waiting)
      && (s.head != s.tail ==> t.consumer == Aborting && Do(t, Abort) == s.(sleeping := false, consumer := Running))
  {
    hide Slots, Accounted, Producers;
    EmptyTest(s);
  }

  /** `sys_worker_sleep` alone: on an empty queue the worker ends up waiting with its flag set, otherwise
      it is running again with its flag clear. */
  lemma SleepAlone(patience: nat, s: State) returns (steps: seq<Step>, t: State)
    requires Inv(s) && s.consumer == Running
    ensures Run(patience, s, steps, t)
    ensures t == if s.head == s.tail then s.(sleeping := true, consumer := Waiting) else s.(sleeping := false)
  {
    hide Run, Inv;
    EmptyTest(s);
    OneStep(patience, s, Sleep);
    steps, t := [Sleep], Do(s, Sleep);
    TwoSteps(patience, s, steps, t, SleepTail);
    steps, t := steps + [SleepTail], Do(t, SleepTail);
    TwoSteps(patience, s, steps, t, SleepHead);
    steps, t := steps + [SleepHead], Do(t, SleepHead);
    if s.head != s.tail {
      TwoSteps(patience, s, steps, t, Abort);
      steps, t := steps + [Abort], Do(t, Abort);
    }
  }

  /** A posted worker takes the post, clears its flag and returns. */
  lemma WakeAlone(patience: nat, s: State)
    requires s.consumer == Waiting
    ensures Enabled(s, Wake) <==> s.sem > 0
    ensures s.sem > 0 ==>
      Run(patience, s, [Wake] + [Unflag], s.(sem := s.sem - 1, sleeping := false, consumer := Running))
  {
    hide Run;
    if s.sem > 0 {
      OneStep(patience, s, Wake);
      TwoSteps(patience, s, [Wake], Do(s, Wake), Unflag);
    }
  }

  /** The number of posts among the steps, or of wakes. */
  function Count(steps: seq<Step>, posts: bool): nat {
    if steps == [] then 0
    else (if (if posts then steps[0].Post? else steps[0].Wake?) then 1 else 0) + Count(steps[1..], posts)
  }

  /** The semaphore counts: a worker wakes only from a post, and every post wakes it once or is still there. */
  lemma {:induction false} SemaphoreCounts(patience: nat, s: State, steps: seq<Step>, t: State)
    requires Run(patience, s, steps, t)
    ensures t.sem + Count(steps, false) == s.sem + Count(steps, true)
    decreases |steps|
  {
    hide LooksFull;
    if steps != [] {
      SemaphoreCounts(patience, Do(s, steps[0]), steps[1..], t);
    }
  }

  /** From the start, wakes never outnumber posts. */
  lemma WakesFollowPosts(patience: nat, n: nat, steps: seq<Step>, t: State)
    requires Run(patience, Init(n), steps, t)
    ensures t.sem + Count(steps, false) == Count(steps, true)
  {
    hide Run, Count;
    SemaphoreCounts(patience, Init(n), steps, t);
  }

  /** The whole round: a worker sleeps on an empty mailbox, one push wakes it, and its next pop returns the
      pushed pointer. */
  lemma SleepPushWakePop(patience: nat, s: State, i: nat, ptr: Ptr) returns (steps: seq<Step>, t: State)
    requires Inv(s) && WORD >= patience > SIZE && s.consumer == Running && s.head == s.tail
    requires i < |s.producers| && s.producers[i] == Idle && ptr != 0
    ensures Run(patience, s, steps, t)
    ensures t.consumer == Running && t.popped == s.popped + [ptr] && t.pushed == s.pushed + [ptr]
    ensures t.head == t.tail == s.head + 1 && !t.sleeping && t.sem == s.sem && t.slots == s.slots
  {
    hide Run, Inv;
    Lengths(s);
    var a, asleep := SleepAlone(patience, s);
    RunKeepsInv(patience, s, a, asleep);
    var b, posted := PushAlone(patience, asleep, i, ptr);
    RunKeepsInv(patience, asleep, b, posted);
    WakeAlone(patience, posted);
    var awake := posted.(sem := posted.sem - 1, sleeping := false, consumer := Running);
    var c := [Wake] + [Unflag];
    RunKeepsInv(patience, posted, c, awake);
    var d;
    d, t := PopAlone(patience, awake);
    RunAppend(patience, s, a, asleep, b, posted);
    RunAppend(patience, s, a + b, posted, c, awake);
    RunAppend(patience, s, a + b + c, awake, d, t);
    steps := a + b + c + d;
    EmptySlot(s);
    assert t.slots == s.slots;
    assert t.popped == s.popped + [ptr];
  }

  lemma EmptySlot(s: State)
    requires Inv(s) && s.head == s.tail
    ensures |s.slots| == SIZE && s.slots[s.tail % SIZE] == 0
  {
    hide Accounted, Producers, ConsumerOk;
  }
}
