/** Publication of descriptors in the available ring of a VirtIO queue (section 2.7.6 of VirtIO 1.2).
    The driver sees the ring as 32-bit words, two 16-bit entries to a word; word 0 packs the flags and
    the index. */
module VirtioRing {
  import opened Words

  const ENTRIES := 256
  const HALF := 0x1_0000

  /** The descriptor table (four words a descriptor) and the available ring (129 words). */
  datatype Memory = Memory(desc: seq<u32>, avail: seq<u32>)

  predicate WellSized(m: Memory) {
    |m.desc| == 4 * ENTRIES && |m.avail| == 1 + ENTRIES / 2
  }

  datatype Store = Desc(i: nat, v: u32) | Avail(i: nat, v: u32)

  predicate InBounds(s: Store) {
    s.i < if s.Desc? then 4 * ENTRIES else 1 + ENTRIES / 2
  }

  function Apply(m: Memory, s: Store): (r: Memory)
    requires WellSized(m) && InBounds(s)
    ensures WellSized(r)
  {
    if s.Desc? then m.(desc := m.desc[s.i := s.v]) else m.(avail := m.avail[s.i := s.v])
  }

  predicate AllInBounds(ss: seq<Store>) {
    forall s :: s in ss ==> InBounds(s)
  }

  function ApplyAll(m: Memory, ss: seq<Store>): (r: Memory)
    requires WellSized(m) && AllInBounds(ss)
    ensures WellSized(r)
    decreases |ss|
  {
    if ss == [] then m else ApplyAll(Apply(m, ss[0]), ss[1..])
  }

  //
  // What the device sees.
  //

  datatype Descriptor = Descriptor(low: u32, high: u32, length: u32, flags: u32)

  /** The two halves of a word. */
  function Low(w: u32): u16 { w % HALF }
  function High(w: u32): u16 { w / HALF }

  function Index(m: Memory): u16
    requires WellSized(m)
  {
    High(m.avail[0])
  }

  function Entry(m: Memory, j: nat): u16
    requires WellSized(m) && j < ENTRIES
  {
    if j % 2 == 0 then Low(m.avail[1 + j / 2]) else High(m.avail[1 + j / 2])
  }

  function DescriptorAt(m: Memory, j: nat): Descriptor
    requires WellSized(m) && j < ENTRIES
  {
    Descriptor(m.desc[4 * j], m.desc[4 * j + 1], m.desc[4 * j + 2], m.desc[4 * j + 3])
  }

  /** The same queue without packing: a 16-bit index and 256 16-bit entries. */
  datatype Plain = Plain(index: u16, ring: seq<u16>, table: seq<Descriptor>)

  function View(m: Memory): Plain
    requires WellSized(m)
  {
    Plain(Index(m), seq(ENTRIES, j requires 0 <= j < ENTRIES => Entry(m, j)),
          seq(ENTRIES, j requires 0 <= j < ENTRIES => DescriptorAt(m, j)))
  }

  function PlainPush(q: Plain, d: Descriptor): Plain
    requires |q.ring| == |q.table| == ENTRIES
  {
    var j := q.index % ENTRIES;
    Plain((q.index + 1) % HALF, q.ring[j := j], q.table[j := d])
  }

  /** A transmit request: buffer address and length. */
  datatype Request = Request(address: u32, length: u32)

  function DescriptorOf(r: Request): Descriptor {
    Descriptor(r.address, 0, r.length, 0)
  }

  //
  // ext_push_tx_ring
  //

  /** The word of the available ring with half `j` replaced by `j` itself. */
  function Packed(word: u32, j: nat): u32
    requires j < ENTRIES
  {
    if j % 2 == 1 then Or(j * HALF, word % HALF, HALF) else Or(word / HALF * HALF, j, HALF)
  }

  /** The six stores of a push, in program order. */
  function PushStores(m: Memory, r: Request): (ss: seq<Store>)
    requires WellSized(m)
    ensures |ss| == 6 && AllInBounds(ss)
  {
    var index: int := Index(m);
    var j := index % ENTRIES;
    [Desc(4 * j, r.address), Desc(4 * j + 1, 0), Desc(4 * j + 2, r.length), Desc(4 * j + 3, 0),
     Avail(1 + j / 2, Packed(m.avail[1 + j / 2], j)),
     Avail(0, Or((index + 1) % HALF * HALF, 1, HALF))]
  }

  method PushTxRing(desc: array<u32>, avail: array<u32>, txBuf: u32, length: u32)
    requires desc.Length == 4 * ENTRIES && avail.Length == 1 + ENTRIES / 2 && desc != avail
    modifies desc, avail
    ensures Memory(desc[..], avail[..])
         == ApplyAll(Memory(old(desc[..]), old(avail[..])),
                     PushStores(Memory(old(desc[..]), old(avail[..])), Request(txBuf, length)))
  {
    ghost var m := Memory(desc[..], avail[..]);
    hide ApplyAll, PushStores, Packed;
    var flagsIdx: int := avail[0];
    var availIdx := flagsIdx / HALF;
    var ringIndex := availIdx % 256;
    var descBase := ringIndex * 4;
    desc[descBase + 0] := txBuf;
    desc[descBase + 1] := 0;
    desc[descBase + 2] := length;
    desc[descBase + 3] := 0;
    var wordIndex := ringIndex / 2;
    var currentWord := Packed(avail[wordIndex + 1], ringIndex);
    avail[wordIndex + 1] := currentWord;
    availIdx := (availIdx + 1) % HALF;
    avail[0] := Or(availIdx * HALF, 1, HALF);
    StoresOfPush(m, Request(txBuf, length));
    assert desc[..] == m.desc[descBase := txBuf][descBase + 1 := 0][descBase + 2 := length][descBase + 3 := 0];
    assert avail[..] == m.avail[wordIndex + 1 := currentWord][0 := Or(availIdx * HALF, 1, HALF)];
  }

  lemma StoresOfPush(m: Memory, r: Request)
    requires WellSized(m)
    ensures var index := Index(m) as int; var j := index % ENTRIES; var w := j / 2 + 1;
      ApplyAll(m, PushStores(m, r))
      == Memory(m.desc[j * 4 := r.address][j * 4 + 1 := 0][j * 4 + 2 := r.length][j * 4 + 3 := 0],
                m.avail[w := Packed(m.avail[w], j)][0 := Or((index + 1) % HALF * HALF, 1, HALF)])
  {
    hide Packed;
    ApplySix(m, PushStores(m, r));
  }

  lemma ApplySix(m: Memory, ss: seq<Store>)
    requires WellSized(m) && |ss| == 6 && AllInBounds(ss)
    ensures ApplyAll(m, ss)
         == Apply(Apply(Apply(Apply(Apply(Apply(m, ss[0]), ss[1]), ss[2]), ss[3]), ss[4]), ss[5])
  {
    hide Apply, InBounds;
    UnfoldOne(m, ss);
    var m1 := Apply(m, ss[0]);
    UnfoldOne(m1, ss[1..]);
    var m2 := Apply(m1, ss[1]);
    assert ss[1..][1..] == ss[2..];
    UnfoldOne(m2, ss[2..]);
    var m3 := Apply(m2, ss[2]);
    assert ss[2..][1..] == ss[3..];
    UnfoldOne(m3, ss[3..]);
    var m4 := Apply(m3, ss[3]);
    assert ss[3..][1..] == ss[4..];
    UnfoldOne(m4, ss[4..]);
    var m5 := Apply(m4, ss[4]);
    assert ss[4..][1..] == ss[5..];
    UnfoldOne(m5, ss[5..]);
    assert ss[5..][1..] == [];
  }

  lemma UnfoldOne(m: Memory, ss: seq<Store>)
    requires WellSized(m) && AllInBounds(ss) && ss != []
    ensures InBounds(ss[0]) && AllInBounds(ss[1..]) && ApplyAll(m, ss) == ApplyAll(Apply(m, ss[0]), ss[1..])
  {
  }

  //
  // Refinement and publication order.
  //

  /** Memory after the first `k` stores of a push. */
  function After(m: Memory, r: Request, k: nat): (t: Memory)
    requires WellSized(m) && k <= 6
    ensures WellSized(t)
    decreases k
  {
    if k == 0 then m else Apply(After(m, r, k - 1), PushStores(m, r)[k - 1])
  }

  lemma AfterAll(m: Memory, r: Request)
    requires WellSized(m)
    ensures After(m, r, 6) == ApplyAll(m, PushStores(m, r))
  {
    hide Apply, PushStores;
    ApplySix(m, PushStores(m, r));
    assert After(m, r, 1) == Apply(After(m, r, 0), PushStores(m, r)[0]);
    assert After(m, r, 2) == Apply(After(m, r, 1), PushStores(m, r)[1]);
    assert After(m, r, 3) == Apply(After(m, r, 2), PushStores(m, r)[2]);
    assert After(m, r, 4) == Apply(After(m, r, 3), PushStores(m, r)[3]);
    assert After(m, r, 5) == Apply(After(m, r, 4), PushStores(m, r)[4]);
  }

  /** The word with half `j` replaced keeps its other half. */
  lemma PackedHalves(word: u32, j: nat)
    requires j < ENTRIES
    ensures j % 2 == 1 ==> High(Packed(word, j)) == j && Low(Packed(word, j)) == Low(word)
    ensures j % 2 == 0 ==> Low(Packed(word, j)) == j && High(Packed(word, j)) == High(word)
  {
  }

  /** The index and every entry and descriptor after `k` stores. */
  lemma AfterIs(m: Memory, r: Request, k: nat, e: nat)
    requires WellSized(m) && k <= 6 && e < ENTRIES
    ensures var t := After(m, r, k); var j := Index(m) % ENTRIES;
      && Index(t) == (if k < 6 then Index(m) else (Index(m) + 1) % HALF)
      && Entry(t, e) == (if e == j && k >= 5 then j else Entry(m, e))
      && (e != j || k == 0 ==> DescriptorAt(t, e) == DescriptorAt(m, e))
      && (e == j && k >= 4 ==> DescriptorAt(t, e) == DescriptorOf(r))
    decreases k
  {
    hide Packed, Or;
    var j := Index(m) % ENTRIES;
    if k > 0 {
      AfterIs(m, r, k - 1, e);
      if k <= 4 {
        DescStore(m, r, k, e);
      } else if k == 5 {
        RingStore(m, r, e);
      } else {
        IndexStore(m, r, e);
      }
    }
  }

  lemma DescStore(m: Memory, r: Request, k: nat, e: nat)
    requires WellSized(m) && 1 <= k <= 4 && e < ENTRIES
    ensures var s := After(m, r, k - 1); var t := After(m, r, k); var j := Index(m) % ENTRIES;
      && t.avail == s.avail
      && (e != j ==> DescriptorAt(t, e) == DescriptorAt(s, e))
      && (k == 4 ==> DescriptorAt(t, j) == DescriptorOf(r))
  {
    var j := Index(m) % ENTRIES;
    if k == 4 {
      var m1, m2, m3 := After(m, r, 1), After(m, r, 2), After(m, r, 3);
      assert m1.desc == m.desc[4 * j := r.address];
      assert m2.desc == m1.desc[4 * j + 1 := 0];
      assert m3.desc == m2.desc[4 * j + 2 := r.length];
    }
  }

  lemma AvailBeforeRing(m: Memory, r: Request)
    requires WellSized(m)
    ensures After(m, r, 4).avail == m.avail
  {
    DescStore(m, r, 1, 0);
    DescStore(m, r, 2, 0);
    DescStore(m, r, 3, 0);
    DescStore(m, r, 4, 0);
  }

  lemma RingStore(m: Memory, r: Request, e: nat)
    requires WellSized(m) && e < ENTRIES
    ensures var s := After(m, r, 4); var t := After(m, r, 5); var j := Index(m) % ENTRIES;
      t.desc == s.desc && Index(t) == Index(s) && Entry(t, e) == if e == j then j else Entry(s, e)
  {
    hide Packed;
    AvailBeforeRing(m, r);
    var j := Index(m) % ENTRIES;
    PackedHalves(m.avail[1 + j / 2], j);
  }

  /** The last store sets the flags half of word 0 to 1 (no interrupts); the others leave it. */
  lemma FlagsAre(m: Memory, r: Request, k: nat)
    requires WellSized(m) && k <= 6
    ensures Low(After(m, r, k).avail[0]) == if k < 6 then Low(m.avail[0]) else 1
    decreases k
  {
    hide Packed;
    if k > 0 {
      FlagsAre(m, r, k - 1);
    }
  }

  lemma IndexStore(m: Memory, r: Request, e: nat)
    requires WellSized(m) && e < ENTRIES
    ensures var s := After(m, r, 5); var t := After(m, r, 6);
      t.desc == s.desc && Index(t) == (Index(m) + 1) % HALF && Entry(t, e) == Entry(s, e)
  {
  }

  /** The packed half-word updates refine the plain ring, the index counting modulo 2^16. */
  lemma PushRefinesPlain(m: Memory, r: Request)
    requires WellSized(m)
    ensures View(ApplyAll(m, PushStores(m, r))) == PlainPush(View(m), DescriptorOf(r))
  {
    hide PushStores, ApplyAll, Entry, DescriptorAt;
    AfterAll(m, r);
    var t := After(m, r, 6);
    AfterIs(m, r, 6, 0);
    forall e | 0 <= e < ENTRIES
      ensures View(t).ring[e] == PlainPush(View(m), DescriptorOf(r)).ring[e]
      ensures View(t).table[e] == PlainPush(View(m), DescriptorOf(r)).table[e]
    {
      AfterIs(m, r, 6, e);
    }
    assert View(t).ring == PlainPush(View(m), DescriptorOf(r)).ring;
    assert View(t).table == PlainPush(View(m), DescriptorOf(r)).table;
  }

  /** The device may fetch any entry from `used` up to the published index; each must name a fully
      written descriptor for its request. */
  ghost predicate Published(m: Memory, requests: seq<Request>, used: nat)
    requires WellSized(m)
  {
    && used <= |requests|
    && Index(m) == |requests| % HALF
    && forall n :: used <= n < |requests| ==>
         && Entry(m, n % ENTRIES) == n % ENTRIES
         && DescriptorAt(m, n % ENTRIES) == DescriptorOf(requests[n])
  }

  lemma SlotOfIndex(n: nat)
    ensures n % HALF % ENTRIES == n % ENTRIES
  {
  }

  lemma SameEntry(a: nat, b: nat)
    requires a <= b < a + ENTRIES && a % ENTRIES == b % ENTRIES
    ensures a == b
  {
  }

  lemma NextIndex(n: nat)
    ensures (n % HALF + 1) % HALF == (n + 1) % HALF
  {
  }

  /** With room in the ring the device never sees a half-written entry: not after any one of the stores
      of a push, nor after the last, when the new request is published too. */
  lemma EveryStoreIsPublished(m: Memory, requests: seq<Request>, used: nat, r: Request, k: nat)
    requires WellSized(m) && Published(m, requests, used) && |requests| - used < ENTRIES && k <= 6
    ensures Published(After(m, r, k), if k < 6 then requests else requests + [r], used)
  {
    hide After, Entry, DescriptorAt, Index;
    var t := After(m, r, k);
    var all := if k < 6 then requests else requests + [r];
    SlotOfIndex(|requests|);
    NextIndex(|requests|);
    AfterIs(m, r, k, 0);
    forall n | used <= n < |all|
      ensures Entry(t, n % ENTRIES) == n % ENTRIES && DescriptorAt(t, n % ENTRIES) == DescriptorOf(all[n])
    {
      AfterIs(m, r, k, n % ENTRIES);
      if n < |requests| && n % ENTRIES == |requests| % ENTRIES {
        SameEntry(n, |requests|);
      }
    }
  }

  /** There is no fullness test in the driver. In a full ring, the fourth store of a push already
      destroys the oldest outstanding request, unless the new one equals it. */
  lemma FullRingIsOverwritten(m: Memory, requests: seq<Request>, used: nat, r: Request)
    requires WellSized(m) && Published(m, requests, used) && |requests| - used == ENTRIES
    requires r != requests[used]
    ensures !Published(After(m, r, 4), requests, used)
  {
    hide After, Entry, Index;
    SlotOfIndex(|requests|);
    AfterIs(m, r, 4, used % ENTRIES);
    assert used % ENTRIES == |requests| % ENTRIES;
  }

  /** Exactly when a push is safe, whatever it sends: fewer than 256 requests are outstanding. */
  lemma PushIsSafeIffRoom(m: Memory, requests: seq<Request>, used: nat)
    requires WellSized(m) && Published(m, requests, used) && |requests| - used <= ENTRIES
    ensures (forall r, k: nat :: k < 6 ==> Published(After(m, r, k), requests, used)) <==> |requests| - used < ENTRIES
  {
    hide After, Published;
    if |requests| - used < ENTRIES {
      forall r, k: nat | k < 6 ensures Published(After(m, r, k), requests, used) {
        EveryStoreIsPublished(m, requests, used, r, k);
      }
    } else {
      Outstanding(m, requests, used);
      var oldest := requests[used];
      var r := Request(if oldest.address == 0 then 1 else 0, 0);
      FullRingIsOverwritten(m, requests, used, r);
    }
  }

  lemma Outstanding(m: Memory, requests: seq<Request>, used: nat)
    requires WellSized(m) && Published(m, requests, used)
    ensures used <= |requests|
  {
  }

  //
  // Runs.
  //

  /** Between two pushes, or in one that started from memory `start` and has done `k` of its stores. */
  datatype Driver = Idle | Pushing(start: Memory, request: Request, k: nat)

  /** `requests` are those whose push is complete, `used` of them consumed by the device. */
  datatype Queue = Queue(memory: Memory, driver: Driver, requests: seq<Request>, used: nat)

  /** One step: the driver begins a push or does its next store, the device consumes an entry. */
  datatype Event = Begin(request: Request) | NextStore | Consume

  predicate WellFormed(q: Queue) {
    WellSized(q.memory) && (q.driver.Pushing? ==> WellSized(q.driver.start) && q.driver.k < 6)
  }

  /** The device may consume at any moment, between two stores too. */
  predicate Allowed(q: Queue, e: Event) {
    match e
    case Begin(_) => q.driver.Idle? && |q.requests| - q.used < ENTRIES
    case NextStore => q.driver.Pushing?
    case Consume => q.used < |q.requests|
  }

  /** The word of the ring that the fifth store packs into is the one read at the start: see
      `AvailBeforeRing`. */
  function Happens(q: Queue, e: Event): (t: Queue)
    requires WellFormed(q) && Allowed(q, e)
    ensures WellFormed(t)
  {
    match e
    case Begin(r) => q.(driver := Pushing(q.memory, r, 0))
    case NextStore =>
      var d := q.driver;
      var memory := Apply(q.memory, PushStores(d.start, d.request)[d.k]);
      if d.k < 5 then q.(memory := memory, driver := d.(k := d.k + 1))
      else Queue(memory, Idle, q.requests + [d.request], q.used)
    case Consume => q.(used := q.used + 1)
  }

  ghost predicate Run(q: Queue, es: seq<Event>, t: Queue)
    requires WellFormed(q)
    decreases |es|
  {
    if es == [] then q == t else Allowed(q, es[0]) && Run(Happens(q, es[0]), es[1..], t)
  }

  /** Memory is that of the push in progress, which started from a published ring with room. */
  ghost predicate Consistent(q: Queue) {
    && WellFormed(q)
    && Published(q.memory, q.requests, q.used)
    && (q.driver.Pushing? ==>
          var d := q.driver;
          && q.memory == After(d.start, d.request, d.k)
          && Published(d.start, q.requests, q.used) && |q.requests| - q.used < ENTRIES)
  }

  lemma StepKeepsConsistent(q: Queue, e: Event)
    requires Consistent(q) && Allowed(q, e)
    ensures Consistent(Happens(q, e))
  {
    hide Entry, DescriptorAt, Index, Apply, PushStores;
    if e.NextStore? {
      hide Published;
      var d := q.driver;
      assert After(d.start, d.request, d.k + 1) == Apply(q.memory, PushStores(d.start, d.request)[d.k]);
      EveryStoreIsPublished(d.start, q.requests, q.used, d.request, d.k + 1);
    }
  }

  lemma {:induction false} RunKeepsConsistent(q: Queue, es: seq<Event>, t: Queue)
    requires Consistent(q) && Run(q, es, t)
    ensures Consistent(t)
    decreases |es|
  {
    hide Consistent, Allowed, Happens, Published;
    ConsistentIsPublished(q);
    if es != [] {
      StepKeepsConsistent(q, es[0]);
      RunKeepsConsistent(Happens(q, es[0]), es[1..], t);
    }
  }

  /** The queue before the first push: whatever is in memory, the published index is 0. */
  function Start(m: Memory): Queue {
    Queue(m, Idle, [], 0)
  }

  lemma StartIsConsistent(m: Memory)
    requires WellSized(m)
    ensures Consistent(Start(m)) <==> Index(m) == 0
  {
  }

  /** In every state of every run from an index of 0 that begins a push only when fewer than 256 requests
      are outstanding, with the device consuming at any moment, each published entry names its request's
      descriptor. */
  lemma RunsStayPublished(m: Memory, es: seq<Event>, t: Queue)
    requires WellSized(m) && Index(m) == 0 && Run(Start(m), es, t)
    ensures Consistent(t) && Published(t.memory, t.requests, t.used)
  {
    hide Consistent, Published, Run, Index;
    StartIsConsistent(m);
    RunKeepsConsistent(Start(m), es, t);
    ConsistentIsPublished(t);
  }

  lemma ConsistentIsPublished(q: Queue)
    requires Consistent(q)
    ensures WellFormed(q) && Published(q.memory, q.requests, q.used)
  {
  }

  lemma {:induction false} RunAppend(q: Queue, a: seq<Event>, t: Queue, b: seq<Event>, u: Queue)
    requires WellFormed(q) && WellFormed(t) && Run(q, a, t) && Run(t, b, u)
    ensures Run(q, a + b, u)
    decreases |a|
  {
    hide Allowed, Happens, WellFormed;
    if a == [] {
      assert a + b == b;
    } else {
      assert (a + b)[1..] == a[1..] + b;
      RunAppend(Happens(q, a[0]), a[1..], t, b, u);
    }
  }

  lemma RunPrepend(q: Queue, e: Event, es: seq<Event>, t: Queue)
    requires WellFormed(q) && Allowed(q, e) && Run(Happens(q, e), es, t)
    ensures Run(q, [e] + es, t)
  {
    hide Allowed, Happens, WellFormed;
    assert ([e] + es)[1..] == es;
  }

  /** A push in progress does its remaining stores. */
  lemma {:induction false} FinishPush(q: Queue) returns (es: seq<Event>, t: Queue)
    requires WellFormed(q) && q.driver.Pushing?
    ensures WellFormed(t) && Run(q, es, t)
    ensures t.driver == Idle && t.requests == q.requests + [q.driver.request] && t.used == q.used
    decreases 6 - q.driver.k
  {
    hide Run, Apply, PushStores, WellSized;
    var next := Happens(q, NextStore);
    if q.driver.k < 5 {
      es, t := FinishPush(next);
    } else {
      es, t := [], next;
      EmptyRun(next);
    }
    RunPrepend(q, NextStore, es, t);
    es := [NextStore] + es;
  }

  lemma EmptyRun(q: Queue)
    requires WellFormed(q)
    ensures Run(q, [], q)
  {
  }

  /** One whole push, when the ring has room. */
  lemma PushOnce(q: Queue, r: Request) returns (es: seq<Event>, t: Queue)
    requires WellFormed(q) && q.driver == Idle && |q.requests| - q.used < 256
    ensures WellFormed(t) && Run(q, es, t)
    ensures t.driver == Idle && t.requests == q.requests + [r] && t.used == q.used
  {
    hide Run, WellSized;
    es, t := FinishPush(Happens(q, Begin(r)));
    RunPrepend(q, Begin(r), es, t);
    es := [Begin(r)] + es;
  }

  /** The device takes the oldest request, whatever the driver is doing. */
  lemma ConsumeOnce(q: Queue)
    requires WellFormed(q) && q.used < |q.requests|
    ensures WellFormed(q.(used := q.used + 1)) && Run(q, [Consume], q.(used := q.used + 1))
  {
    EmptyRun(q.(used := q.used + 1));
    RunPrepend(q, Consume, [], q.(used := q.used + 1));
    assert [Consume] + [] == [Consume];
  }

  /** Any number of requests pass through the ring, each pushed and then consumed: past 256, and past the
      2^16 at which the index starts again from 0. */
  lemma {:induction false} PassRequests(m: Memory, r: Request, n: nat) returns (es: seq<Event>, t: Queue)
    requires WellSized(m)
    ensures WellFormed(t) && Run(Start(m), es, t)
    ensures t.driver == Idle && t.requests == seq(n, _ => r) && t.used == n
    decreases n
  {
    hide Run, WellSized;
    if n == 0 {
      es, t := [], Start(m);
      EmptyRun(t);
    } else {
      var before, q := PassRequests(m, r, n - 1);
      var push, pushed := PushOnce(q, r);
      ConsumeOnce(pushed);
      t := pushed.(used := pushed.used + 1);
      RunAppend(q, push, pushed, [Consume], t);
      RunAppend(Start(m), before, q, push + [Consume], t);
      es := before + (push + [Consume]);
      assert t.requests == seq(n, _ => r);
    }
  }

  /** When the device then consumes nothing, k more pushes leave k requests outstanding. */
  lemma {:induction false} FillRing(m: Memory, r: Request, n: nat, k: nat) returns (es: seq<Event>, t: Queue)
    requires WellSized(m) && k <= 256
    ensures WellFormed(t) && Run(Start(m), es, t)
    ensures t.driver == Idle && t.requests == seq(n + k, _ => r) && t.used == n
    decreases k
  {
    hide Run, WellSized;
    if k == 0 {
      es, t := PassRequests(m, r, n);
    } else {
      var before, q := FillRing(m, r, n, k - 1);
      var push;
      push, t := PushOnce(q, r);
      RunAppend(Start(m), before, q, push, t);
      es := before + push;
      assert t.requests == seq(n + k, _ => r);
    }
  }

  /** After any number of requests the full ring is reached, and the driver, which does not test for it,
      then overwrites the oldest outstanding request with any other one. */
  lemma FullRingIsReached(m: Memory, r: Request, other: Request, n: nat) returns (es: seq<Event>, t: Queue)
    requires WellSized(m) && Index(m) == 0 && other != r
    ensures Run(Start(m), es, t) && WellSized(t.memory) && t.driver == Idle && t.used == n
    ensures Published(t.memory, t.requests, t.used) && |t.requests| - t.used == 256
    ensures !Published(After(t.memory, other, 4), t.requests, t.used)
  {
    hide Run, Published, After, Index, Consistent;
    es, t := FillRing(m, r, n, 256);
    RunsStayPublished(m, es, t);
    FullRingIsOverwritten(t.memory, t.requests, t.used, other);
  }

  //
  // ext_populate_rx_ring
  //

  /** The receive queue is filled: entry j names descriptor j, a writable buffer of 2048 bytes, and the
      buffers follow one another. */
  ghost predicate Populated(m: Memory)
    requires WellSized(m)
  {
    && Index(m) == 256 && Low(m.avail[0]) == 1
    && forall j :: 0 <= j < ENTRIES ==>
         Entry(m, j) == j && DescriptorAt(m, j) == Descriptor(0x30_0000 + j * 2048, 0, 2048, 2)
  }

  method PopulateRxRing(desc: array<u32>, avail: array<u32>)
    requires desc.Length == 4 * ENTRIES && avail.Length == 1 + ENTRIES / 2 && desc != avail
    modifies desc, avail
    ensures Populated(Memory(desc[..], avail[..]))
  {
    var i := 0;
    while i < 256
      invariant 0 <= i <= 256
      invariant forall j :: 0 <= j < i ==>
        desc[4 * j] == 0x30_0000 + j * 2048 && desc[4 * j + 1] == 0 && desc[4 * j + 2] == 2048 && desc[4 * j + 3] == 2
    {
      var bufAddr := 0x30_0000 + i * 2048;
      var d := i * 4;
      desc[d + 0] := bufAddr;
      desc[d + 1] := 0;
      desc[d + 2] := 2048;
      desc[d + 3] := 2;
      i := i + 1;
    }
    ghost var table := desc[..];
    var j := 0;
    while j < 128
      invariant 0 <= j <= 128 && desc[..] == table
      invariant forall k :: 0 <= k < j ==> avail[k + 1] == 2 * k + (2 * k + 1) * HALF
    {
      var val1 := j * 2;
      var val2 := j * 2 + 1;
      avail[j + 1] := Or(val2 * HALF, val1, HALF);
      j := j + 1;
    }
    avail[0] := 0x0100_0001;
    ghost var m := Memory(desc[..], avail[..]);
    forall e | 0 <= e < ENTRIES
      ensures Entry(m, e) == e && DescriptorAt(m, e) == Descriptor(0x30_0000 + e * 2048, 0, 2048, 2)
    {
      assert avail[e / 2 + 1] == 2 * (e / 2) + (2 * (e / 2) + 1) * HALF;
      assert table[4 * e] == 0x30_0000 + e * 2048;
    }
  }
}
