/** Two network devices that loop packets to each other, each with a pool of packets to transmit from. */
module Snull {
  /** A packet and the device whose pool it belongs to. */
  datatype Packet = Packet(owner: nat, id: nat)

  datatype Option<T> = None | Some(value: T)

  /** What a running transmission or handler still has to do: queue the packet it took from its pool at
      the other device; put the packet it took off a receive queue back into its owner's pool; or, the
      packet put back and the lock released, test whether to wake the owner's queue. */
  datatype Handler = Carrying(packet: Packet, dest: nat) | Releasing(packet: Packet) | Testing(packet: Packet)

  /** Pools and receive queues are linked lists: `next` is the link in each packet. */
  datatype State = State(pool: seq<seq<Packet>>, rx: seq<seq<Packet>>, stopped: seq<bool>,
                         next: map<Packet, Option<Packet>>, handlers: seq<Handler>)

  datatype Act = Transmit(dev: nat) | Enqueue(i: nat) | Take(dev: nat) | PutBack(i: nat) | Test(i: nat)

  predicate Enabled(s: State, a: Act) {
    match a
    case Transmit(d) => d < 2 && |s.stopped| == 2 && !s.stopped[d]
    case Enqueue(i) => i < |s.handlers| && s.handlers[i].Carrying?
    case Take(d) => d < 2 && |s.rx| == 2 && s.rx[d] != []
    case PutBack(i) => i < |s.handlers| && s.handlers[i].Releasing?
    case Test(i) => i < |s.handlers| && s.handlers[i].Testing?
  }

  function First(q: seq<Packet>): Option<Packet> {
    if q == [] then None else Some(q[0])
  }

  function Without(hs: seq<Handler>, i: nat): seq<Handler>
    requires i < |hs|
  {
    hs[..i] + hs[i + 1..]
  }

  /** A transmission takes the first packet of the pool; from an empty pool it takes a null pointer. */
  predicate TakesNull(s: State, a: Act)
    requires Shaped(s)
  {
    a.Transmit? && a.dev < 2 && s.pool[a.dev] == []
  }

  function Do(s: State, a: Act): State
    requires Shaped(s) && Enabled(s, a) && !TakesNull(s, a)
  {
    match a
    case Transmit(d) =>
      var p := s.pool[d][0];
      var left := s.pool[d][1..];
      s.(pool := s.pool[d := left], stopped := if left == [] then s.stopped[d := true] else s.stopped,
         handlers := s.handlers + [Carrying(p, 1 - d)])
    case Enqueue(i) =>
      var p, d := s.handlers[i].packet, s.handlers[i].dest;
      s.(rx := s.rx[d := [p] + s.rx[d]], next := s.next[p := First(s.rx[d])], handlers := Without(s.handlers, i))
    case Take(d) =>
      s.(rx := s.rx[d := s.rx[d][1..]], handlers := s.handlers + [Releasing(s.rx[d][0])])
    case PutBack(i) =>
      var p := s.handlers[i].packet;
      var o := p.owner;
      s.(pool := s.pool[o := [p] + s.pool[o]], next := s.next[p := First(s.pool[o])],
        handlers := s.handlers[i := Testing(p)])
    case Test(i) =>
      var p := s.handlers[i].packet;
      s.(stopped := if s.next[p].None? then s.stopped[p.owner := false] else s.stopped,
        handlers := Without(s.handlers, i))
  }

  predicate Shaped(s: State) {
    && |s.pool| == |s.rx| == |s.stopped| == 2
    && (forall d, k :: 0 <= d < 2 && 0 <= k < |s.pool[d]| ==> s.pool[d][k].owner == d)
    && (forall d, k :: 0 <= d < 2 && 0 <= k < |s.rx[d]| ==> s.rx[d][k].owner < 2)
    && (forall i :: 0 <= i < |s.handlers| ==> s.handlers[i].packet.owner < 2)
    && (forall i :: 0 <= i < |s.handlers| && s.handlers[i].Carrying? ==> s.handlers[i].dest < 2)
    && (forall i :: 0 <= i < |s.handlers| && s.handlers[i].Testing? ==> s.handlers[i].packet in s.next)
  }

  // ----- every packet is in one place -----

  function Count(q: seq<Packet>, p: Packet): nat {
    if q == [] then 0 else (if q[0] == p then 1 else 0) + Count(q[1..], p)
  }

  /** Whether a handler has the packet in its hands. */
  function HeldBy(h: Handler, p: Packet): nat {
    if !h.Testing? && h.packet == p then 1 else 0
  }

  function Held(hs: seq<Handler>, p: Packet): nat {
    if hs == [] then 0 else HeldBy(hs[0], p) + Held(hs[1..], p)
  }

  /** In how many places a packet is: pools, receive queues, and handlers' hands. */
  function Places(s: State, p: Packet): nat
    requires Shaped(s)
  {
    Count(s.pool[0], p) + Count(s.pool[1], p) + Count(s.rx[0], p) + Count(s.rx[1], p) + Held(s.handlers, p)
  }

  lemma {:induction false} HeldWithout(hs: seq<Handler>, i: nat, p: Packet)
    requires i < |hs|
    ensures Held(hs, p) == Held(Without(hs, i), p) + HeldBy(hs[i], p)
  {
    if i == 0 {
      assert Without(hs, 0) == hs[1..];
    } else {
      HeldWithout(hs[1..], i - 1, p);
      assert Without(hs, i)[1..] == Without(hs[1..], i - 1);
    }
  }

  lemma {:induction false} HeldReplaced(hs: seq<Handler>, i: nat, h: Handler, p: Packet)
    requires i < |hs|
    ensures Held(hs[i := h], p) + HeldBy(hs[i], p) == Held(hs, p) + HeldBy(h, p)
  {
    if i == 0 {
      assert hs[0 := h][1..] == hs[1..];
    } else {
      HeldReplaced(hs[1..], i - 1, h, p);
      assert hs[i := h][1..] == hs[1..][i - 1 := h];
    }
  }

  lemma {:induction false} HeldMore(hs: seq<Handler>, h: Handler, p: Packet)
    ensures Held(hs + [h], p) == Held(hs, p) + HeldBy(h, p)
  {
    if hs != [] {
      HeldMore(hs[1..], h, p);
      assert (hs + [h])[1..] == hs[1..] + [h];
    }
  }

  lemma StepShaped(s: State, a: Act)
    requires Shaped(s) && Enabled(s, a) && !TakesNull(s, a)
    ensures Shaped(Do(s, a))
  {
    if a.Test? || a.Enqueue? {
      var i := a.i;
      assert forall k :: 0 <= k < |s.handlers| - 1 ==>
        Without(s.handlers, i)[k] == s.handlers[if k < i then k else k + 1];
    }
  }

  /** No step loses or doubles a packet. */
  lemma StepConserves(s: State, a: Act, p: Packet)
    requires Shaped(s) && Enabled(s, a) && !TakesNull(s, a)
    ensures Shaped(Do(s, a)) && Places(Do(s, a), p) == Places(s, p)
  {
    hide Shaped, Count, Held, HeldBy, Without;
    StepShaped(s, a);
    HandlersConserve(s, a, p);
    QueuesConserve(s, a, p);
  }

  /** What the handlers hold more or less after a step. */
  function HandedOver(s: State, a: Act, p: Packet): int
    requires Shaped(s) && Enabled(s, a) && !TakesNull(s, a)
  {
    match a
    case Transmit(d) => if s.pool[d][0] == p then 1 else 0
    case Take(d) => if s.rx[d][0] == p then 1 else 0
    case Enqueue(i) => if s.handlers[i].packet == p then -1 else 0
    case PutBack(i) => if s.handlers[i].packet == p then -1 else 0
    case Test(_) => 0
  }

  lemma HandlersConserve(s: State, a: Act, p: Packet)
    requires Shaped(s) && Enabled(s, a) && !TakesNull(s, a)
    ensures Held(Do(s, a).handlers, p) == Held(s.handlers, p) + HandedOver(s, a, p)
  {
    hide Count, Held, Without;
    match a
    case Transmit(d) => HeldMore(s.handlers, Carrying(s.pool[d][0], 1 - d), p);
    case Enqueue(i) => HeldWithout(s.handlers, i, p);
    case Take(d) => HeldMore(s.handlers, Releasing(s.rx[d][0]), p);
    case PutBack(i) => HeldReplaced(s.handlers, i, Testing(s.handlers[i].packet), p);
    case Test(i) => HeldWithout(s.handlers, i, p);
  }

  lemma QueuesConserve(s: State, a: Act, p: Packet)
    requires Shaped(s) && Enabled(s, a) && !TakesNull(s, a) && Shaped(Do(s, a))
    ensures var t := Do(s, a);
      Count(t.pool[0], p) + Count(t.pool[1], p) + Count(t.rx[0], p) + Count(t.rx[1], p) + HandedOver(s, a, p)
      == Count(s.pool[0], p) + Count(s.pool[1], p) + Count(s.rx[0], p) + Count(s.rx[1], p)
  {
    hide Count, Without;
    match a
    case Transmit(d) => CountHead(s.pool[d], p);
    case Enqueue(i) => CountMore(s.rx[s.handlers[i].dest], s.handlers[i].packet, p);
    case Take(d) => CountHead(s.rx[d], p);
    case PutBack(i) => CountMore(s.pool[s.handlers[i].packet.owner], s.handlers[i].packet, p);
    case Test(_) =>
  }

  lemma CountHead(q: seq<Packet>, p: Packet)
    requires q != []
    ensures Count(q, p) == (if q[0] == p then 1 else 0) + Count(q[1..], p)
  {
  }

  lemma CountMore(q: seq<Packet>, x: Packet, p: Packet)
    ensures Count([x] + q, p) == (if x == p then 1 else 0) + Count(q, p)
  {
    assert ([x] + q)[1..] == q;
  }

  // ----- a running queue has a packet -----

  /** In a linked list each packet links to the one that follows it. */
  predicate Linked(q: seq<Packet>, next: map<Packet, Option<Packet>>) {
    forall k :: 0 <= k < |q| ==> q[k] in next && next[q[k]] == First(q[k + 1..])
  }

  /** A handler is still to test the last packet of a pool that is stopped. */
  predicate Watched(s: State, d: nat)
    requires Shaped(s) && d < 2
  {
    s.stopped[d] && s.pool[d] != [] ==> Testing(s.pool[d][|s.pool[d]| - 1]) in s.handlers
  }

  /** The pools and the receive queues are linked lists, and a queue that is stopped with packets in its
      pool is about to be woken. */
  predicate Waking(s: State)
    requires Shaped(s)
  {
    forall d :: 0 <= d < 2 ==> Linked(s.pool[d], s.next) && Linked(s.rx[d], s.next) && Watched(s, d)
  }

  /** A queue that runs has a packet to take. */
  predicate Running(s: State)
    requires Shaped(s)
  {
    forall d :: 0 <= d < 2 ==> !s.stopped[d] ==> s.pool[d] != []
  }

  /** A handler finds no link in its packet, and the packet's owner has an empty pool: the packet has been
      sent again since it was put back. */
  predicate WakesEmpty(s: State, a: Act)
    requires Shaped(s) && Enabled(s, a)
  {
    a.Test? && var p := s.handlers[a.i].packet; s.next[p].None? && s.pool[p.owner] == []
  }

  /** Every packet of the two pools is in one place, and there are no others. */
  ghost predicate Conserved(s: State, n: nat)
    requires Shaped(s)
  {
    forall p :: Places(s, p) == if p.owner < 2 && p.id < n then 1 else 0
  }

  lemma {:induction false} CountPositive(q: seq<Packet>, p: Packet)
    ensures p in q <==> Count(q, p) > 0
  {
    if q != [] {
      CountPositive(q[1..], p);
      assert q == [q[0]] + q[1..];
    }
  }

  lemma {:induction false} HeldPositive(hs: seq<Handler>, i: nat)
    requires i < |hs| && !hs[i].Testing?
    ensures Held(hs, hs[i].packet) > 0
  {
    if i > 0 {
      HeldPositive(hs[1..], i - 1);
    }
  }

  lemma OthersStay(hs: seq<Handler>, i: nat, h: Handler)
    requires i < |hs| && h in hs && h != hs[i]
    ensures h in Without(hs, i)
  {
    var j :| 0 <= j < |hs| && hs[j] == h;
    assert Without(hs, i)[if j < i then j else j - 1] == h;
  }

  /** A packet in a handler's hands is in no pool and no receive queue. */
  lemma HeldNotQueued(s: State, n: nat, i: nat)
    requires Shaped(s) && Conserved(s, n) && i < |s.handlers| && !s.handlers[i].Testing?
    ensures s.handlers[i].packet !in s.pool[0] && s.handlers[i].packet !in s.pool[1]
    ensures s.handlers[i].packet !in s.rx[0] && s.handlers[i].packet !in s.rx[1]
  {
    var p := s.handlers[i].packet;
    HeldPositive(s.handlers, i);
    CountPositive(s.pool[0], p);
    CountPositive(s.pool[1], p);
    CountPositive(s.rx[0], p);
    CountPositive(s.rx[1], p);
    assert Places(s, p) <= 1;
  }

  lemma LinkedSuffix(q: seq<Packet>, next: map<Packet, Option<Packet>>)
    requires Linked(q, next) && q != []
    ensures Linked(q[1..], next)
  {
    forall k | 0 <= k < |q[1..]| ensures q[1..][k] in next && next[q[1..][k]] == First(q[1..][k + 1..]) {
      assert q[1..][k] == q[k + 1] && q[1..][k + 1..] == q[k + 2..];
    }
  }

  lemma LinkedMore(q: seq<Packet>, next: map<Packet, Option<Packet>>, p: Packet)
    requires Linked(q, next) && p !in q
    ensures Linked([p] + q, next[p := First(q)])
  {
    var r := [p] + q;
    forall k | 0 <= k < |r| ensures r[k] in next[p := First(q)] && next[p := First(q)][r[k]] == First(r[k + 1..]) {
      if k == 0 {
        assert r[1..] == q;
      } else {
        assert r[k] == q[k - 1] && r[k + 1..] == q[k..];
      }
    }
  }

  lemma LinkedElsewhere(q: seq<Packet>, next: map<Packet, Option<Packet>>, p: Packet, v: Option<Packet>)
    requires Linked(q, next) && p !in q
    ensures Linked(q, next[p := v])
  {
  }

  lemma LastUnlinked(q: seq<Packet>, next: map<Packet, Option<Packet>>)
    requires Linked(q, next) && q != []
    ensures q[|q| - 1] in next && next[q[|q| - 1]].None?
  {
    assert q[|q|..] == [];
  }

  /** While every running queue has a packet, no transmission takes a null pointer, and a step spoils
      that if and only if it wakes a queue whose pool is empty. */
  lemma RunningExactly(s: State, a: Act)
    requires Shaped(s) && Running(s) && Enabled(s, a)
    ensures !TakesNull(s, a) && Shaped(Do(s, a))
    ensures Running(Do(s, a)) <==> !WakesEmpty(s, a)
  {
    StepShaped(s, a);
    if WakesEmpty(s, a) {
      var o := s.handlers[a.i].packet.owner;
      assert !Do(s, a).stopped[o] && Do(s, a).pool[o] == [];
    }
  }

  /** After such a step the next transmission, if it comes at once, takes a null pointer. */
  lemma NullAfterwards(s: State, a: Act)
    requires Shaped(s) && Enabled(s, a) && WakesEmpty(s, a)
    ensures var t := Do(s, a); var d := s.handlers[a.i].packet.owner;
      Shaped(t) && Enabled(t, Transmit(d)) && TakesNull(t, Transmit(d))
  {
    StepShaped(s, a);
  }

  /** No step leaves a queue stopped with packets in its pool and nobody to wake it. */
  lemma StepWaking(s: State, n: nat, a: Act)
    requires Shaped(s) && Conserved(s, n) && Waking(s) && Enabled(s, a) && !TakesNull(s, a)
    ensures Shaped(Do(s, a)) && Waking(Do(s, a))
  {
    hide Count, Held, Conserved, Linked;
    StepShaped(s, a);
    match a
    case Transmit(d) => TransmitWaking(s, d);
    case Take(d) => TakeWaking(s, d);
    case Enqueue(i) => EnqueueWaking(s, n, i);
    case PutBack(i) => PutBackWaking(s, n, i);
    case Test(i) => TestWaking(s, i);
  }

  lemma TransmitWaking(s: State, d: nat)
    requires Shaped(s) && Waking(s) && Enabled(s, Transmit(d)) && !TakesNull(s, Transmit(d))
    ensures Shaped(Do(s, Transmit(d))) && Waking(Do(s, Transmit(d)))
  {
    hide Linked;
    StepShaped(s, Transmit(d));
    LinkedSuffix(s.pool[d], s.next);
  }

  lemma TakeWaking(s: State, d: nat)
    requires Shaped(s) && Waking(s) && Enabled(s, Take(d))
    ensures Shaped(Do(s, Take(d))) && Waking(Do(s, Take(d)))
  {
    hide Linked;
    StepShaped(s, Take(d));
    LinkedSuffix(s.rx[d], s.next);
    var s' := Do(s, Take(d));
    forall e | 0 <= e < 2 ensures Watched(s', e) {
      if s.stopped[e] && s.pool[e] != [] {
        var w := Testing(s.pool[e][|s.pool[e]| - 1]);
        var j :| 0 <= j < |s.handlers| && s.handlers[j] == w;
        assert s'.handlers[j] == w;
      }
    }
  }

  lemma EnqueueWaking(s: State, n: nat, i: nat)
    requires Shaped(s) && Conserved(s, n) && Waking(s) && Enabled(s, Enqueue(i))
    ensures Shaped(Do(s, Enqueue(i))) && Waking(Do(s, Enqueue(i)))
  {
    hide Count, Held, Conserved, Linked;
    StepShaped(s, Enqueue(i));
    HeldNotQueued(s, n, i);
    var p, d := s.handlers[i].packet, s.handlers[i].dest;
    LinkedMore(s.rx[d], s.next, p);
    LinkedElsewhere(s.rx[1 - d], s.next, p, First(s.rx[d]));
    forall e | 0 <= e < 2
      ensures Linked(s.pool[e], Do(s, Enqueue(i)).next) && Watched(Do(s, Enqueue(i)), e)
    {
      LinkedElsewhere(s.pool[e], s.next, p, First(s.rx[d]));
      if s.stopped[e] && s.pool[e] != [] {
        OthersStay(s.handlers, i, Testing(s.pool[e][|s.pool[e]| - 1]));
      }
    }
  }

  lemma PutBackWaking(s: State, n: nat, i: nat)
    requires Shaped(s) && Conserved(s, n) && Waking(s) && Enabled(s, PutBack(i))
    ensures Shaped(Do(s, PutBack(i))) && Waking(Do(s, PutBack(i)))
  {
    hide Count, Held, Conserved, Linked;
    StepShaped(s, PutBack(i));
    HeldNotQueued(s, n, i);
    var p := s.handlers[i].packet;
    var o := p.owner;
    var s' := Do(s, PutBack(i));
    LinkedMore(s.pool[o], s.next, p);
    LinkedElsewhere(s.pool[1 - o], s.next, p, First(s.pool[o]));
    LinkedElsewhere(s.rx[0], s.next, p, First(s.pool[o]));
    LinkedElsewhere(s.rx[1], s.next, p, First(s.pool[o]));
    assert s'.handlers[i] == Testing(p);
    forall e | 0 <= e < 2 ensures Watched(s', e) {
      if s.stopped[e] && s.pool[e] != [] {
        var w := Testing(s.pool[e][|s.pool[e]| - 1]);
        var j :| 0 <= j < |s.handlers| && s.handlers[j] == w;
        assert s'.handlers[j] == w;
      }
    }
  }

  lemma TestWaking(s: State, i: nat)
    requires Shaped(s) && Waking(s) && Enabled(s, Test(i))
    ensures Shaped(Do(s, Test(i))) && Waking(Do(s, Test(i)))
  {
    hide Linked;
    StepShaped(s, Test(i));
    var s' := Do(s, Test(i));
    forall e | 0 <= e < 2 ensures Watched(s', e) {
      if s'.stopped[e] && s.pool[e] != [] {
        LastUnlinked(s.pool[e], s.next);
        OthersStay(s.handlers, i, Testing(s.pool[e][|s.pool[e]| - 1]));
      }
    }
  }

  // ----- runs -----

  function Pool(d: nat, n: nat): seq<Packet> {
    if n == 0 then [] else [Packet(d, n - 1)] + Pool(d, n - 1)
  }

  function Links(d: nat, n: nat): map<Packet, Option<Packet>> {
    if n == 0 then map[] else Links(d, n - 1)[Packet(d, n - 1) := First(Pool(d, n - 1))]
  }

  /** Both devices opened, each with `n` packets in its pool. */
  function Initial(n: nat): State {
    State([Pool(0, n), Pool(1, n)], [[], []], [false, false], Links(0, n) + Links(1, n), [])
  }

  lemma {:induction false} PoolShaped(d: nat, n: nat, p: Packet, k: nat)
    ensures Count(Pool(d, n), p) == if p.owner == d && p.id < n then 1 else 0
    ensures k < |Pool(d, n)| ==> Pool(d, n)[k].owner == d && Pool(d, n)[k].id < n
    ensures p in Links(d, n) <==> p.owner == d && p.id < n
  {
    if n > 0 {
      PoolShaped(d, n - 1, p, if k > 0 then k - 1 else 0);
      assert Pool(d, n)[1..] == Pool(d, n - 1);
    }
  }

  lemma {:induction false} PoolLinked(d: nat, n: nat)
    ensures Linked(Pool(d, n), Links(d, n))
  {
    hide Linked, Count;
    if n > 0 {
      var p := Packet(d, n - 1);
      PoolLinked(d, n - 1);
      PoolShaped(d, n - 1, p, 0);
      CountPositive(Pool(d, n - 1), p);
      LinkedMore(Pool(d, n - 1), Links(d, n - 1), p);
    } else {
      EmptyLinked(Links(d, 0));
    }
  }

  lemma EmptyLinked(next: map<Packet, Option<Packet>>)
    ensures Linked([], next)
  {
  }

  lemma LinkedInUnion(q: seq<Packet>, a: map<Packet, Option<Packet>>, b: map<Packet, Option<Packet>>)
    requires Linked(q, a) && forall k :: 0 <= k < |q| ==> q[k] !in b
    ensures Linked(q, a + b) && Linked(q, b + a)
  {
  }

  lemma StartsShaped(n: nat)
    requires n > 0
    ensures Shaped(Initial(n)) && Pool(0, n) != [] && Pool(1, n) != []
  {
    hide Links, Linked;
    forall d, k | 0 <= d < 2 && 0 <= k < |Pool(d, n)| ensures Pool(d, n)[k].owner == d {
      PoolShaped(d, n, Packet(d, 0), k);
    }
  }

  lemma StartsLinked(n: nat, d: nat)
    requires n > 0 && d < 2
    ensures Linked(Pool(d, n), Initial(n).next)
  {
    hide Pool, Links, Linked;
    forall k | 0 <= k < |Pool(d, n)| ensures Pool(d, n)[k] !in Links(1 - d, n) {
      PoolShaped(d, n, Packet(d, 0), k);
      PoolShaped(1 - d, n, Pool(d, n)[k], 0);
    }
    PoolLinked(d, n);
    LinkedInUnion(Pool(d, n), Links(d, n), Links(1 - d, n));
  }

  lemma StartsWell(n: nat)
    requires n > 0
    ensures Shaped(Initial(n)) && Conserved(Initial(n), n) && Waking(Initial(n)) && Running(Initial(n))
  {
    hide Pool, Links, Linked, Shaped;
    var s := Initial(n);
    StartsShaped(n);
    StartsLinked(n, 0);
    StartsLinked(n, 1);
    EmptyLinked(s.next);
    forall p ensures Places(s, p) == if p.owner < 2 && p.id < n then 1 else 0 {
      PoolShaped(0, n, p, 0);
      PoolShaped(1, n, p, 0);
    }
  }

  datatype Trace = Begin(n: nat) | Then(before: Trace, act: Act)

  /** The state a run ends in; None if an act of it was not possible, or took a null pointer. */
  function End(t: Trace): Option<State> {
    match t
    case Begin(n) => if n > 0 then Some(Initial(n)) else None
    case Then(before, a) =>
      match End(before)
      case None => None
      case Some(s) => if Shaped(s) && Enabled(s, a) && !TakesNull(s, a) then Some(Do(s, a)) else None
  }

  function Size(t: Trace): nat {
    match t
    case Begin(n) => n
    case Then(before, _) => Size(before)
  }

  /** In every run each packet stays in exactly one place, and a queue that is stopped with packets in
      its pool is about to be woken. */
  lemma {:induction false} EveryRun(t: Trace)
    requires End(t).Some?
    ensures var s := End(t).value; Shaped(s) && Conserved(s, Size(t)) && Waking(s)
  {
    hide Shaped, Waking, Running, Places, Do, Enabled;
    match t
    case Begin(n) => StartsWell(n);
    case Then(before, a) =>
      EveryRun(before);
      var s := End(before).value;
      forall p ensures Shaped(Do(s, a)) && Places(Do(s, a), p) == Places(s, p) {
        StepConserves(s, a, p);
      }
      StepWaking(s, Size(t), a);
  }

  /** In every state of the run each running queue has a packet. */
  predicate AlwaysRunning(t: Trace)
    requires End(t).Some?
  {
    EveryRun(t);
    Running(End(t).value) && (t.Then? ==> AlwaysRunning(t.before))
  }

  /** No test of the run wakes a queue whose pool is empty. */
  predicate NeverWakesEmpty(t: Trace)
    requires End(t).Some?
  {
    t.Then? ==> !WakesEmpty(End(t.before).value, t.act) && NeverWakesEmpty(t.before)
  }

  /** Over a whole run, running queues have packets, so that no transmission takes a null pointer, if and
      only if no test wakes an empty one. */
  lemma {:induction false} RunsExactly(t: Trace)
    requires End(t).Some?
    ensures AlwaysRunning(t) <==> NeverWakesEmpty(t)
  {
    hide Shaped, Running, WakesEmpty, Do, Enabled;
    match t
    case Begin(n) => StartsWell(n);
    case Then(before, a) =>
      RunsExactly(before);
      EveryRun(before);
      if AlwaysRunning(before) {
        RunningExactly(End(before).value, a);
      }
  }

  // ----- which packet is received, and where -----

  /** The packets that wait at a device, in the order of their arrival: each has come from a transmission,
      and receiving removes the latest. */
  function Arrivals(t: Trace, d: nat): seq<Packet>
    requires End(t).Some? && d < 2
  {
    match t
    case Begin(_) => []
    case Then(before, a) =>
      var w, s := Arrivals(before, d), End(before).value;
      if a.Enqueue? && s.handlers[a.i].dest == d then w + [s.handlers[a.i].packet]
      else if a == Take(d) && w != [] then w[..|w| - 1]
      else w
  }

  /** The same packets in opposite orders. */
  predicate Opposite(w: seq<Packet>, q: seq<Packet>) {
    |w| == |q| && forall k :: 0 <= k < |w| ==> w[k] == q[|w| - 1 - k]
  }

  lemma OppositeMore(w: seq<Packet>, q: seq<Packet>, p: Packet)
    requires Opposite(w, q)
    ensures Opposite(w + [p], [p] + q)
  {
  }

  lemma OppositeLess(w: seq<Packet>, q: seq<Packet>)
    requires Opposite(w, q)
    ensures q != [] ==> w != [] && w[|w| - 1] == q[0] && Opposite(w[..|w| - 1], q[1..])
    ensures w != [] ==> q != []
  {
  }

  /** Packets are received in the wrong order: of those that wait at a device the one that arrived last is
      taken first, whatever else happens in between. */
  lemma {:induction false} LastArrivedFirst(t: Trace, d: nat)
    requires End(t).Some? && d < 2
    ensures Shaped(End(t).value) && Opposite(Arrivals(t, d), End(t).value.rx[d])
    ensures var w, s := Arrivals(t, d), End(t).value;
      w != [] ==> Enabled(s, Take(d)) && Do(s, Take(d)).handlers == s.handlers + [Releasing(w[|w| - 1])]
  {
    hide Shaped, Without, Conserved, Waking, Opposite;
    EveryRun(t);
    ShapedIs(End(t).value);
    match t
    case Begin(n) => EmptyOpposite();
    case Then(before, a) =>
      EveryRun(before);
      var s := End(before).value;
      ShapedIs(s);
      LastArrivedFirst(before, d);
      OppositeLess(Arrivals(before, d), s.rx[d]);
      if a.Enqueue? {
        OppositeMore(Arrivals(before, d), s.rx[d], s.handlers[a.i].packet);
      }
      OppositeLess(Arrivals(t, d), End(t).value.rx[d]);
  }

  lemma EmptyOpposite()
    ensures Opposite([], [])
  {
  }

  lemma ShapedIs(s: State)
    requires Shaped(s)
    ensures |s.pool| == |s.rx| == |s.stopped| == 2
  {
  }

  /** A packet that is transmitted from a device and queued waits at the other one. */
  lemma GoesAcross(s: State, d: nat)
    requires Shaped(s) && Enabled(s, Transmit(d)) && !TakesNull(s, Transmit(d))
    ensures var s1, i := Do(s, Transmit(d)), |s.handlers|;
      && |s1.handlers| == i + 1 && Shaped(s1) && Enabled(s1, Enqueue(i))
      && Do(s1, Enqueue(i)).rx[1 - d] == [s1.handlers[i].packet] + s.rx[1 - d]
      && Do(s1, Enqueue(i)).handlers == s.handlers && s1.handlers[i].packet.owner == d
  {
    StepShaped(s, Transmit(d));
    assert s.handlers + [] == s.handlers;
  }

  /** A packet that is put back is the next one to be transmitted from its device. */
  lemma ComesBack(s: State, i: nat)
    requires Shaped(s) && Enabled(s, PutBack(i))
    ensures Shaped(Do(s, PutBack(i)))
    ensures var p, s1 := s.handlers[i].packet, Do(s, PutBack(i));
      !s.stopped[p.owner] ==>
        && Enabled(s1, Transmit(p.owner)) && !TakesNull(s1, Transmit(p.owner))
        && Do(s1, Transmit(p.owner)).pool == s.pool
        && Do(s1, Transmit(p.owner)).handlers == s1.handlers + [Carrying(p, 1 - p.owner)]
  {
    StepShaped(s, PutBack(i));
    var p := s.handlers[i].packet;
    assert ([p] + s.pool[p.owner])[1..] == s.pool[p.owner];
  }

  // ----- a pool of one packet -----

  /** Running queues have a packet, and a handler that is still to test has its packet in the pool, the queue
      stopped, and no other handler beside it for the same pool. */
  predicate Alone(s: State)
    requires Shaped(s)
  {
    && Running(s)
    && (forall i :: 0 <= i < |s.handlers| && s.handlers[i].Testing? ==>
          s.stopped[s.handlers[i].packet.owner] && s.pool[s.handlers[i].packet.owner] != [])
    && (forall i, j :: 0 <= i < j < |s.handlers| && s.handlers[i].Testing? && s.handlers[j].Testing? ==>
          s.handlers[i].packet.owner != s.handlers[j].packet.owner)
  }

  /** While the only packet of a pool is in a handler's hands, the pool is empty. */
  lemma PoolIsEmpty(s: State, i: nat)
    requires Shaped(s) && Conserved(s, 1) && i < |s.handlers| && !s.handlers[i].Testing?
    ensures s.pool[s.handlers[i].packet.owner] == []
  {
    hide Count, Held;
    var p := s.handlers[i].packet;
    HeldNotQueued(s, 1, i);
    HeldPositive(s.handlers, i);
    assert Places(s, p) > 0;
    var q := s.pool[p.owner];
    assert q != [] ==> q[0] in q;
    forall x | x in q ensures x == p {
      CountPositive(q, x);
      assert Places(s, x) > 0;
    }
  }

  lemma StepAlone(s: State, a: Act)
    requires Shaped(s) && Conserved(s, 1) && Alone(s) && Enabled(s, a) && !TakesNull(s, a)
    ensures Shaped(Do(s, a)) && Alone(Do(s, a)) && !WakesEmpty(s, a)
  {
    hide Conserved, Without;
    StepShaped(s, a);
    match a
    case Transmit(d) =>
    case Take(d) =>
    case Enqueue(i) => WithoutAt(s.handlers, i);
    case PutBack(i) => PoolIsEmpty(s, i);
    case Test(i) => WithoutAt(s.handlers, i);
  }

  lemma WithoutAt(hs: seq<Handler>, i: nat)
    requires i < |hs|
    ensures |Without(hs, i)| == |hs| - 1
    ensures forall k :: 0 <= k < |hs| - 1 ==> Without(hs, i)[k] == hs[if k < i then k else k + 1]
  {
  }

  /** With one packet in each pool no test ever wakes an empty queue. */
  lemma {:induction false} OneIsSafe(t: Trace)
    requires End(t).Some? && Size(t) == 1
    ensures Shaped(End(t).value) && Alone(End(t).value) && NeverWakesEmpty(t) && AlwaysRunning(t)
  {
    hide Shaped, Alone, Running, WakesEmpty, Conserved, Waking, Do, Enabled;
    RunsExactly(t);
    match t
    case Begin(n) => StartsAlone();
    case Then(before, a) =>
      OneIsSafe(before);
      EveryRun(before);
      StepAlone(End(before).value, a);
  }

  lemma StartsAlone()
    ensures Shaped(Initial(1)) && Alone(Initial(1))
  {
    hide Pool, Links, Linked, Shaped, Conserved;
    StartsWell(1);
  }

  // ----- a test that is late -----

  lemma Next(t: Trace, s: State, a: Act) returns (t': Trace, s': State)
    requires End(t) == Some(s) && Shaped(s) && Enabled(s, a) && !TakesNull(s, a)
    ensures s' == Do(s, a) && End(t') == Some(s') && Shaped(s') && |s'.pool| == |s'.rx| == |s'.stopped| == 2
  {
    hide Enabled, Do;
    StepShaped(s, a);
    t', s' := Then(t, a), Do(s, a);
  }

  /** With any greater number of packets: the first is sent, received and put back, and the handler has
      not tested it yet when it and all others are sent again. It finds no link in the packet, which waits
      to be received, and wakes the queue with the pool empty: the next transmission takes a null pointer.
      One poll of the other device is enough for this; receive interrupts are off while it lasts. */
  lemma LateTest(n: nat) returns (t: Trace, s: State)
    requires n >= 2
    ensures End(t) == Some(s) && Shaped(s) && Enabled(s, Transmit(0)) && TakesNull(s, Transmit(0))
  {
    hide Shaped, End, Do;
    t, s := PutBackUntested(n);
    t, s := SentAgain(t, s, Packet(0, n - 1));
    t, s := DrainsPool(t, s, Packet(0, n - 1));
    assert WakesEmpty(s, Test(0));
    NullAfterwards(s, Test(0));
    t, s := Next(t, s, Test(0));
  }

  lemma PutBackUntested(n: nat) returns (t: Trace, s: State)
    requires n >= 2
    ensures End(t) == Some(s) && Shaped(s) && |s.pool| == |s.rx| == |s.stopped| == 2
    ensures s.pool[0] == Pool(0, n) && s.rx[1] == [] && !s.stopped[0] && s.handlers == [Testing(Packet(0, n - 1))]
  {
    hide Shaped, End, Links;
    StartsShaped(n);
    t, s := Begin(n), Initial(n);
    BeginsAt(n);
    t, s := Next(t, s, Transmit(0));
    t, s := Next(t, s, Enqueue(0));
    t, s := Next(t, s, Take(1));
    t, s := Next(t, s, PutBack(0));
  }

  lemma SentAgain(t: Trace, s: State, p: Packet) returns (t': Trace, s': State)
    requires End(t) == Some(s) && Shaped(s) && |s.pool| == |s.rx| == |s.stopped| == 2
    requires |s.pool[0]| >= 2 && s.pool[0][0] == p && s.rx[1] == [] && !s.stopped[0] && s.handlers == [Testing(p)]
    ensures End(t') == Some(s') && Shaped(s') && |s'.pool| == |s'.rx| == |s'.stopped| == 2
    ensures s'.pool[0] == s.pool[0][1..] && !s'.stopped[0] && s'.handlers == [Testing(p)]
    ensures p !in s'.pool[0] && p in s'.next && s'.next[p].None?
  {
    hide Shaped, End, Conserved;
    t', s' := Next(t, s, Transmit(0));
    EveryRun(t');
    HeldNotQueued(s', Size(t'), 1);
    t', s' := Next(t', s', Enqueue(1));
    assert s'.handlers == [Testing(p)];
  }

  /** All packets left in the pool are sent. */
  lemma {:induction false} DrainsPool(t: Trace, s: State, p: Packet) returns (t': Trace, s': State)
    requires End(t) == Some(s) && Shaped(s) && |s.pool| == |s.rx| == |s.stopped| == 2
    requires s.pool[0] != [] && !s.stopped[0] && s.handlers == [Testing(p)]
    requires p !in s.pool[0] && p in s.next && s.next[p].None?
    ensures End(t') == Some(s') && Shaped(s') && |s'.pool| == |s'.rx| == |s'.stopped| == 2
    ensures s'.pool[0] == [] && s'.handlers == [Testing(p)] && p in s'.next && s'.next[p].None?
    decreases |s.pool[0]|
  {
    hide Shaped, End;
    t', s' := Next(t, s, Transmit(0));
    t', s' := Next(t', s', Enqueue(1));
    assert s'.handlers == [Testing(p)];
    if s'.pool[0] != [] {
      t', s' := DrainsPool(t', s', p);
    }
  }

  lemma BeginsAt(n: nat)
    requires n > 0
    ensures End(Begin(n)) == Some(Initial(n))
  {
  }
}
