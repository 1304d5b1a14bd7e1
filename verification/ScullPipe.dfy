/** A pipe device: a ring buffer that processes read and write, sleeping while they cannot. */
module ScullPipe {
  import opened Arithmetic

  type Byte = b: int | 0 <= b < 256

  // ----- the ring -----

  /** The buffer and the places to read from and write to; it is empty when they are equal. */
  datatype Ring = Ring(cells: seq<Byte>, rp: nat, wp: nat)
  {
    predicate Valid() {
      rp < |cells| && wp < |cells|
    }
  }

  function SpaceFree(r: Ring): int
    requires r.Valid()
  {
    if r.rp == r.wp then |r.cells| - 1
    else (r.rp + |r.cells| - r.wp) % |r.cells| - 1
  }

  /** The bytes that are queued, oldest first. */
  function Contents(r: Ring): seq<Byte>
    requires r.Valid()
  {
    if r.rp <= r.wp then r.cells[r.rp..r.wp] else r.cells[r.rp..] + r.cells[..r.wp]
  }

  function Min(a: nat, b: nat): nat {
    if a < b then a else b
  }

  /** How much one read takes: at most what lies before the write position or the buffer's end. */
  function ReadCount(r: Ring, count: nat): nat
    requires r.Valid()
  {
    if r.wp > r.rp then Min(count, r.wp - r.rp) else Min(count, |r.cells| - r.rp)
  }

  function AfterRead(r: Ring, count: nat): Ring
    requires r.Valid()
  {
    var rp := r.rp + ReadCount(r, count);
    r.(rp := if rp == |r.cells| then 0 else rp)
  }

  /** How much one write takes: no more than is free, up to the buffer's end or before the read position. */
  function WriteCount(r: Ring, count: nat): nat
    requires r.Valid() && SpaceFree(r) >= 0
  {
    var n := Min(count, SpaceFree(r));
    if r.wp >= r.rp then Min(n, |r.cells| - r.wp) else Min(n, r.rp - r.wp - 1)
  }

  function AfterWrite(r: Ring, data: seq<Byte>): Ring
    requires r.Valid() && SpaceFree(r) >= 0
  {
    var n := WriteCount(r, |data|);
    var wp := r.wp + n;
    Ring(r.cells[..r.wp] + data[..n] + r.cells[wp..], r.rp, if wp == |r.cells| then 0 else wp)
  }

  lemma SpaceIs(r: Ring)
    requires r.Valid()
    ensures SpaceFree(r) == if r.rp > r.wp then r.rp - r.wp - 1 else |r.cells| - 1 - (r.wp - r.rp)
  {
    var size := |r.cells|;
    if r.rp > r.wp {
      Quotient(size, 1, r.rp - r.wp, r.rp + size - r.wp);
    } else if r.rp < r.wp {
      QuotientOfSmall(r.rp + size - r.wp, size);
    }
  }

  /** Full and empty are told apart: a full ring keeps one cell unused. */
  lemma SpaceIsExact(r: Ring)
    requires r.Valid()
    ensures SpaceFree(r) == |r.cells| - 1 - |Contents(r)| && 0 <= SpaceFree(r) < |r.cells|
    ensures r.rp == r.wp <==> Contents(r) == []
  {
    hide SpaceFree;
    SpaceIs(r);
  }

  /** A read takes the oldest bytes, at least one unless none are asked for. */
  lemma ReadTakesOldest(r: Ring, count: nat)
    requires r.Valid() && r.rp != r.wp
    ensures var n := ReadCount(r, count); var r' := AfterRead(r, count);
      && r'.Valid() && n <= count && (count > 0 ==> n > 0) && r.rp + n <= |r.cells|
      && Contents(r) == r.cells[r.rp..r.rp + n] + Contents(r')
  {
    var n := ReadCount(r, count);
    var c := r.cells;
    if r.rp > r.wp {
      Split(c, r.rp, n, |c|);
      assert c[r.rp..] == c[r.rp..|c|] && c[r.rp + n..] == c[r.rp + n..|c|];
      if r.rp + n == |c| {
        assert c[0..r.wp] == c[..r.wp] && c[r.rp + n..] == [];
      }
      assert c[r.rp..r.rp + n] + c[r.rp + n..] + c[..r.wp] == c[r.rp..r.rp + n] + (c[r.rp + n..] + c[..r.wp]);
    } else {
      Split(c, r.rp, n, r.wp);
    }
  }

  lemma Split(c: seq<Byte>, at: nat, n: nat, end: nat)
    requires at + n <= end <= |c|
    ensures c[at..end] == c[at..at + n] + c[at + n..end]
  {
  }

  /** A write appends the first of its bytes, at least one if there is space and it has any. */
  lemma WriteAppends(r: Ring, data: seq<Byte>)
    requires r.Valid() && SpaceFree(r) >= 0
    ensures var n := WriteCount(r, |data|); var r' := AfterWrite(r, data);
      && r'.Valid() && |r'.cells| == |r.cells| && n <= |data| && r.wp + n <= |r.cells|
        && (SpaceFree(r) > 0 && data != [] ==> n > 0)
      && Contents(r') == Contents(r) + data[..n]
  {
    hide SpaceFree, WriteCount, AfterWrite;
    WriteShape(r, data);
    var n := WriteCount(r, |data|);
    var a, d, z := r.cells[..r.wp], data[..n], r.cells[r.wp + n..];
    assert r.cells == a + r.cells[r.wp..];
    if r.rp <= r.wp {
      Ahead(r, a, d, z);
    } else {
      Around(r, a, d, z);
    }
  }

  /** What follows the read position without wrapping is longer by the bytes written behind it. */
  lemma Ahead(r: Ring, a: seq<Byte>, d: seq<Byte>, z: seq<Byte>)
    requires r.Valid() && r.rp <= r.wp == |a| && a == r.cells[..r.wp] && |a + d + z| == |r.cells|
    requires |a| + |d| == |r.cells| ==> r.rp > 0
    ensures var wp := |a| + |d|;
      Contents(Ring(a + d + z, r.rp, if wp == |r.cells| then 0 else wp)) == Contents(r) + d
  {
    BeforeSplice(a, d, z, r.rp);
    assert r.cells[r.rp..r.wp] == a[r.rp..];
    if |a| + |d| == |r.cells| {
      assert (a + d + z)[r.rp..] == (a + d + z)[r.rp..|a| + |d|];
    }
  }

  /** Where the queue wraps the bytes written lengthen the part at the buffer's start. */
  lemma Around(r: Ring, a: seq<Byte>, d: seq<Byte>, z: seq<Byte>)
    requires r.Valid() && r.wp == |a| && |a| + |d| < r.rp && a == r.cells[..r.wp]
    requires z == r.cells[|a| + |d|..]
    ensures Contents(Ring(a + d + z, r.rp, |a| + |d|)) == Contents(r) + d
  {
    AfterSplice(a, d, z, r.rp);
    assert r.cells[r.rp..] == z[r.rp - |a| - |d|..];
    assert r.cells[r.rp..] + (a + d) == r.cells[r.rp..] + a + d;
  }

  /** The write position never catches up with the read position. */
  lemma WriteShape(r: Ring, data: seq<Byte>)
    requires r.Valid() && SpaceFree(r) >= 0
    ensures var n := WriteCount(r, |data|);
      && n <= |data| && r.wp + n <= |r.cells| && (SpaceFree(r) > 0 && data != [] ==> n > 0)
      && (r.rp > r.wp ==> r.wp + n < r.rp) && (r.wp + n == |r.cells| && r.rp <= r.wp ==> r.rp > 0)
      && AfterWrite(r, data) == Ring(r.cells[..r.wp] + data[..n] + r.cells[r.wp + n..], r.rp,
        if r.wp + n == |r.cells| then 0 else r.wp + n)
  {
    hide SpaceFree;
    SpaceIs(r);
  }

  lemma BeforeSplice(a: seq<Byte>, d: seq<Byte>, z: seq<Byte>, from: nat)
    requires from <= |a|
    ensures (a + d + z)[from..|a| + |d|] == a[from..] + d
  {
  }

  lemma AfterSplice(a: seq<Byte>, d: seq<Byte>, z: seq<Byte>, from: nat)
    requires |a| + |d| <= from <= |a| + |d| + |z|
    ensures (a + d + z)[from..] == z[from - |a| - |d|..] && (a + d + z)[..|a| + |d|] == a + d
  {
  }

  /** A read ends where its count, what was queued or the buffer does, and no sooner. */
  lemma ReadEnds(r: Ring, count: nat)
    requires r.Valid() && r.rp != r.wp
    ensures var n := ReadCount(r, count); var r' := AfterRead(r, count);
      && |Contents(r)| == n + |Contents(r')|
      && (n == count || Contents(r') == [] || r.rp + n == |r.cells|)
      && r'.rp == (if r.rp + n == |r.cells| then 0 else r.rp + n)
  {
    ReadTakesOldest(r, count);
  }

  /** A write ends where its data, the free space or the buffer does, and no sooner. */
  lemma WriteEnds(r: Ring, data: seq<Byte>)
    requires r.Valid()
    ensures SpaceFree(r) >= 0
    ensures var n := WriteCount(r, |data|); var r' := AfterWrite(r, data);
      && |Contents(r')| == |Contents(r)| + n
      && (n == |data| || |Contents(r')| == |r.cells| - 1 || r.wp + n == |r.cells|)
      && r'.rp == r.rp && r'.wp == (if r.wp + n == |r.cells| then 0 else r.wp + n)
  {
    SpaceIsExact(r);
    WriteAppends(r, data);
    hide Contents, SpaceFree;
    SpaceIs(r);
  }

  // ----- the device -----

  class Pipe {
    const buffer: array<Byte>
    var rp: nat
    var wp: nat

    predicate Valid()
      reads this
    {
      rp < buffer.Length && wp < buffer.Length
    }

    function Value(): Ring
      reads this, buffer
    {
      Ring(buffer[..], rp, wp)
    }

    constructor (size: nat)
      requires size > 0
      ensures Valid() && fresh(buffer) && buffer.Length == size && Contents(Value()) == []
    {
      buffer := new Byte[size](_ => 0);
      rp, wp := 0, 0;
    }

    /** What a reader does once it holds the lock and data is there. */
    method TakeOut(wanted: nat) returns (s: seq<Byte>)
      requires Valid() && rp != wp
      modifies `rp
      ensures Valid() && Value() == AfterRead(old(Value()), wanted)
      ensures s == old(buffer[..])[old(rp)..old(rp) + old(ReadCount(Value(), wanted))]
      ensures old(Contents(Value())) == s + Contents(Value())
    {
      hide Contents, SpaceFree;
      ReadTakesOldest(Value(), wanted);
      var count := wanted;
      if wp > rp {
        count := Min(count, wp - rp);
      } else {
        count := Min(count, buffer.Length - rp);
      }
      s := buffer[rp..rp + count];
      rp := rp + count;
      if rp == buffer.Length {
        rp := 0;
      }
    }

    method CopyIn(s: seq<Byte>)
      requires wp + |s| <= buffer.Length
      modifies buffer
      ensures buffer[..] == old(buffer[..wp]) + s + old(buffer[wp + |s|..])
    {
      forall i | 0 <= i < |s| {
        buffer[wp + i] := s[i];
      }
    }

    /** What a writer does once it holds the lock and there is space. */
    method PutIn(data: seq<Byte>) returns (count: nat)
      requires Valid() && SpaceFree(Value()) != 0
      modifies `wp, buffer
      ensures Valid() && count == old(WriteCount(Value(), |data|))
      ensures Value() == old(AfterWrite(Value(), data))
      ensures Contents(Value()) == old(Contents(Value())) + data[..count]
    {
      hide Contents, SpaceFree;
      ghost var was := Value();
      SpaceIsExact(Value());
      WriteAppends(Value(), data);
      count := Min(|data|, SpaceFree(Value()));
      if wp >= rp {
        count := Min(count, buffer.Length - wp);
      } else {
        count := Min(count, rp - wp - 1);
      }
      assert count == WriteCount(was, |data|);
      CopyIn(data[..count]);
      wp := wp + count;
      if wp == buffer.Length {
        wp := 0;
      }
    }
  }

  // ----- processes -----

  datatype Option<T> = None | Some(value: T)

  datatype Call = Reading(count: nat) | Writing(data: seq<Byte>)

  /** Where a process is: outside the device; about to take the lock, for the first time or again;
      without the lock and about to queue itself; queued and about to test the ring once more; tested
      and about to sleep, or asleep; done, and about to wake the other side. `woken` tells that a
      wake-up has come since it queued itself: it will not sleep. */
  datatype Proc =
    | Outside
    | Locking(call: Call)
    | Queueing(call: Call)
    | Testing(call: Call, woken: bool)
    | Sleeping(call: Call, woken: bool)
    | Waking(call: Call)

  datatype State = State(ring: Ring, procs: seq<Proc>, accepted: seq<Byte>, delivered: seq<Byte>)

  /** What a process does next, where it has a choice. */
  datatype Act = Enter(call: Call) | TakeLock | GiveUp | Queue | Test | Resume | WakeOthers

  /** What a call waits for: a ring that is not empty, or not full. */
  predicate Satisfied(r: Ring, c: Call)
    requires r.Valid()
  {
    match c
    case Reading(_) => r.rp != r.wp
    case Writing(_) => SpaceFree(r) != 0
  }

  predicate Enabled(p: Proc, a: Act) {
    match a
    case Enter(_) => p.Outside?
    case TakeLock => p.Locking?
    case GiveUp => p.Locking? || p.Queueing? || p.Sleeping?
    case Queue => p.Queueing?
    case Test => p.Testing?
    case Resume => p.Sleeping? && p.woken
    case WakeOthers => p.Waking?
  }

  /** A wake-up reaches whoever waits for what `c` brought about. */
  function Woken(p: Proc, c: Call): Proc {
    match p
    case Testing(d, w) => Testing(d, w || d.Reading? != c.Reading?)
    case Sleeping(d, w) => Sleeping(d, w || d.Reading? != c.Reading?)
    case _ => p
  }

  function WakeAll(procs: seq<Proc>, c: Call): (r: seq<Proc>)
    ensures |r| == |procs|
    ensures forall i :: 0 <= i < |procs| ==> r[i] == Woken(procs[i], c)
  {
    if procs == [] then [] else WakeAll(procs[..|procs| - 1], c) + [Woken(procs[|procs| - 1], c)]
  }

  /** The locked section of a call: move bytes if it can, otherwise release the lock and wait. */
  function Locked(s: State, i: nat, c: Call): State
    requires i < |s.procs| && s.ring.Valid()
  {
    if !Satisfied(s.ring, c) then s.(procs := s.procs[i := Queueing(c)])
    else
      var procs := s.procs[i := Waking(c)];
      match c
      case Reading(count) =>
        ReadTakesOldest(s.ring, count);
        var n := ReadCount(s.ring, count);
        State(AfterRead(s.ring, count), procs, s.accepted, s.delivered + s.ring.cells[s.ring.rp..s.ring.rp + n])
      case Writing(data) =>
        SpaceIsExact(s.ring);
        WriteAppends(s.ring, data);
        var n := WriteCount(s.ring, |data|);
        State(AfterWrite(s.ring, data), procs, s.accepted + data[..n], s.delivered)
  }

  function Do(s: State, i: nat, a: Act): State
    requires i < |s.procs| && s.ring.Valid() && Enabled(s.procs[i], a)
  {
    match a
    case Enter(c) => s.(procs := s.procs[i := Locking(c)])
    case TakeLock => Locked(s, i, s.procs[i].call)
    case GiveUp => s.(procs := s.procs[i := Outside])
    case Queue => s.(procs := s.procs[i := Testing(s.procs[i].call, false)])
    case Test =>
      var c := s.procs[i].call;
      s.(procs := s.procs[i := if Satisfied(s.ring, c) then Locking(c) else Sleeping(c, s.procs[i].woken)])
    case Resume =>
      // a reader queues itself again to test, a writer goes for the lock
      var c := s.procs[i].call;
      s.(procs := s.procs[i := if c.Reading? then Queueing(c) else Locking(c)])
    case WakeOthers => s.(procs := WakeAll(s.procs, s.procs[i].call)[i := Outside])
  }

  // ----- what every step keeps -----

  /** The call a process is in, if it is in one. */
  function CallOf(p: Proc): Option<Call> {
    if p.Outside? then None else Some(p.call)
  }

  /** A process is in its call from entering until it gives up or has woken the others; only who gets the
      lock transfers anything, and no step but a process's own changes where it is. */
  lemma StaysInCall(s: State, i: nat, a: Act, j: nat)
    requires s.ring.Valid() && i < |s.procs| && j < |s.procs| && Enabled(s.procs[i], a)
    ensures var s' := Do(s, i, a);
      && |s'.procs| == |s.procs|
      && CallOf(s'.procs[i]) == (if a.Enter? then Some(a.call) else if a.GiveUp? || a.WakeOthers? then None
                                 else CallOf(s.procs[i]))
      && (j != i ==> CallOf(s'.procs[j]) == CallOf(s.procs[j]))
      && (j != i && (!a.WakeOthers? || CallOf(s.procs[j]) == None) ==> s'.procs[j] == s.procs[j])
      && (!a.TakeLock? ==> s' == s.(procs := s'.procs))
  {
    hide Contents, SpaceFree, ReadCount, WriteCount, AfterRead, AfterWrite;
  }

  /** Who gets the lock transfers bytes if the ring lets it, the oldest ones or the first of its own, and at
      least one of those it asks for; then it only has to wake the others. Otherwise it queues itself. */
  lemma LockTransfers(s: State, i: nat)
    requires s.ring.Valid() && i < |s.procs| && Enabled(s.procs[i], TakeLock)
    ensures var c, s' := s.procs[i].call, Do(s, i, TakeLock);
      && s'.ring.Valid() && (s'.procs[i] == if Satisfied(s.ring, c) then Waking(c) else Queueing(c))
      && (!Satisfied(s.ring, c) ==> s' == s.(procs := s'.procs))
      && (Satisfied(s.ring, c) && c.Reading? ==>
            && s'.accepted == s.accepted && |s.delivered| <= |s'.delivered| <= |s.delivered| + c.count
            && s'.delivered + Contents(s'.ring) == s.delivered + Contents(s.ring)
            && (c.count > 0 ==> |s'.delivered| > |s.delivered|))
      && (Satisfied(s.ring, c) && c.Writing? ==>
            && s'.delivered == s.delivered && s.accepted <= s'.accepted <= s.accepted + c.data
            && |Contents(s'.ring)| - |Contents(s.ring)| == |s'.accepted| - |s.accepted|
            && (c.data != [] ==> |s'.accepted| > |s.accepted|))
  {
    hide Contents, SpaceFree, ReadCount, WriteCount, AfterRead, AfterWrite;
    SpaceIsExact(s.ring);
    match s.procs[i].call
    case Reading(count) =>
      if s.ring.rp != s.ring.wp {
        ReadTakesOldest(s.ring, count);
      }
    case Writing(data) =>
      if SpaceFree(s.ring) != 0 {
        WriteAppends(s.ring, data);
        assert data[..WriteCount(s.ring, |data|)] <= data;
      }
  }

  /** Somebody has moved bytes and is still to wake those who wait for that. */
  predicate Owed(procs: seq<Proc>, c: Call) {
    exists j :: 0 <= j < |procs| && procs[j].Waking? && procs[j].call.Reading? != c.Reading?
  }

  /** A process sleeps in spite of what it waits for only while a wake-up is owed. */
  predicate NoneForgotten(s: State)
    requires s.ring.Valid()
  {
    forall i ::
      0 <= i < |s.procs| && s.procs[i].Sleeping? && !s.procs[i].woken && Satisfied(s.ring, s.procs[i].call) ==>
      Owed(s.procs, s.procs[i].call)
  }

  /** What is delivered is what was accepted, in order, less what is still in the ring. */
  predicate Inv(s: State) {
    && s.ring.Valid()
    && s.accepted == s.delivered + Contents(s.ring)
    && NoneForgotten(s)
  }

  lemma StartsWell(size: nat, procs: nat)
    requires size > 0
    ensures Inv(Initial(size, procs))
  {
  }

  function Initial(size: nat, procs: nat): State
    requires size > 0
  {
    State(Ring(seq(size, _ => 0), 0, 0), seq(procs, _ => Outside), [], [])
  }

  /** A process that has no wake-up to give changes place, the ring stays. */
  lemma OneMoves(s: State, i: nat, p: Proc)
    requires Inv(s) && i < |s.procs| && !s.procs[i].Waking?
    requires p.Sleeping? ==> p.woken || !Satisfied(s.ring, p.call)
    ensures Inv(s.(procs := s.procs[i := p]))
  {
    hide SpaceFree, Contents, Satisfied;
    var s' := s.(procs := s.procs[i := p]);
    forall k | 0 <= k < |s'.procs| && s'.procs[k].Sleeping? && !s'.procs[k].woken
      && Satisfied(s'.ring, s'.procs[k].call)
      ensures Owed(s'.procs, s'.procs[k].call)
    {
      StillOwed(s.procs, i, p, s.procs[k].call);
    }
  }

  lemma StillOwed(procs: seq<Proc>, i: nat, p: Proc, c: Call)
    requires i < |procs| && Owed(procs, c)
    requires procs[i].Waking? ==> procs[i].call.Reading? == c.Reading?
    ensures Owed(procs[i := p], c)
  {
    var j :| 0 <= j < |procs| && procs[j].Waking? && procs[j].call.Reading? != c.Reading?;
    assert procs[i := p][j] == procs[j];
  }

  lemma LockedKeeps(s: State, i: nat, c: Call)
    requires Inv(s) && i < |s.procs| && s.procs[i] == Locking(c) && Satisfied(s.ring, c)
    ensures Inv(Locked(s, i, c)) && |Locked(s, i, c).ring.cells| == |s.ring.cells|
  {
    hide SpaceFree, Contents, ReadCount, WriteCount, AfterRead, AfterWrite;
    SpaceIsExact(s.ring);
    var s' := Locked(s, i, c);
    MovesInOrder(s, i, c);
    SpaceIsExact(s'.ring);
    forall k | 0 <= k < |s'.procs| && s'.procs[k].Sleeping? && !s'.procs[k].woken
      && Satisfied(s'.ring, s'.procs[k].call)
      ensures Owed(s'.procs, s'.procs[k].call)
    {
      var d := s'.procs[k].call;
      if d.Reading? == c.Reading? {
        assert Satisfied(s.ring, d);
        StillOwed(s.procs, i, Waking(c), d);
      } else {
        assert s'.procs[i] == Waking(c);
      }
    }
  }

  lemma MovesInOrder(s: State, i: nat, c: Call)
    requires Inv(s) && i < |s.procs| && Satisfied(s.ring, c)
    ensures var s' := Locked(s, i, c);
      && s'.ring.Valid() && |s'.ring.cells| == |s.ring.cells| && s'.procs == s.procs[i := Waking(c)]
      && s'.accepted == s'.delivered + Contents(s'.ring)
  {
    hide Contents, ReadCount, WriteCount, NoneForgotten;
    SpaceIsExact(s.ring);
    match c
    case Reading(count) =>
      ReadTakesOldest(s.ring, count);
      var n := ReadCount(s.ring, count);
      assert s.delivered + (s.ring.cells[s.ring.rp..s.ring.rp + n] + Contents(AfterRead(s.ring, count)))
          == s.delivered + s.ring.cells[s.ring.rp..s.ring.rp + n] + Contents(AfterRead(s.ring, count));
    case Writing(data) =>
      WriteAppends(s.ring, data);
      var n := WriteCount(s.ring, |data|);
      assert s.delivered + Contents(s.ring) + data[..n] == s.delivered + (Contents(s.ring) + data[..n]);
  }

  lemma WakingKeeps(s: State, i: nat, c: Call)
    requires Inv(s) && i < |s.procs| && s.procs[i] == Waking(c)
    ensures Inv(s.(procs := WakeAll(s.procs, c)[i := Outside]))
  {
    hide SpaceFree, Contents, Satisfied;
    var woken := WakeAll(s.procs, c);
    var s' := s.(procs := woken[i := Outside]);
    forall k | 0 <= k < |s'.procs| && s'.procs[k].Sleeping? && !s'.procs[k].woken
      && Satisfied(s'.ring, s'.procs[k].call)
      ensures Owed(s'.procs, s'.procs[k].call)
    {
      var d := s.procs[k].call;
      var j :| 0 <= j < |s.procs| && s.procs[j].Waking? && s.procs[j].call.Reading? != d.Reading?;
      assert woken[j] == s.procs[j] && s'.procs[j] == woken[j];
    }
  }

  lemma EveryStepKeeps(s: State, i: nat, a: Act)
    requires Inv(s) && i < |s.procs| && Enabled(s.procs[i], a)
    ensures Inv(Do(s, i, a)) && |Do(s, i, a).procs| == |s.procs| && |Do(s, i, a).ring.cells| == |s.ring.cells|
  {
    hide SpaceFree, Contents, Inv;
    InvIsValid(s);
    match a
    case WakeOthers => WakingKeeps(s, i, s.procs[i].call);
    case TakeLock =>
      var c := s.procs[i].call;
      if Satisfied(s.ring, c) {
        MovesInOrder(s, i, c);
        LockedKeeps(s, i, c);
      } else {
        OneMoves(s, i, Queueing(c));
      }
    case _ => OneMoves(s, i, Do(s, i, a).procs[i]);
  }

  lemma InvIsValid(s: State)
    requires Inv(s)
    ensures s.ring.Valid()
  {
  }

  // ----- runs -----

  /** `acts` can be taken one after the other from `s`. */
  predicate CanRun(s: State, acts: seq<(nat, Act)>)
    requires Inv(s)
    decreases |acts|
  {
    acts == [] ||
    (acts[0].0 < |s.procs| && Enabled(s.procs[acts[0].0], acts[0].1) &&
     (EveryStepKeeps(s, acts[0].0, acts[0].1); CanRun(Do(s, acts[0].0, acts[0].1), acts[1..])))
  }

  function RunOf(s: State, acts: seq<(nat, Act)>): State
    requires Inv(s) && CanRun(s, acts)
    decreases |acts|
  {
    if acts == [] then s
    else
      EveryStepKeeps(s, acts[0].0, acts[0].1);
      RunOf(Do(s, acts[0].0, acts[0].1), acts[1..])
  }

  /** In every interleaving: what was accepted before the run and in it is delivered in order, what is
      accepted and delivered only grows, and nobody is forgotten asleep. */
  lemma {:induction false} EveryRun(s: State, acts: seq<(nat, Act)>)
    requires Inv(s) && CanRun(s, acts)
    ensures var e := RunOf(s, acts);
      Inv(e) && s.delivered <= e.delivered <= e.accepted && s.accepted <= e.accepted && |e.ring.cells| == |s.ring.cells|
    decreases |acts|
  {
    hide Contents, SpaceFree, Enabled;
    if acts != [] {
      var i, a := acts[0].0, acts[0].1;
      EveryStepKeeps(s, i, a);
      StepGrows(s, i, a);
      EveryRun(Do(s, i, a), acts[1..]);
    }
  }

  lemma StepGrows(s: State, i: nat, a: Act)
    requires Inv(s) && i < |s.procs| && Enabled(s.procs[i], a)
    ensures var e := Do(s, i, a); s.delivered <= e.delivered && s.accepted <= e.accepted
  {
    hide Contents, SpaceFree;
  }

  /** Nobody can move but by entering or giving up: every process is outside or asleep. */
  predicate Stuck(s: State) {
    forall i :: 0 <= i < |s.procs| ==> s.procs[i].Outside? || (s.procs[i].Sleeping? && !s.procs[i].woken)
  }

  /** When nothing moves, every sleeping reader faces an empty pipe and every sleeping writer a full
      one; a pipe of two cells or more never has both asleep. */
  lemma SleepForAReason(s: State, i: nat, j: nat)
    requires Inv(s) && Stuck(s) && i < |s.procs| && j < |s.procs| && s.procs[i].Sleeping? && s.procs[j].Sleeping?
    ensures s.procs[i].call.Reading? ==> Contents(s.ring) == []
    ensures s.procs[i].call.Writing? ==> |Contents(s.ring)| == |s.ring.cells| - 1
    ensures s.procs[i].call.Reading? != s.procs[j].call.Reading? ==> |s.ring.cells| == 1
  {
    hide Contents, SpaceFree;
    SpaceIsExact(s.ring);
    assert !Owed(s.procs, s.procs[i].call) && !Owed(s.procs, s.procs[j].call);
  }
}
