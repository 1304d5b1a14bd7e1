/** A printer driver's output: one writer fills a page-sized ring, a work handler prints from it. */
module ShortPrint {
  import opened Arithmetic

  type Byte = b: int | 0 <= b < 256

  // ----- the ring -----

  /** How far `h` is ahead of `t` on a ring of `n` cells. */
  function Ahead(n: nat, t: nat, h: nat): nat
    requires t < n && h < n
  {
    if h >= t then h - t else h + n - t
  }

  /** The contiguous space after the head, from two reads of the tail: the handler may move it between
      them, and the result may then be negative. */
  function OutSpace(n: nat, head: nat, first: nat, second: nat): int {
    if head >= first then
      if second == 0 then n - head - 1 else n - head
    else second - head - 1
  }

  function Advance(n: nat, p: nat, k: nat): nat {
    if p + k >= n then p + k - n else p + k
  }

  /** The bytes to print, oldest first. */
  function Unsent(cells: seq<Byte>, tail: nat, head: nat): seq<Byte>
    requires tail < |cells| && head < |cells|
  {
    if head >= tail then cells[tail..head] else cells[tail..] + cells[..head]
  }

  // ----- the writer and the handler -----

  /** Which test of the space this is: the first, the one before queueing, or one made while queued;
      `woken` tells of a wake-up since queueing. */
  datatype Round = First | Second | Queued(woken: bool)

  /** Where the writer is, with the data it has still to write: outside; about to read the tail, or
      to read it again; about to queue itself; asleep (or about to be); with `n` cells found free and
      about to fill them; having filled them; having moved the head and about to test the flag. */
  datatype Writer =
    | Outside
    | Looking(data: seq<Byte>, round: Round)
    | LookingAgain(data: seq<Byte>, round: Round, first: nat)
    | Queueing(data: seq<Byte>)
    | Sleeping(data: seq<Byte>, woken: bool)
    | Filling(data: seq<Byte>, n: nat)
    | Filled(data: seq<Byte>, n: nat)
    | Moved(data: seq<Byte>)

  /** Where the handler is: not at work; or, with the lock, having compared head and tail; or having
      acted on that and about to wake the writer and release the lock. */
  datatype Handler = AtRest | Compared(empty: bool) | Acted

  datatype State = State(cells: seq<Byte>, head: nat, tail: nat, active: bool, queued: bool,
                         writer: Writer, handler: Handler, accepted: seq<Byte>, printed: seq<Byte>)

  datatype Act =
    | Enter(data: seq<Byte>) | ReadTail | ReadAgain | Queue | WakeUp | Signal | Fill | Fault | MoveHead | TestFlag
    | Start | Handle | Finish | Interrupt

  predicate Enabled(s: State, a: Act) {
    match a
    case Enter(data) => s.writer.Outside? && data != []
    case ReadTail => s.writer.Looking?
    case ReadAgain => s.writer.LookingAgain?
    case Queue => s.writer.Queueing?
    case WakeUp => s.writer.Sleeping? && s.writer.woken
    case Signal => s.writer.Sleeping?
    case Fill => s.writer.Filling?
    case Fault => s.writer.Filling?
    case MoveHead => s.writer.Filled?
    case TestFlag => s.writer.Moved? && s.handler.AtRest?
    case Start => s.queued && s.handler.AtRest?
    case Handle => s.handler.Compared?
    case Finish => s.handler.Acted?
    case Interrupt => s.active
  }

  predicate Shaped(s: State) {
    && |s.cells| >= 4 && s.head < |s.cells| && s.tail < |s.cells|
    && match s.writer
       case Looking(data, _) => data != []
       case LookingAgain(data, _, first) => data != [] && first < |s.cells|
       case Queueing(data) => data != []
       case Sleeping(data, _) => data != []
       case Filling(data, n) => RoomFor(s, data, n)
       case Filled(data, n) => RoomFor(s, data, n) && s.cells[s.head..s.head + n] == data[..n]
       case _ => true
  }

  /** `n` cells from the head on are free and do not wrap, and one more stays free. */
  predicate RoomFor(s: State, data: seq<Byte>, n: nat)
    requires s.head < |s.cells| && s.tail < |s.cells|
  {
    0 < n <= |data| && s.head + n <= |s.cells| && Ahead(|s.cells|, s.tail, s.head) + n < |s.cells|
  }

  /** What the writer does once it has computed the space. */
  function Measured(data: seq<Byte>, round: Round, space: int): Writer {
    if space > 0 then Filling(data, if space > |data| then |data| else space)
    else
      match round
      case First => Looking(data, Second)
      case Second => Queueing(data)
      case Queued(woken) => Sleeping(data, woken)
  }

  /** The handler wakes the writer when more than half the ring is free; an empty ring counts as 0. */
  predicate Wakes(n: nat, tail: nat, head: nat)
    requires tail < n && head < n
  {
    (n + tail - head) % n > n / 2
  }

  function Woken(w: Writer): Writer {
    match w
    case Looking(data, Queued(_)) => Looking(data, Queued(true))
    case LookingAgain(data, Queued(_), first) => LookingAgain(data, Queued(true), first)
    case Sleeping(data, _) => Sleeping(data, true)
    case _ => w
  }

  function Do(s: State, a: Act): State
    requires Shaped(s) && Enabled(s, a)
  {
    var n := |s.cells|;
    match a
    case Enter(data) => s.(writer := Looking(data, First))
    case ReadTail => s.(writer := LookingAgain(s.writer.data, s.writer.round, s.tail))
    case ReadAgain => s.(writer := Measured(s.writer.data, s.writer.round, OutSpace(n, s.head, s.writer.first, s.tail)))
    case Queue => s.(writer := Looking(s.writer.data, Queued(false)))
    case WakeUp => s.(writer := Queueing(s.writer.data))
    case Signal => s.(writer := Outside)
    case Fill =>
      var k := s.writer.n;
      s.(cells := s.cells[..s.head] + s.writer.data[..k] + s.cells[s.head + k..], writer := Filled(s.writer.data, k))
    case Fault => s.(writer := Outside)
    case MoveHead =>
      var k := s.writer.n;
      s.(head := Advance(n, s.head, k), accepted := s.accepted + s.writer.data[..k],
        writer := Moved(s.writer.data[k..]))
    case TestFlag =>
      var w := if s.writer.data == [] then Outside else Looking(s.writer.data, First);
      s.(active := true, queued := s.queued || !s.active, writer := w)
    case Start => s.(queued := false, handler := Compared(s.head == s.tail))
    case Handle =>
      if s.handler.empty then s.(active := false, handler := Acted)
      else s.(printed := s.printed + [s.cells[s.tail]], tail := Advance(n, s.tail, 1), handler := Acted)
    case Finish =>
      s.(writer := if Wakes(n, s.tail, s.head) then Woken(s.writer) else s.writer, handler := AtRest)
    case Interrupt => s.(queued := true)
  }

  // ----- what every step keeps -----

  /** Printed is what was accepted, in order, less what is still in the ring. */
  predicate InOrder(s: State)
    requires Shaped(s)
  {
    s.accepted == s.printed + Unsent(s.cells, s.tail, s.head)
  }

  /** If there is something to print and output is inactive, the writer is about to test the flag. */
  predicate FlagRight(s: State) {
    && (s.head != s.tail && !s.active ==> s.writer.Moved?)
    && (s.handler == Compared(true) && s.head != s.tail ==> s.writer.Moved?)
    && (s.handler == Compared(false) ==> s.head != s.tail)
  }

  function Used(s: State): nat
    requires Shaped(s)
  {
    Ahead(|s.cells|, s.tail, s.head)
  }

  /** At least the share of the ring that keeps the handler from waking the writer is in use. */
  predicate Crowded(s: State)
    requires Shaped(s)
  {
    Used(s) >= |s.cells| - |s.cells| / 2
  }

  /** Asleep for nothing: the ring is empty, with both ends at its start. */
  predicate Forgotten(s: State) {
    s.writer.Sleeping? && !s.writer.woken && s.head == 0 && s.tail == 0
  }

  /** A tail read earlier: only the handler has moved the tail since, towards the head. For a queued
      writer that has not been woken it has moved one cell at most, or the ring is or was crowded. */
  predicate TailKnown(s: State)
    requires Shaped(s)
  {
    s.writer.LookingAgain? ==>
      && Ahead(|s.cells|, s.writer.first, s.head) >= Used(s)
      && (s.writer.round == Queued(false) ==>
            || s.tail == s.writer.first || Crowded(s)
            || (s.tail == Advance(|s.cells|, s.writer.first, 1) && (Used(s) == 0 || s.handler.Acted?))
            || (s.handler.Acted? && Used(s) + 1 >= |s.cells| - |s.cells| / 2))
  }

  /** A writer that sleeps and has not been woken sleeps while the ring is crowded, or the handler is
      about to wake it, or it is forgotten. */
  predicate SleepsRight(s: State)
    requires Shaped(s)
  {
    s.writer.Sleeping? && !s.writer.woken ==> Crowded(s) || (s.handler.Acted? && Used(s) > 0) || Forgotten(s)
  }

  predicate Inv(s: State) {
    Shaped(s) && InOrder(s) && FlagRight(s) && TailKnown(s) && SleepsRight(s)
  }

  /** The space found is there: between two reads of the tail it can only have grown. */
  lemma SpaceIsFree(n: nat, head: nat, first: nat, second: nat)
    requires head < n && first < n && second < n && Ahead(n, first, head) >= Ahead(n, second, head)
    ensures var space := OutSpace(n, head, first, second);
      head + space <= n && (space > 0 ==> Ahead(n, second, head) + space < n)
  {
  }

  /** No space is found only in a full ring, or when the tail wrapped between the two reads. */
  lemma NoSpace(n: nat, head: nat, first: nat, second: nat)
    requires n >= 4 && head < n && first < n && second < n && Ahead(n, first, head) >= Ahead(n, second, head)
    requires OutSpace(n, head, first, second) <= 0
    ensures Ahead(n, second, head) == n - 1 || (second <= head < first)
  {
  }

  lemma WakesIs(n: nat, tail: nat, head: nat)
    requires n >= 4 && tail < n && head < n
    ensures Wakes(n, tail, head) <==> 0 < Ahead(n, tail, head) < n - n / 2
  {
    var u := Ahead(n, tail, head);
    if u == 0 {
      QuotientOfSmall(0, n);
      Quotient(n, 1, 0, n + tail - head);
    } else if head >= tail {
      QuotientOfSmall(n - u, n);
    } else {
      Quotient(n, 1, n - u, n + tail - head);
    }
  }

  lemma PrintsOldest(cells: seq<Byte>, tail: nat, head: nat)
    requires tail < |cells| && head < |cells| && tail != head
    ensures var t := Advance(|cells|, tail, 1);
      && t < |cells| && Ahead(|cells|, t, head) == Ahead(|cells|, tail, head) - 1
      && Unsent(cells, tail, head) == [cells[tail]] + Unsent(cells, t, head)
  {
    if head < tail {
      assert cells[tail..] == [cells[tail]] + cells[tail + 1..];
    }
  }

  /** Filling free cells does not touch what is still to be printed. */
  lemma FillKeepsUnsent(s: State)
    requires Shaped(s) && s.writer.Filling?
    ensures var s' := Do(s, Fill);
      Shaped(s') && Unsent(s'.cells, s'.tail, s'.head) == Unsent(s.cells, s.tail, s.head)
  {
    var k, c := s.writer.n, Do(s, Fill).cells;
    Spliced(s.cells, s.head, s.writer.data[..k]);
    if s.head >= s.tail {
      assert c[s.tail..s.head] == c[..s.head][s.tail..] == s.cells[..s.head][s.tail..];
    } else {
      assert c[s.tail..] == c[s.head + k..][s.tail - s.head - k..];
    }
  }

  lemma Spliced(c: seq<Byte>, at: nat, d: seq<Byte>)
    requires at + |d| <= |c|
    ensures var r := c[..at] + d + c[at + |d|..];
      |r| == |c| && r[..at] == c[..at] && r[at..at + |d|] == d && r[at + |d|..] == c[at + |d|..]
  {
  }

  lemma MoveAppends(s: State)
    requires Shaped(s) && s.writer.Filled?
    ensures var s' := Do(s, MoveHead);
      && Shaped(s') && Used(s') == Used(s) + s.writer.n
      && Unsent(s'.cells, s'.tail, s'.head) == Unsent(s.cells, s.tail, s.head) + s.writer.data[..s.writer.n]
  {
    var k := s.writer.n;
    UnsentMore(s.cells, s.tail, s.head, k);
    assert s.cells[s.head..s.head + k] == s.writer.data[..k];
  }

  /** Moving the head over `k` cells that do not reach the tail. */
  lemma UnsentMore(c: seq<Byte>, t: nat, h: nat, k: nat)
    requires t < |c| && h < |c| && h + k <= |c| && Ahead(|c|, t, h) + k < |c|
    ensures var h' := Advance(|c|, h, k);
      && h' < |c| && Ahead(|c|, t, h') == Ahead(|c|, t, h) + k
      && Unsent(c, t, h') == Unsent(c, t, h) + c[h..h + k]
  {
    if h >= t {
      Split(c, t, h, h + k);
      if h + k == |c| {
        assert c[t..] + c[..0] == c[t..h + k];
      }
    } else {
      Split(c, 0, h, h + k);
      assert c[t..] + (c[..h] + c[h..h + k]) == c[t..] + c[..h] + c[h..h + k];
    }
  }

  lemma Split(c: seq<Byte>, i: nat, j: nat, k: nat)
    requires i <= j <= k <= |c|
    ensures c[i..k] == c[i..j] + c[j..k] && (i == 0 ==> c[..k] == c[..j] + c[j..k])
  {
  }

  lemma FillKeeps(s: State)
    requires Inv(s) && s.writer.Filling?
    ensures Inv(Do(s, Fill))
  {
    hide Unsent, Do, Wakes;
    FillKeepsUnsent(s);
    FillChanges(s);
  }

  lemma FillChanges(s: State)
    requires Shaped(s) && s.writer.Filling?
    ensures var s' := Do(s, Fill);
      && s' == s.(cells := s'.cells, writer := s'.writer) && s'.writer.Filled? && |s'.cells| == |s.cells|
  {
  }

  lemma MoveKeeps(s: State)
    requires Inv(s) && s.writer.Filled?
    ensures Inv(Do(s, MoveHead))
  {
    hide Unsent, Wakes;
    MoveAppends(s);
    assert s.printed + Unsent(s.cells, s.tail, s.head) + s.writer.data[..s.writer.n]
        == s.printed + (Unsent(s.cells, s.tail, s.head) + s.writer.data[..s.writer.n]);
  }

  lemma MeasureKeeps(s: State)
    requires Inv(s) && s.writer.LookingAgain?
    ensures Inv(Do(s, ReadAgain))
  {
    hide Unsent, Wakes;
    SpaceIsFree(|s.cells|, s.head, s.writer.first, s.tail);
  }

  lemma HandleKeeps(s: State)
    requires Inv(s) && s.handler.Compared?
    ensures Inv(Do(s, Handle))
  {
    hide Unsent, Wakes, InOrder, OutSpace, Advance, Shaped;
    HandleShaped(s);
    HandleInOrder(s);
    if !s.handler.empty {
      FirstStep(|s.cells|, s.tail, s.head);
    }
  }

  lemma HandleShaped(s: State)
    requires Inv(s) && s.handler.Compared?
    ensures var t := Do(s, Handle);
      && Shaped(s) && Shaped(t) && |s.cells| >= 4 && s.head < |s.cells| && s.tail < |s.cells|
      && (s.writer.LookingAgain? ==> s.writer.first < |s.cells|)
      && (!s.handler.empty ==> s.tail != s.head && Used(t) == Used(s) - 1)
  {
    hide Unsent, Wakes, InOrder, OutSpace, Advance, TailKnown, SleepsRight;
    if !s.handler.empty {
      PrintsOldest(s.cells, s.tail, s.head);
    }
  }

  /** One step of the tail ends at the head only from right behind it. */
  lemma FirstStep(n: nat, t: nat, h: nat)
    requires t < n && h < n && t != h
    ensures Advance(n, t, 1) < n && (Ahead(n, t, h) == 1 <==> Advance(n, t, 1) == h)
  {
  }

  lemma HandleInOrder(s: State)
    requires Inv(s) && s.handler.Compared? && Shaped(Do(s, Handle))
    ensures InOrder(Do(s, Handle))
  {
    hide Unsent, Wakes, TailKnown, SleepsRight;
    if !s.handler.empty {
      PrintsOldest(s.cells, s.tail, s.head);
      var t := Advance(|s.cells|, s.tail, 1);
      assert s.printed + [s.cells[s.tail]] + Unsent(s.cells, t, s.head)
        == s.printed + ([s.cells[s.tail]] + Unsent(s.cells, t, s.head));
    }
  }

  lemma FinishKeeps(s: State)
    requires Inv(s) && s.handler.Acted?
    ensures Inv(Do(s, Finish))
  {
    hide Unsent, Wakes;
    WakesIs(|s.cells|, s.tail, s.head);
  }

  /** In every interleaving of the writer, the handler and the interrupts: what is printed is in order
      and nothing unsent is overwritten, and the flag and the wake-ups are right. */
  lemma EveryStepKeeps(s: State, a: Act)
    requires Inv(s) && Enabled(s, a)
    ensures Inv(Do(s, a)) && |Do(s, a).cells| == |s.cells|
  {
    hide Unsent, Wakes, Advance, OutSpace;
    match a
    case Fill =>
      FillChanges(s);
      FillKeeps(s);
    case MoveHead => MoveKeeps(s);
    case ReadAgain => MeasureKeeps(s);
    case Handle => HandleKeeps(s);
    case Finish => FinishKeeps(s);
    case _ =>
  }

  function Initial(n: nat): State
    requires n >= 4
  {
    State(seq(n, _ => 0), 0, 0, false, false, Outside, AtRest, [], [])
  }

  lemma StartsWell(n: nat)
    requires n >= 4
    ensures Inv(Initial(n))
  {
  }

  // ----- runs -----

  /** A run of the driver from its start on a page of `n` cells. */
  datatype Trace = Begin(n: nat) | Then(before: Trace, act: Act)

  datatype Option<T> = None | Some(value: T)

  /** The state a run ends in; None if some act of it was not possible. */
  function End(t: Trace): Option<State> {
    match t
    case Begin(n) => if n >= 4 then Some(Initial(n)) else None
    case Then(before, a) =>
      match End(before)
      case None => None
      case Some(s) => if Shaped(s) && Enabled(s, a) then Some(Do(s, a)) else None
  }

  lemma {:induction false} EveryRun(t: Trace)
    requires End(t).Some?
    ensures var s := End(t).value; Inv(s) && s.printed <= s.accepted
  {
    hide Unsent, Enabled, Wakes, Advance, OutSpace, Shaped, FlagRight, TailKnown, SleepsRight, Do;
    match t
    case Begin(n) => StartsWell(n);
    case Then(before, a) =>
      EveryRun(before);
      EveryStepKeeps(End(before).value, a);
  }

  // ----- what becomes of the data -----

  /** The data a writer holds and has not written yet. */
  function Held(w: Writer): seq<Byte> {
    match w
    case Outside => []
    case Looking(data, _) => data
    case LookingAgain(data, _, _) => data
    case Queueing(data) => data
    case Sleeping(data, _) => data
    case Filling(data, _) => data
    case Filled(data, _) => data
    case Moved(data) => data
  }

  /** What has been accepted and what the writer still holds, one behind the other. */
  function Taken(s: State): seq<Byte> {
    s.accepted + Held(s.writer)
  }

  /** Every step keeps the data taken from callers, accepted or still to be written: a call adds its data,
      a signal or a fault gives up what is held, and the call ends on its own just when nothing is. */
  lemma StepKeepsData(s: State, a: Act)
    requires Shaped(s) && Enabled(s, a)
    ensures a.Enter? ==> Taken(Do(s, a)) == Taken(s) + a.data && Do(s, a).accepted == s.accepted
    ensures a.Signal? || a.Fault? ==> Do(s, a).accepted == s.accepted && Do(s, a).writer.Outside?
    ensures !a.Enter? && !a.Signal? && !a.Fault? ==> Taken(Do(s, a)) == Taken(s)
    ensures !a.MoveHead? ==> Do(s, a).accepted == s.accepted
    ensures a.TestFlag? ==> (Do(s, a).writer.Outside? <==> Held(s.writer) == [])
    ensures !a.TestFlag? && !a.Signal? && !a.Fault? ==> (Do(s, a).writer.Outside? <==> s.writer.Outside? && !a.Enter?)
  {
    hide Wakes, Advance, OutSpace, Ahead;
    if a.MoveHead? {
      var d, k := s.writer.data, s.writer.n;
      assert d == d[..k] + d[k..];
      assert s.accepted + (d[..k] + d[k..]) == s.accepted + d[..k] + d[k..];
    }
  }

  /** The data of all calls of a run in order, less the ends that were given up. */
  function Entered(t: Trace): seq<Byte>
    requires End(t).Some?
  {
    match t
    case Begin(_) => []
    case Then(before, Enter(data)) => Entered(before) + data
    case Then(before, a) =>
      var s := End(before).value;
      if (a.Signal? || a.Fault?) && |Held(s.writer)| <= |Entered(before)| then
        Entered(before)[..|Entered(before)| - |Held(s.writer)|]
      else Entered(before)
  }

  /** Over any run, what has been accepted is what callers gave, in order and once, less what was given
      up and what the writer inside still holds. */
  lemma {:induction false} NothingLost(t: Trace)
    requires End(t).Some?
    ensures var s := End(t).value;
      Entered(t) == s.accepted + Held(s.writer) && (s.writer.Outside? ==> s.accepted == Entered(t))
  {
    hide Enabled, Shaped, Do, Held;
    match t
    case Begin(n) => StartsEmpty(n);
    case Then(before, a) =>
      NothingLost(before);
      StepKeepsData(End(before).value, a);
      HeldOutside(End(t).value.writer);
  }

  lemma StartsEmpty(n: nat)
    requires n >= 4
    ensures Initial(n).accepted == [] && Held(Initial(n).writer) == []
  {
  }

  lemma HeldOutside(w: Writer)
    ensures w.Outside? ==> Held(w) == []
  {
  }

  /** The printer has been given a byte and has not answered it with an interrupt yet. */
  predicate AnswerDue(t: Trace)
    requires End(t).Some?
  {
    match t
    case Begin(_) => false
    case Then(before, Interrupt) => false
    case Then(before, Handle) => AnswerDue(before) || |End(before).value.printed| < |End(t).value.printed|
    case Then(before, _) => AnswerDue(before)
  }

  /** Output does not stall: while it is active the handler is queued or at work, or the printer owes the
      interrupt for a byte. */
  lemma {:induction false} NeverStalls(t: Trace)
    requires End(t).Some? && End(t).value.active
    ensures End(t).value.queued || End(t).value.handler.Compared? || AnswerDue(t)
  {
    hide Wakes, Advance, OutSpace, Ahead, Shaped;
    match t
    case Begin(n) =>
    case Then(before, a) =>
      if End(before).value.active {
        NeverStalls(before);
      }
  }

  /** A writer that reads the tail twice alike writes until its data, the page or the free space is at
      its end. */
  lemma WritesAll(s: State)
    requires Inv(s) && s.writer.LookingAgain? && s.writer.first == s.tail
    ensures var w := Do(s, ReadAgain).writer;
      && (w.Filling? <==> Used(s) < |s.cells| - 1)
      && (w.Filling? ==> w.n == |s.writer.data| || s.head + w.n == |s.cells| || Used(s) + w.n == |s.cells| - 1)
  {
    hide Unsent, Wakes, Advance, InOrder, FlagRight, TailKnown, SleepsRight;
  }

  /** When nothing is going to happen by itself, everything accepted has been printed, and a sleeping
      writer is a forgotten one. */
  lemma QuietMeansDone(s: State)
    requires Inv(s) && s.handler.AtRest? && !s.queued && !s.active
      && (s.writer.Outside? || (s.writer.Sleeping? && !s.writer.woken))
    ensures s.printed == s.accepted
    ensures s.writer.Sleeping? ==> Forgotten(s)
  {
  }

  /** Whatever the handler and the interrupts do, a forgotten writer stays forgotten. */
  lemma ForgottenForGood(s: State, a: Act)
    requires Inv(s) && Forgotten(s) && Enabled(s, a) && !a.Signal?
    ensures Forgotten(Do(s, a))
  {
    hide Unsent, OutSpace;
    WakesIs(|s.cells|, s.tail, s.head);
  }

  // ----- when a writer is forgotten -----

  /** The second read of a queued writer's test finds the tail back at 0, level with the head, where the
      first read found it behind. */
  predicate Straddles(s: State, a: Act) {
    && a.ReadAgain? && s.writer.LookingAgain? && s.writer.round == Queued(false)
    && s.head == s.tail == 0 < s.writer.first
  }

  /** A step makes a writer a forgotten one if and only if it is such a read. */
  lemma ForgottenExactly(s: State, a: Act)
    requires Inv(s) && Enabled(s, a) && !Forgotten(s)
    ensures Forgotten(Do(s, a)) <==> Straddles(s, a)
  {
    hide Unsent, Wakes;
    if a.ReadAgain? {
      var first := s.writer.first;
      if OutSpace(|s.cells|, s.head, first, s.tail) <= 0 {
        NoSpace(|s.cells|, s.head, first, s.tail);
      }
    }
  }

  /** A run in which no read straddles the wrap. */
  predicate NeverStraddles(t: Trace)
    requires End(t).Some?
  {
    match t
    case Begin(_) => true
    case Then(before, a) => NeverStraddles(before) && !Straddles(End(before).value, a)
  }

  /** If no read straddles the wrap, no writer is ever forgotten. */
  lemma {:induction false} NeverForgotten(t: Trace)
    requires End(t).Some? && NeverStraddles(t)
    ensures Inv(End(t).value) && !Forgotten(End(t).value)
  {
    hide Inv, Enabled, Straddles, Do;
    EveryRun(t);
    match t
    case Begin(n) =>
    case Then(before, a) =>
      NeverForgotten(before);
      ForgottenExactly(End(before).value, a);
  }

  // ----- a writer can be forgotten -----

  lemma Next(t: Trace, s: State, a: Act) returns (t': Trace, s': State)
    requires End(t) == Some(s) && Inv(s) && Shaped(s) && Enabled(s, a)
    ensures s' == Do(s, a) && End(t') == Some(s') && Inv(s') && Shaped(s') && |s'.cells| == |s.cells|
  {
    hide InOrder, FlagRight, TailKnown, SleepsRight, Enabled, Do;
    EveryStepKeeps(s, a);
    t', s' := Then(t, a), Do(s, a);
  }

  /** The writer finds `n` cells free, fills them, and tests the flag. */
  lemma WritesOn(t: Trace, s: State) returns (t': Trace, s': State)
    requires End(t) == Some(s) && Inv(s) && Shaped(s)
    requires s.writer.Looking? && s.writer.round == First && s.handler == AtRest
    requires var k := OutSpace(|s.cells|, s.head, s.tail, s.tail); 0 < k < |s.writer.data|
    ensures End(t') == Some(s') && Inv(s') && Shaped(s') && |s'.cells| == |s.cells|
    ensures var k := OutSpace(|s.cells|, s.head, s.tail, s.tail);
      && s'.head == Advance(|s.cells|, s.head, k) && s'.tail == s.tail && s'.active
      && s'.writer == Looking(s.writer.data[k..], First) && s'.handler == AtRest
  {
    hide Inv, Shaped, Wakes, End, OutSpace;
    t', s' := Next(t, s, ReadTail);
    t', s' := Next(t', s', ReadAgain);
    t', s' := Next(t', s', Fill);
    t', s' := Next(t', s', MoveHead);
    t', s' := Next(t', s', TestFlag);
  }

  /** An interrupt comes and the handler prints one byte; the writer is not queued. */
  lemma PrintsOne(t: Trace, s: State) returns (t': Trace, s': State)
    requires End(t) == Some(s) && Inv(s) && Shaped(s)
    requires s.active && s.handler == AtRest && s.head != s.tail && Woken(s.writer) == s.writer
    ensures End(t') == Some(s') && Inv(s') && Shaped(s')
    ensures s'.cells == s.cells && s'.head == s.head && s'.tail == Advance(|s.cells|, s.tail, 1)
    ensures s'.active && s'.writer == s.writer && s'.handler == AtRest
  {
    hide Inv, Shaped, Wakes, End, Advance;
    t', s' := Next(t, s, Interrupt);
    t', s' := Next(t', s', Start);
    t', s' := Next(t', s', Handle);
    t', s' := Next(t', s', Finish);
  }

  lemma PrintsMany(t: Trace, s: State, k: nat) returns (t': Trace, s': State)
    requires End(t) == Some(s) && Inv(s) && Shaped(s)
    requires s.active && s.handler == AtRest && Woken(s.writer) == s.writer && s.head == 0 < s.tail
      && s.tail + k < |s.cells|
    ensures End(t') == Some(s') && Inv(s') && Shaped(s')
    ensures s'.cells == s.cells && s'.head == 0 && s'.tail == s.tail + k
    ensures s'.active && s'.writer == s.writer && s'.handler == AtRest
    decreases k
  {
    hide Inv, Wakes, End;
    t', s' := t, s;
    if k > 0 {
      t', s' := PrintsOne(t, s);
      t', s' := PrintsMany(t', s', k - 1);
    }
  }

  /** On a page of any size a writer can be forgotten: it found the page full, and the last byte of it is
      printed between the two reads of its last test. */
  lemma ForgottenRun(data: seq<Byte>) returns (t: Trace, s: State)
    requires |data| >= 5
    ensures End(t) == Some(s) && |s.cells| == |data| - 1 && Forgotten(s) && s.handler.Acted?
  {
    hide Inv, Shaped, Wakes, End, Do;
    t, s := FillsUp(data);
    t, s := FindsNoSpace(t, s);
    t, s := PrintsMany(t, s, |data| - 3);
    t, s := MissesTheLast(t, s);
  }

  /** The page is filled but for one cell, and that one too when a byte is printed. */
  lemma FillsUp(data: seq<Byte>) returns (t: Trace, s: State)
    requires |data| >= 5
    ensures End(t) == Some(s) && Inv(s) && Shaped(s) && |s.cells| == |data| - 1 && s.head == 0 && s.tail == 1
    ensures s.writer.Looking? && s.writer.round == First && s.handler == AtRest && s.active
  {
    hide Inv, Wakes;
    StartsWell(|data| - 1);
    t, s := Next(Begin(|data| - 1), Initial(|data| - 1), Enter(data));
    t, s := WritesOn(t, s);
    t, s := PrintsOne(t, s);
    t, s := WritesOn(t, s);
  }

  lemma FindsNoSpace(t: Trace, s: State) returns (t': Trace, s': State)
    requires End(t) == Some(s) && Inv(s) && Shaped(s) && s.head == 0 && s.tail == 1
    requires s.writer.Looking? && s.writer.round == First && s.handler == AtRest && s.active
    ensures End(t') == Some(s') && Inv(s') && Shaped(s')
    ensures s'.cells == s.cells && s'.head == 0 && s'.tail == 1 && s'.writer.Queueing? && s'.handler == AtRest
      && s'.active
  {
    hide Inv, Shaped, Wakes, End;
    t', s' := Next(t, s, ReadTail);
    t', s' := Next(t', s', ReadAgain);
    t', s' := Next(t', s', ReadTail);
    t', s' := Next(t', s', ReadAgain);
  }

  lemma MissesTheLast(t: Trace, s: State) returns (t': Trace, s': State)
    requires End(t) == Some(s) && Inv(s) && Shaped(s) && s.head == 0 && s.tail == |s.cells| - 1
    requires s.writer.Queueing? && s.handler == AtRest && s.active
    ensures End(t') == Some(s') && |s'.cells| == |s.cells| && Forgotten(s') && s'.handler.Acted?
  {
    hide Inv, Shaped, Wakes, End;
    t', s' := Next(t, s, Queue);
    t', s' := Next(t', s', ReadTail);
    t', s' := Next(t', s', Interrupt);
    t', s' := Next(t', s', Start);
    t', s' := Next(t', s', Handle);
    t', s' := Next(t', s', ReadAgain);
  }
}
