/** Loading all processes of an image, and what that makes of an image that was made from executables. */
module BootRun {
  import opened Arithmetic
  import opened BootLoad
  import opened ImageFormat

  const PROCESS_MAX := 16
  const A_I80386 := 0x10
  const K_CLAIM := 0x0002
  const K_CHMEM := 0x0004
  const K_HIGH := 0x0008
  const K_ALL := 0x01FF
  const CLICK_OFF := 2
  const FLAGS_OFF := 4

  /** The bit `mask`, a power of two, in `flags`. */
  predicate Has(flags: nat, mask: nat)
    requires mask > 0
  {
    flags / mask % 2 == 1
  }

  // ----- choosing processes -----

  /** The characters before the first ':', if there is one. */
  function LabelOf(name: seq<Byte>): Option<seq<Byte>> {
    if name == [] then None
    else if name[0] == 58 then Some([])
    else
      match LabelOf(name[1..])
      case None => None
      case Some(l) => Some([name[0]] + l)
  }

  /** A process without a label is always loaded, a labelled one unless another label is asked for. */
  predicate Selected(wanted: Option<seq<Byte>>, name: seq<Byte>) {
    LabelOf(name).None? || wanted.None? || wanted == LabelOf(name)
  }

  const COLON: Byte := 58

  /** A name is wanted if it carries no label, or no label is asked for, or the one it begins with is. */
  predicate Wants(wanted: Option<seq<Byte>>, name: seq<Byte>) {
    COLON !in name || wanted.None? || wanted.value + [COLON] <= name
  }

  lemma {:induction false} LabelIs(l: seq<Byte>, rest: seq<Byte>)
    requires COLON !in l
    ensures LabelOf(l + [COLON] + rest) == Some(l)
  {
    var name := l + [COLON] + rest;
    if l == [] {
      assert name[0] == COLON;
    } else {
      assert name[1..] == l[1..] + [COLON] + rest;
      LabelIs(l[1..], rest);
      assert [l[0]] + l[1..] == l;
    }
  }

  lemma {:induction false} NoLabel(name: seq<Byte>)
    ensures LabelOf(name).None? <==> COLON !in name
    ensures LabelOf(name).Some? ==> COLON !in LabelOf(name).value && LabelOf(name).value + [COLON] <= name
  {
    if name != [] && name[0] != COLON {
      NoLabel(name[1..]);
      assert name == [name[0]] + name[1..];
    }
  }

  /** Asking for a label chooses just the programs without one and those that have it; asking for none chooses all. */
  lemma SelectedExactly(wanted: Option<seq<Byte>>, name: seq<Byte>)
    requires wanted.Some? ==> COLON !in wanted.value
    ensures Selected(wanted, name) <==> Wants(wanted, name)
  {
    NoLabel(name);
    if wanted.Some? && wanted.value + [COLON] <= name {
      LabelIs(wanted.value, name[|wanted.value| + 1..]);
      assert name == wanted.value + [COLON] + name[|wanted.value| + 1..];
    }
  }

  /** With its own label asked for a program is chosen, with any other label it is not. */
  lemma SelectedByLabel(l: seq<Byte>, rest: seq<Byte>, k: seq<Byte>)
    requires COLON !in l
    ensures Selected(Some(k), l + [COLON] + rest) <==> k == l
  {
    LabelIs(l, rest);
  }

  /** The header sector of the next process to load, from `vsec` on. */
  function NextHeader(image: Sectors, vsec: nat, wanted: Option<seq<Byte>>): (r: Option<nat>)
    ensures r.Some? ==> r.value >= vsec && GetSector(image, r.value).Some?
    decreases |image| - vsec
  {
    match GetSector(image, vsec)
    case None => None
    case Some(s) =>
      if !GoodMagic(ExecIn(s)) then None
      else if Selected(wanted, NameIn(s)) then Some(vsec)
      else NextHeader(image, vsec + 1 + ProcSize(ExecIn(s)), wanted)
  }

  /** The click size and the flags that the kernel's text begins with. */
  function KernelFacts(image: Sectors, ksec: nat, e: Exec): (r: Option<(nat, nat)>)
    ensures r.Some? ==> IsClick(r.value.0)
  {
    match GetSector(image, ksec)
    case None => None
    case Some(s) =>
      var at := if PageAligned(e) then HdrLen(e) else 0;
      var shift, flags := Word(s, at + CLICK_OFF), Word(s, at + FLAGS_OFF);
      if flags > K_ALL || shift < 4 || shift > 16 then None
      else
        ShiftIsClick(shift);
        Some((Shifted(shift), flags))
  }

  function Word(s: seq<Byte>, at: nat): nat
    requires at + 2 <= |s|
  {
    var b0: int, b1: int := s[at], s[at + 1];
    b0 + 0x100 * b1
  }

  /** The word is the number whose lower byte comes first. */
  lemma WordLaw(before: seq<Byte>, n: nat, after: seq<Byte>)
    requires n < 0x1_0000
    ensures Word(before + [(n % 0x100) as Byte, (n / 0x100) as Byte] + after, |before|) == n
  {
    var s := before + [(n % 0x100) as Byte, (n / 0x100) as Byte] + after;
    assert s[|before|] == n % 0x100 && s[|before| + 1] == n / 0x100;
  }

  function Shifted(k: nat): nat {
    if k == 0 then 1 else 2 * Shifted(k - 1)
  }

  lemma ShiftIsClick(k: nat)
    requires 4 <= k <= 16
    ensures IsClick(Shifted(k))
  {
    hide Shifted;
    FirstShifts();
    ShiftMore(4);
    ShiftMore(7);
    ShiftMore(10);
    ShiftMore(13);
  }

  lemma FirstShifts()
    ensures Shifted(4) == 16
  {
    assert Shifted(2) == 4;
  }

  lemma ShiftMore(k: nat)
    ensures Shifted(k + 1) == 2 * Shifted(k) && Shifted(k + 2) == 4 * Shifted(k) && Shifted(k + 3) == 8 * Shifted(k)
  {
    assert Shifted(k + 1) == 2 * Shifted(k);
    assert Shifted(k + 2) == 2 * Shifted(k + 1);
  }

  // ----- the memory of each process -----

  /** What a header's total leaves for the stack; less than nothing if it does not cover the segments. */
  function StackOf(e: Exec): int {
    Total(e) - Data(e) - Bss(e) - (if Separate(e) then 0 else Text(e))
  }

  /** A kernel that claims its own memory gets none for any process but itself; stacks are kept only
      for kernels that listen to their sizes. */
  function RoomOf(e: Exec, i: nat, flags: nat): (r: Room)
    ensures Bounded(e, r)
  {
    if i != 0 && Has(flags, K_CLAIM) then Room(0, 0)
    else Room(Bss(e), if Has(flags, K_CHMEM) then StackOf(e) else 0)
  }

  // ----- the run -----

  /** What is asked for and where extended memory lies. */
  datatype Setup = Setup(wanted: Option<seq<Byte>>, processor: int, highBase: nat, highLimit: nat)

  datatype Placement = Placement(exec: Exec, room: Room, click: nat, addr: nat, process: Process, bytes: seq<Byte>)

  /** The point a run has reached: processes loaded, next sector, free memory, and the kernel's
      click size and flags once it is loaded. */
  datatype At = At(i: nat, vsec: nat, addr: nat, limit: nat, click: nat, flags: nat)

  /** The click size and flags in force for the process whose header is at `h`. */
  function Clicks(image: Sectors, at: At, h: nat, e: Exec): (r: Option<(nat, nat)>)
    requires at.i > 0 ==> IsClick(at.click)
    ensures r.Some? ==> IsClick(r.value.0)
  {
    if at.i == 0 then KernelFacts(image, h + 1, e) else Some((at.click, at.flags))
  }

  /** The kernel is moved up to a click. */
  function StartAt(at: At, click: nat): nat
    requires click > 0
  {
    CeilBounds(at.addr, click);
    if at.i == 0 then Ceil(at.addr, click) else at.addr
  }

  /** Loading the process does not leave 32 bits. */
  predicate InRange(e: Exec, at: At, click: nat, flags: nat)
    requires click > 0
  {
    at.addr + click <= 0x1_0000_0000 && NoWrap(e, StartAt(at, click), click, RoomOf(e, at.i, flags))
  }

  predicate WrongProcessor(e: Exec, setup: Setup) {
    e[3] == A_I80386 && setup.processor < 386
  }

  /** Where the run goes on after the process. */
  function Onward(setup: Setup, at: At, h: nat, e: Exec, click: nat, flags: nat): At
    requires click > 0
  {
    var high := at.i == 0 && Has(flags, K_HIGH);
    var end := Placed(e, StartAt(at, click), click, RoomOf(e, at.i, flags)).end;
    At(at.i + 1, h + 1 + ProcSize(e), if high then setup.highBase else end,
       if high then setup.highLimit else at.limit, click, flags)
  }

  /** What happens with the process whose header is at `h`: where it goes, and where the run goes on. */
  function Step(image: Sectors, setup: Setup, at: At, h: nat): Option<(Placement, At)>
    requires GetSector(image, h).Some? && (at.i > 0 ==> IsClick(at.click))
  {
    var e := ExecIn(GetSector(image, h).value);
    if WrongProcessor(e, setup) then None
    else
      match Clicks(image, at, h, e)
      case None => None
      case Some(k) =>
        var click, flags := k.0, k.1;
        var addr, room := StartAt(at, click), RoomOf(e, at.i, flags);
        if !ProcessFits(image, e, h + 1, addr, at.limit, click, room) then None
        else
          Some((Placement(e, room, click, addr, Placed(e, addr, click, room),
                          ProcessBytes(image, e, h + 1, addr, click, room)),
                Onward(setup, at, h, e, click, flags)))
  }

  /** The process `e` is for this processor, its kernel, if it is one, says what a click is, and there
      is room for it. */
  predicate Admitted(image: Sectors, setup: Setup, at: At, h: nat, e: Exec)
    requires at.i > 0 ==> IsClick(at.click)
  {
    !WrongProcessor(e, setup) &&
    match Clicks(image, at, h, e)
    case None => false
    case Some(k) => ProcessRoom(e, StartAt(at, k.0), at.limit, k.0, RoomOf(e, at.i, k.1))
  }

  /** A stretch of memory whose pieces are all admitted. */
  predicate Roomy(size: nat, addr: nat, limit: nat, click: nat)
    requires click > 0
  {
    size > 0 ==> addr + Ceil(size, click) + Excess(size, click) <= limit
  }

  /** Admitted is a process that the processor can run, whose kernel says a good click and flags, and
      whose text, data and zeros end below the limit, the segments with their excess. */
  lemma AdmittedExactly(image: Sectors, setup: Setup, at: At, h: nat, e: Exec)
    requires at.i > 0 ==> IsClick(at.click)
    ensures Admitted(image, setup, at, h, e) <==>
      && (e[3] == 0x10 ==> setup.processor >= 386)
      && (at.i == 0 ==> KernelFacts(image, h + 1, e).Some?)
      && var (click, flags) := if at.i == 0 then KernelFacts(image, h + 1, e).value else (at.click, at.flags);
         var start := StartAt(at, click);
         var data := if Separate(e) then start + Ceil(TextSegment(e), click) else start;
         var size := if Separate(e) then Data(e) else TextSegment(e) + Data(e);
         var bss := if at.i != 0 && flags / 2 % 2 == 1 then 0 else Bss(e);
         && (Separate(e) ==> Roomy(TextSegment(e), start, at.limit, click))
         && Ceil(TextSegment(e), click) >= 0
         && Roomy(size, data, at.limit, click) && data + Ceil(size + bss, click) <= at.limit
  {
    hide KernelFacts, IsClick, Ceil, Excess, SegmentRoom, TextSegment, Data, Bss, Separate, NoWrap, StartAt;
    if at.i == 0 ==> KernelFacts(image, h + 1, e).Some? {
      var (click, flags) := if at.i == 0 then KernelFacts(image, h + 1, e).value else (at.click, at.flags);
      ClickFacts(click);
      var start := StartAt(at, click);
      CeilBounds(TextSegment(e), click);
      var data := if Separate(e) then start + Ceil(TextSegment(e), click) else start;
      RoomyIs(TextSegment(e), start, at.limit, click);
      RoomyIs(Data(e), data, at.limit, click);
      RoomyIs(TextSegment(e) + Data(e), start, at.limit, click);
    }
  }

  lemma RoomyIs(size: nat, addr: nat, limit: nat, click: nat)
    requires IsClick(click)
    ensures click > 0 && (Roomy(size, addr, limit, click) <==> SegmentRoom(size, addr, limit, click))
  {
    hide Ceil, Excess, Chunk;
    ClickFacts(click);
    if size > 0 {
      RoomExactly(size, addr, limit, click);
    }
  }

  lemma StepExactly(image: Sectors, setup: Setup, at: At, h: nat, e: Exec)
    requires GetSector(image, h).Some? && (at.i > 0 ==> IsClick(at.click))
    requires e == ExecIn(GetSector(image, h).value)
    ensures Step(image, setup, at, h).Some? <==> Admitted(image, setup, at, h, e) && SegmentsReadable(image, e, h + 1)
    ensures Step(image, setup, at, h).Some? ==>
      var k := Clicks(image, at, h, e).value;
      Step(image, setup, at, h).value.1 == Onward(setup, at, h, e, k.0, k.1)
  {
    hide Clicks, ExecIn, StartAt, NoWrap, RoomOf, Placed, ProcessBytes, ProcessFits, ProcessRoom,
      SegmentsReadable, Onward, GetSector;
    var k := Clicks(image, at, h, e);
    if k.Some? {
      var click, flags := k.value.0, k.value.1;
      FitsWithRoom(image, e, h + 1, StartAt(at, click), at.limit, click, RoomOf(e, at.i, flags));
    }
  }

  /** The process whose header is at `h` is in range, unless it is refused before its sizes matter. */
  predicate StepSound(image: Sectors, setup: Setup, at: At, h: nat)
    requires GetSector(image, h).Some? && (at.i > 0 ==> IsClick(at.click))
  {
    var e := ExecIn(GetSector(image, h).value);
    var k := Clicks(image, at, h, e);
    !WrongProcessor(e, setup) && k.Some? ==> InRange(e, at, k.value.0, k.value.1)
  }

  /** Every process that the run reaches is in range. */
  predicate Sound(image: Sectors, size: nat, setup: Setup, at: At)
    requires at.i > 0 ==> IsClick(at.click)
    decreases |image| - at.vsec
  {
    at.vsec < size && at.i != PROCESS_MAX ==>
      var h := NextHeader(image, at.vsec, setup.wanted);
      h.Some? ==>
        && StepSound(image, setup, at, h.value)
        && var s := Step(image, setup, at, h.value); s.Some? ==> Sound(image, size, setup, s.value.1)
  }

  /** All placements of a run from `at` on, or None if it is abandoned. */
  function Run(image: Sectors, size: nat, setup: Setup, at: At): Option<seq<Placement>>
    requires at.i > 0 ==> IsClick(at.click)
    decreases |image| - at.vsec
  {
    if at.vsec >= size then Some([])
    else if at.i == PROCESS_MAX then None
    else
      match NextHeader(image, at.vsec, setup.wanted)
      case None => None
      case Some(h) =>
        match Step(image, setup, at, h)
        case None => None
        case Some(s) => Prepend([s.0], Run(image, size, setup, s.1))
  }

  function Prepend(ps: seq<Placement>, r: Option<seq<Placement>>): Option<seq<Placement>> {
    match r
    case None => None
    case Some(qs) => Some(ps + qs)
  }

  /** Memory once everything in `ps` is written. */
  function Overlay(m: seq<Byte>, ps: seq<Placement>): (r: seq<Byte>)
    requires AllWithin(ps, |m|)
    ensures |r| == |m|
    decreases |ps|
  {
    if ps == [] then m else Overlay(Overwrite(m, ps[0].addr, ps[0].bytes), ps[1..])
  }

  predicate AllWithin(ps: seq<Placement>, n: nat) {
    forall i :: 0 <= i < |ps| ==> ps[i].bytes != [] ==> ps[i].addr + |ps[i].bytes| <= n
  }

  /** Free memory begins at a click once clicks are known, and extended memory at any click. */
  predicate Good(at: At, setup: Setup) {
    && at.i <= PROCESS_MAX && setup.highBase % 0x1_0000 == 0
    && (at.i > 0 ==> IsClick(at.click) && at.addr % at.click == 0)
  }

  /** The header's total gives clicks back that the process was loaded or cleared in. */
  predicate TakesBack(p: Placement) {
    p.click > 0 &&
    var size := DataSegment(p.exec) + p.room.bss;
    Ceil(size + p.room.stack, p.click) < Ceil(size, p.click)
  }

  /** A process begins at a click at or above the free memory, everything written for it stays below the
      limit, and it ends there or above, unless its total takes clicks back. */
  lemma StepPlaces(image: Sectors, setup: Setup, at: At, h: nat)
    requires GetSector(image, h).Some? && Good(at, setup) && at.i < PROCESS_MAX && Step(image, setup, at, h).Some?
    ensures var s := Step(image, setup, at, h).value; var p, n := s.0, s.1;
      && IsClick(n.click) && p.addr % n.click == 0 && at.addr <= p.addr < at.addr + n.click
      && (p.addr + |p.bytes| <= p.process.end <==> !TakesBack(p)) && p.addr + |p.bytes| <= at.limit
      && Bounded(p.exec, p.room) && p.process == Placed(p.exec, p.addr, n.click, p.room) && Good(n, setup)
  {
    hide IsClick, Step, Ceil, Align, Long, ExecIn, CanRead, SegmentsReadable, Placed, ProcessBytes, DataStart,
      DataSegment;
    StepContinues(image, setup, at, h);
    StepFits(image, setup, at, h);
    var s := Step(image, setup, at, h).value;
    var click := s.1.click;
    ClickFacts(click);
    CeilBounds(at.addr, click);
    PlacedEnds(image, s.0.exec, h + 1, s.0.addr, click, s.0.room);
    HighIsAligned(setup.highBase, click);
  }

  lemma StepFits(image: Sectors, setup: Setup, at: At, h: nat)
    requires GetSector(image, h).Some? && (at.i > 0 ==> IsClick(at.click)) && Step(image, setup, at, h).Some?
    ensures var s := Step(image, setup, at, h).value; var p := s.0;
      && IsClick(s.1.click) && p.addr == StartAt(at, s.1.click)
      && DataStart(p.exec, p.addr, p.click) + Ceil(DataSegment(p.exec) + p.room.bss, p.click) <= at.limit
      && Bounded(p.exec, p.room) && p.process == Placed(p.exec, p.addr, p.click, p.room)
      && (at.i > 0 ==> s.1.click == at.click) && p.room == RoomOf(p.exec, at.i, s.1.flags)
      && SegmentsReadable(image, p.exec, h + 1) && p.click == s.1.click
  {
    hide IsClick, StartAt, ProcSize, ExecIn, SegmentsFit, Placed, ProcessBytes, Has, RoomOf, NoWrap,
      DataStart, DataSegment, Ceil, KernelFacts;
  }

  /** A process gets no more than its header asks for. */
  lemma RoomIsBounded(e: Exec, i: nat, flags: nat)
    ensures var r := RoomOf(e, i, flags); r.bss <= Bss(e) && r.stack <= Asked(StackOf(e))
  {
    hide Has, Bss, Data, Total, Text, Separate;
  }

  lemma HighIsAligned(a: nat, click: nat)
    requires IsClick(click) && a % 0x1_0000 == 0
    ensures a % click == 0
  {
    MultipleOfMultiple(a, 0x1_0000, click);
  }

  lemma PlacedEnds(image: Sectors, e: Exec, vsec: nat, addr: nat, click: nat, room: Room)
    requires 0 < click <= 0x1_0000 && SegmentsReadable(image, e, vsec) && addr % click == 0 && Bounded(e, room)
    ensures var end := Placed(e, addr, click, room).end; var n := |ProcessBytes(image, e, vsec, addr, click, room)|;
      && addr + n == DataStart(e, addr, click) + Ceil(DataSegment(e) + room.bss, click)
      && end == DataStart(e, addr, click) + Ceil(DataSegment(e) + room.bss + room.stack, click)
      && end <= addr + TextSegment(e) + Data(e) + room.bss + room.stack + 2 * click && end % click == 0
  {
    hide Ceil, Long, CanRead, SegmentsBytes, SegmentsReadable, Separate;
    var start, size := DataStart(e, addr, click), DataSegment(e);
    StartIsAligned(e, addr, click);
    CeilBounds(TextSegment(e), click);
    CeilShifts(start, size + room.bss + room.stack, click);
    CeilBounds(start + size + room.bss + room.stack, click);
  }

  /** Clicks are taken back exactly if the kernel listens to totals, does not keep their memory from them, and the
      total, from the data segment or with the text on, takes fewer clicks than what it should cover. */
  lemma TakesBackExactly(p: Placement, i: nat, flags: nat)
    requires p.click > 0 && p.room == RoomOf(p.exec, i, flags)
    ensures var e := p.exec;
      var before := if Separate(e) then 0 else TextSegment(e) - Text(e);
      TakesBack(p) <==>
        && Has(flags, K_CHMEM) && (i == 0 || !Has(flags, K_CLAIM))
        && Ceil(before + Total(e), p.click) < Ceil(DataSegment(e) + Bss(e), p.click)
  {
    hide Ceil, Has, Bss, Data, Total, Text, Separate, PageAligned, HdrLen;
  }

  /** A total that covers the segments takes nothing back. */
  lemma StackKept(p: Placement)
    requires p.room.stack >= 0
    ensures !TakesBack(p)
  {
    hide Ceil, DataSegment;
    if p.click > 0 {
      CeilGrows(DataSegment(p.exec) + p.room.bss, p.room.stack, p.click);
    }
  }

  /** The next header, looked for as the loader does, sector by sector. */
  method FindHeader(loader: Loader, vsec: nat, wanted: Option<seq<Byte>>) returns (r: Option<nat>)
    ensures r == NextHeader(loader.image, vsec, wanted)
  {
    hide CString, LabelOf, ProcSize, GoodMagic, ExecIn;
    var at := vsec;
    while true
      invariant NextHeader(loader.image, vsec, wanted) == NextHeader(loader.image, at, wanted)
      decreases |loader.image| - at
    {
      var buf := GetSector(loader.image, at);
      if buf.None? || !GoodMagic(ExecIn(buf.value)) {
        return None;
      }
      if Selected(wanted, NameIn(buf.value)) {
        return Some(at);
      }
      at := at + 1 + ProcSize(ExecIn(buf.value));
    }
  }

  /** Loads the process whose header is in sector `h`. */
  method LoadOne(loader: Loader, setup: Setup, at: At, h: nat) returns (ok: bool, at': At, ghost p: Placement)
    requires GetSector(loader.image, h).Some? && Good(at, setup) && at.i < PROCESS_MAX && at.limit <= loader.mem.Length
    requires at.i > 0 ==> loader.clickSize == at.click
    requires StepSound(loader.image, setup, at, h)
    modifies loader`clickSize, loader.mem
    ensures ok == Step(loader.image, setup, at, h).Some?
    ensures ok ==> Step(loader.image, setup, at, h) == Some((p, at')) && loader.clickSize == at'.click
    ensures ok ==> p.bytes != [] ==> p.addr + |p.bytes| <= loader.mem.Length
    ensures ok ==> loader.mem[..] == Overwrite(old(loader.mem[..]), p.addr, p.bytes)
  {
    hide IsClick, KernelFacts, Ceil, Align, Long, ExecIn, ProcessFits, Placed, ProcessBytes, Has, Overwrite, ProcSize,
      NoWrap, RoomOf, GetSector;
    var e := ExecIn(GetSector(loader.image, h).value);
    at' := at;
    p := Placement(e, Room(0, 0), 0, 0, Process(0, 0, 0, 0, 0), []);
    if WrongProcessor(e, setup) {
      return false, at', p;
    }
    var addr, flags := at.addr, at.flags;
    if at.i == 0 {
      var k := KernelFacts(loader.image, h + 1, e);
      if k.None? {
        return false, at', p;
      }
      loader.clickSize, flags := k.value.0, k.value.1;
      ClickFacts(loader.clickSize);
      AlignIsCeil(addr, loader.clickSize);
      CeilBounds(addr, loader.clickSize);
      addr := Align(addr, loader.clickSize);
    }
    var room := RoomOf(e, at.i, flags);
    var proc, vsec, end;
    ghost var written;
    ok, proc, vsec, end, written := loader.LoadProcess(e, h + 1, addr, at.limit, room);
    if !ok {
      return;
    }
    p := Placement(e, room, loader.clickSize, addr, proc, written);
    if at.i == 0 && Has(flags, K_HIGH) {
      at' := At(at.i + 1, vsec, setup.highBase, setup.highLimit, loader.clickSize, flags);
    } else {
      at' := At(at.i + 1, vsec, end, at.limit, loader.clickSize, flags);
    }
  }

  /** Loads every process that is wanted. */
  method ExecImage(loader: Loader, size: nat, setup: Setup, base: nat, top: nat) returns (ok: bool)
    requires Sound(loader.image, size, setup, At(0, 0, base, top, 0, 0))
    requires top <= loader.mem.Length && setup.highLimit <= loader.mem.Length && setup.highBase % 0x1_0000 == 0
    modifies loader`clickSize, loader.mem
    ensures ok == Run(loader.image, size, setup, At(0, 0, base, top, 0, 0)).Some?
    ensures ok ==>
      var ps := Run(loader.image, size, setup, At(0, 0, base, top, 0, 0)).value;
      AllWithin(ps, loader.mem.Length) && loader.mem[..] == Overlay(old(loader.mem[..]), ps)
  {
    hide Step, StepSound, NextHeader, Overwrite, Sound, Run, Overlay, AllWithin, IsClick;
    ghost var m := loader.mem[..];
    var at := At(0, 0, base, top, 0, 0);
    ghost var start := at;
    ghost var done: seq<Placement> := [];
    NothingYet(m, Run(loader.image, size, setup, at));
    while at.vsec < size
      invariant Good(at, setup) && at.limit <= loader.mem.Length && (at.i > 0 ==> loader.clickSize == at.click)
      invariant Sound(loader.image, size, setup, at)
      invariant Run(loader.image, size, setup, start) == Prepend(done, Run(loader.image, size, setup, at))
      invariant AllWithin(done, |m|) && loader.mem[..] == Overlay(m, done)
      decreases |loader.image| - at.vsec
    {
      if at.i == PROCESS_MAX {
        RunFails(loader.image, size, setup, at);
        return false;
      }
      var h := FindHeader(loader, at.vsec, setup.wanted);
      if h.None? {
        RunFails(loader.image, size, setup, at);
        return false;
      }
      ghost var was := at;
      RunReaches(loader.image, size, setup, at, h.value);
      ghost var p;
      ok, at, p := LoadOne(loader, setup, at, h.value);
      if !ok {
        RunFails(loader.image, size, setup, was);
        return;
      }
      StepPlaces(loader.image, setup, was, h.value);
      SoundSteps(loader.image, size, setup, was, h.value);
      RunSteps(loader.image, size, setup, was, h.value);
      OneMore(done, p, Run(loader.image, size, setup, at));
      OverlayMore(m, done, p);
      done := done + [p];
    }
    RunEnds(loader.image, size, setup, at);
    assert done + [] == done;
    ok := true;
  }

  lemma NothingYet(m: seq<Byte>, r: Option<seq<Placement>>)
    ensures Prepend([], r) == r && AllWithin([], |m|) && Overlay(m, []) == m
  {
    match r
    case None =>
    case Some(qs) => assert [] + qs == qs;
  }

  lemma OneMore(ps: seq<Placement>, p: Placement, r: Option<seq<Placement>>)
    ensures Prepend(ps, Prepend([p], r)) == Prepend(ps + [p], r)
  {
    match r
    case None =>
    case Some(qs) => assert ps + ([p] + qs) == ps + [p] + qs;
  }

  lemma {:induction false} OverlayMore(m: seq<Byte>, ps: seq<Placement>, p: Placement)
    requires AllWithin(ps, |m|) && (p.bytes != [] ==> p.addr + |p.bytes| <= |m|)
    ensures AllWithin(ps + [p], |m|)
    ensures Overlay(m, ps + [p]) == Overwrite(Overlay(m, ps), p.addr, p.bytes)
    decreases |ps|
  {
    hide Overwrite;
    if ps == [] {
      assert ([] + [p])[1..] == [];
    } else {
      assert (ps + [p])[1..] == ps[1..] + [p];
      OverlayMore(Overwrite(m, ps[0].addr, ps[0].bytes), ps[1..], p);
    }
  }

  lemma RunFails(image: Sectors, size: nat, setup: Setup, at: At)
    requires (at.i > 0 ==> IsClick(at.click)) && at.vsec < size
    requires
      || at.i == PROCESS_MAX
      || var h := NextHeader(image, at.vsec, setup.wanted);
         h.None? || Step(image, setup, at, h.value).None?
    ensures Run(image, size, setup, at).None?
  {
    hide Step, IsClick;
  }

  lemma RunReaches(image: Sectors, size: nat, setup: Setup, at: At, h: nat)
    requires (at.i > 0 ==> IsClick(at.click)) && at.vsec < size && at.i != PROCESS_MAX
    requires NextHeader(image, at.vsec, setup.wanted) == Some(h)
    ensures at.vsec <= h < |image| && GetSector(image, h).Some?
    ensures Sound(image, size, setup, at) ==> StepSound(image, setup, at, h)
  {
    hide StepSound, Step, IsClick;
  }

  lemma SoundSteps(image: Sectors, size: nat, setup: Setup, at: At, h: nat)
    requires (at.i > 0 ==> IsClick(at.click)) && at.vsec < size && at.i != PROCESS_MAX
    requires Sound(image, size, setup, at) && NextHeader(image, at.vsec, setup.wanted) == Some(h)
    requires GetSector(image, h).Some? && Step(image, setup, at, h).Some?
    ensures var n := Step(image, setup, at, h).value.1; (n.i > 0 ==> IsClick(n.click)) && Sound(image, size, setup, n)
  {
    hide StepSound, Step, IsClick;
    StepClicks(image, setup, at, h);
  }

  lemma StepClicks(image: Sectors, setup: Setup, at: At, h: nat)
    requires GetSector(image, h).Some? && (at.i > 0 ==> IsClick(at.click)) && Step(image, setup, at, h).Some?
    ensures IsClick(Step(image, setup, at, h).value.1.click)
  {
    hide IsClick, ProcessFits, Placed, ProcessBytes, ProcSize;
  }

  lemma RunSteps(image: Sectors, size: nat, setup: Setup, at: At, h: nat)
    requires (at.i > 0 ==> IsClick(at.click)) && at.vsec < size
    requires at.i != PROCESS_MAX && NextHeader(image, at.vsec, setup.wanted) == Some(h)
    requires GetSector(image, h).Some? && Step(image, setup, at, h).Some?
    ensures var s := Step(image, setup, at, h).value;
      && s.1.vsec == h + 1 + ProcSize(ExecIn(GetSector(image, h).value)) && s.1.i == at.i + 1 && IsClick(s.1.click)
      && (s.1.limit == at.limit || s.1.limit == setup.highLimit)
      && Run(image, size, setup, at) == Prepend([s.0], Run(image, size, setup, s.1))
  {
    hide IsClick, ProcSize, ExecIn, ProcessFits, Placed, ProcessBytes, Has, RoomOf, StartAt;
  }

  lemma RunEnds(image: Sectors, size: nat, setup: Setup, at: At)
    requires (at.i > 0 ==> IsClick(at.click)) && at.vsec >= size
    ensures Run(image, size, setup, at) == Some([])
  {
  }

  // ----- processes keep out of each other's way -----

  /** Each process is written at or above `from` and everything written for those before it. */
  predicate InOrder(ps: seq<Placement>, from: nat)
    decreases |ps|
  {
    ps == [] || (from <= ps[0].addr && InOrder(ps[1..], ps[0].addr + |ps[0].bytes|))
  }

  /** One process begins where the one before it ends, or, after the kernel, in extended memory. */
  predicate Consecutive(ps: seq<Placement>, setup: Setup, first: bool)
    decreases |ps|
  {
    |ps| >= 2 ==>
      && (ps[1].addr == ps[0].process.end || (first && ps[1].addr == setup.highBase))
      && Consecutive(ps[1..], setup, false)
  }

  /** No process but the last takes clicks back and has the next begin there. */
  predicate NoOverlap(ps: seq<Placement>)
    decreases |ps|
  {
    |ps| >= 2 ==> !(TakesBack(ps[0]) && ps[1].addr == ps[0].process.end) && NoOverlap(ps[1..])
  }

  /** If every total covers what its header describes, nothing overlaps. */
  lemma {:induction false} CoveredKeepApart(ps: seq<Placement>)
    requires forall i :: 0 <= i < |ps| ==> ps[i].room.stack >= 0
    ensures NoOverlap(ps)
    decreases |ps|
  {
    hide TakesBack;
    if ps != [] {
      StackKept(ps[0]);
      CoveredKeepApart(ps[1..]);
    }
  }

  /** Each process begins where the one before ends, and they lie one behind the other exactly if none is
      followed by another in clicks that its total takes back. */
  lemma {:induction false} RunInOrder(image: Sectors, size: nat, setup: Setup, at: At)
    requires Good(at, setup)
    requires at.i == 0 ==> at.limit <= setup.highBase
    requires Run(image, size, setup, at).Some?
    ensures var ps := Run(image, size, setup, at).value;
      && Consecutive(ps, setup, at.i == 0) && (at.i > 0 && ps != [] ==> ps[0].addr == at.addr)
      && (InOrder(ps, at.addr) <==> NoOverlap(ps))
    decreases |image| - at.vsec
  {
    hide Step, NextHeader, IsClick, TakesBack;
    var ps := Run(image, size, setup, at).value;
    if at.vsec >= size {
      RunEnds(image, size, setup, at);
    } else {
      var h := Reached(image, size, setup, at);
      var s := Step(image, setup, at, h).value;
      StepPlaces(image, setup, at, h);
      StepContinues(image, setup, at, h);
      RunSteps(image, size, setup, at, h);
      RunInOrder(image, size, setup, s.1);
      var rest := Run(image, size, setup, s.1).value;
      assert ps == [s.0] + rest && ps[1..] == rest;
    }
  }

  // ----- what a run makes of each process -----

  /** Process number `i` under a kernel with this click size and these flags: it is for the processor, stays below the
      limit, and ends at the first click that is not before its data, bss and stack. A kernel that sets bit 1
      keeps the memory past the data to itself; one that sets bit 2 is given what the total leaves. */
  predicate Made(p: Placement, i: nat, setup: Setup, click: nat, flags: nat, limit: nat) {
    var e := p.exec;
    var claimed := i != 0 && flags / 2 % 2 == 1;
    && IsClick(click) && p.click == click && p.addr % click == 0 && p.addr + |p.bytes| <= limit
    && (e[3] == 0x10 ==> setup.processor >= 386)
    && p.room.bss == (if claimed then 0 else Bss(e))
    && (if claimed || flags / 4 % 2 == 0 then p.room.stack == 0
        else Total(e) == (if Separate(e) then 0 else Text(e)) + Data(e) + Bss(e) + p.room.stack)
    && Bounded(e, p.room) && p.process == Placed(e, p.addr, click, p.room)
    && p.process.end % click == 0
    && 0 <= p.process.end - (p.process.data + Data(e) + p.room.bss + p.room.stack) < click
  }

  /** All processes after the kernel, each beginning where the one before ends. */
  predicate AllMade(ps: seq<Placement>, i: nat, setup: Setup, click: nat, flags: nat, addr: nat, limit: nat)
    decreases |ps|
  {
    ps == [] ||
    (Made(ps[0], i, setup, click, flags, limit) && ps[0].addr == addr
     && AllMade(ps[1..], i + 1, setup, click, flags, ps[0].process.end, limit))
  }

  /** The kernel begins at the first click from `base` on; if it sets bit 3, the others are in extended memory. */
  predicate KernelMade(ps: seq<Placement>, setup: Setup, click: nat, flags: nat, base: nat, top: nat) {
    ps == [] ||
    var high := flags / 8 % 2 == 1;
    && Made(ps[0], 0, setup, click, flags, top) && base <= ps[0].addr < base + click
    && AllMade(ps[1..], 1, setup, click, flags, if high then setup.highBase else ps[0].process.end,
               if high then setup.highLimit else top)
  }

  lemma StepMakes(image: Sectors, setup: Setup, at: At, h: nat)
    requires GetSector(image, h).Some? && Good(at, setup) && at.i < PROCESS_MAX && Step(image, setup, at, h).Some?
    ensures var s := Step(image, setup, at, h).value; var p, n := s.0, s.1;
      && Made(p, at.i, setup, n.click, n.flags, at.limit) && at.addr <= p.addr < at.addr + n.click
      && (at.i > 0 ==> p.addr == at.addr && n.click == at.click && n.flags == at.flags)
      && (at.i == 0 ==> KernelFacts(image, h + 1, p.exec) == Some((n.click, n.flags)))
      && var high := at.i == 0 && n.flags / 8 % 2 == 1;
         n.addr == (if high then setup.highBase else p.process.end)
         && n.limit == (if high then setup.highLimit else at.limit)
  {
    hide IsClick, Step, Ceil, Placed, ProcessBytes, Long, ExecIn, SegmentsReadable, Bounded;
    StepPlaces(image, setup, at, h);
    StepContinues(image, setup, at, h);
    StepFits(image, setup, at, h);
    StepFlags(image, setup, at, h);
    var s := Step(image, setup, at, h).value;
    ClickFacts(s.1.click);
    EndsAtClick(s.0.exec, s.0.addr, s.1.click, s.0.room);
  }

  lemma StepFlags(image: Sectors, setup: Setup, at: At, h: nat)
    requires GetSector(image, h).Some? && (at.i > 0 ==> IsClick(at.click)) && Step(image, setup, at, h).Some?
    ensures var s := Step(image, setup, at, h).value; var p, n := s.0, s.1;
      && (p.exec[3] == 0x10 ==> setup.processor >= 386)
      && (at.i > 0 ==> n.click == at.click && n.flags == at.flags)
      && (at.i == 0 ==> KernelFacts(image, h + 1, p.exec) == Some((n.click, n.flags)))
      && var high := at.i == 0 && n.flags / 8 % 2 == 1;
         n.addr == (if high then setup.highBase else p.process.end)
         && n.limit == (if high then setup.highLimit else at.limit)
  {
    hide IsClick, KernelFacts, Placed, ProcessBytes, ProcessFits, ExecIn, ProcSize, RoomOf, StartAt;
  }

  lemma EndsAtClick(e: Exec, addr: nat, click: nat, room: Room)
    requires click > 0 && addr % click == 0 && Bounded(e, room)
    ensures var q := Placed(e, addr, click, room);
      q.end % click == 0 && 0 <= q.end - (q.data + Data(e) + room.bss + room.stack) < click
  {
    hide Ceil, TextSegment, Data, Separate, Entry, UnmappedZeroPage;
    CeilBounds(DataStart(e, addr, click) + DataSegment(e) + room.bss + room.stack, click);
  }

  lemma {:induction false} RunMakes(image: Sectors, size: nat, setup: Setup, at: At)
    requires Good(at, setup) && at.i > 0 && Run(image, size, setup, at).Some?
    ensures AllMade(Run(image, size, setup, at).value, at.i, setup, at.click, at.flags, at.addr, at.limit)
    decreases |image| - at.vsec
  {
    hide Step, NextHeader, IsClick, Made;
    if at.vsec >= size {
      RunEnds(image, size, setup, at);
    } else {
      var h := Reached(image, size, setup, at);
      var s := Step(image, setup, at, h).value;
      StepPlaces(image, setup, at, h);
      StepMakes(image, setup, at, h);
      RunSteps(image, size, setup, at, h);
      RunMakes(image, size, setup, s.1);
      var rest := Run(image, size, setup, s.1).value;
      assert [s.0] + rest == Run(image, size, setup, at).value && ([s.0] + rest)[1..] == rest;
    }
  }

  /** A whole run, under the kernel's own click size and flags. */
  lemma RunMakesAll(image: Sectors, size: nat, setup: Setup, base: nat, top: nat) returns (click: nat, flags: nat)
    requires setup.highBase % 0x1_0000 == 0 && Run(image, size, setup, At(0, 0, base, top, 0, 0)).Some?
    ensures var ps := Run(image, size, setup, At(0, 0, base, top, 0, 0)).value;
      && KernelMade(ps, setup, click, flags, base, top)
      && (ps != [] ==>
            var h := NextHeader(image, 0, setup.wanted);
            h.Some? && KernelFacts(image, h.value + 1, ps[0].exec) == Some((click, flags)))
  {
    hide Step, NextHeader, IsClick, Made, KernelFacts, AllMade;
    var at := At(0, 0, base, top, 0, 0);
    click, flags := 16, 0;
    if size == 0 {
      RunEnds(image, size, setup, at);
    } else {
      var h := Reached(image, size, setup, at);
      var s := Step(image, setup, at, h).value;
      StepPlaces(image, setup, at, h);
      StepMakes(image, setup, at, h);
      RunSteps(image, size, setup, at, h);
      RunMakes(image, size, setup, s.1);
      var rest := Run(image, size, setup, s.1).value;
      assert [s.0] + rest == Run(image, size, setup, at).value && ([s.0] + rest)[1..] == rest;
      click, flags := s.1.click, s.1.flags;
    }
  }

  /** A run that is not over and not abandoned has a next header and takes a step. */
  lemma Reached(image: Sectors, size: nat, setup: Setup, at: At) returns (h: nat)
    requires (at.i > 0 ==> IsClick(at.click)) && at.vsec < size
    requires Run(image, size, setup, at).Some?
    ensures at.i != PROCESS_MAX && NextHeader(image, at.vsec, setup.wanted) == Some(h)
    ensures at.vsec <= h < |image| && GetSector(image, h).Some? && Step(image, setup, at, h).Some?
  {
    hide Step, IsClick;
    h := NextHeader(image, at.vsec, setup.wanted).value;
  }

  lemma StepContinues(image: Sectors, setup: Setup, at: At, h: nat)
    requires GetSector(image, h).Some? && (at.i > 0 ==> IsClick(at.click)) && Step(image, setup, at, h).Some?
    ensures var s := Step(image, setup, at, h).value;
      && s.1.i == at.i + 1 && (at.i > 0 ==> s.0.addr == at.addr)
      && (s.1.addr == s.0.process.end || (at.i == 0 && s.1.addr == setup.highBase))
      && s.0.click == s.1.click && SegmentsReadable(image, s.0.exec, h + 1)
      && s.0.bytes == ProcessBytes(image, s.0.exec, h + 1, s.0.addr, s.0.click, s.0.room)
      && s.1.vsec == h + 1 + ProcSize(s.0.exec) && s.0.exec == ExecIn(GetSector(image, h).value)
  {
    hide IsClick, ProcSize, ExecIn, SegmentsFit, Placed, ProcessBytes, Has, RoomOf;
  }

  lemma {:induction false} KeepsBelow(m: seq<Byte>, ps: seq<Placement>, from: nat, lo: nat, hi: nat)
    requires AllWithin(ps, |m|) && InOrder(ps, from) && lo <= hi <= from && hi <= |m|
    ensures Overlay(m, ps)[lo..hi] == m[lo..hi]
    decreases |ps|
  {
    hide Overwrite;
    if ps != [] {
      OverwriteSlice(m, ps[0].addr, ps[0].bytes, lo, hi);
      KeepsBelow(Overwrite(m, ps[0].addr, ps[0].bytes), ps[1..], ps[0].addr + |ps[0].bytes|, lo, hi);
    }
  }

  /** When all are loaded, the memory of each is as it was when it alone had been loaded. */
  lemma {:induction false} AllIntact(m: seq<Byte>, ps: seq<Placement>, from: nat, j: nat)
    requires AllWithin(ps, |m|) && InOrder(ps, from) && j < |ps| && ps[j].bytes != []
    ensures Overlay(m, ps)[ps[j].addr..ps[j].addr + |ps[j].bytes|] == ps[j].bytes
    decreases |ps|
  {
    hide Overwrite;
    var m' := Overwrite(m, ps[0].addr, ps[0].bytes);
    var end := ps[0].addr + |ps[0].bytes|;
    if j == 0 {
      OverwriteSlice(m, ps[0].addr, ps[0].bytes, ps[0].addr, end);
      KeepsBelow(m', ps[1..], end, ps[0].addr, end);
    } else {
      AllIntact(m', ps[1..], end, j - 1);
    }
  }
}
