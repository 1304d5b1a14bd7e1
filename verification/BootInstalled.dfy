/** What the loader makes of an image that was made from executables. */
module BootInstalled {
  import opened BootLoad
  import opened BootRun
  import opened ImageFormat

  function SectorAt(bytes: seq<Byte>, i: nat): Sector
    requires i < |bytes| / SECTOR_SIZE
  {
    bytes[SECTOR_SIZE * i..SECTOR_SIZE * i + SECTOR_SIZE]
  }

  /** The sectors begin with those of the image file `bytes`. What follows is whatever can be read there: the
      rest of the file's last block, or of the disk. */
  ghost predicate Shows(image: Sectors, bytes: seq<Byte>) {
    && |bytes| / SECTOR_SIZE <= |image|
    && forall i :: 0 <= i < |bytes| / SECTOR_SIZE ==> image[i] == Some(SectorAt(bytes, i))
  }

  lemma SectorShown(image: Sectors, bytes: seq<Byte>, i: nat)
    requires Shows(image, bytes) && SECTOR_SIZE * i + SECTOR_SIZE <= |bytes|
    ensures GetSector(image, i).Some?
    ensures GetSector(image, i).value == bytes[SECTOR_SIZE * i..SECTOR_SIZE * i + SECTOR_SIZE]
  {
    assert image[i] == Some(SectorAt(bytes, i));
  }

  lemma {:induction false} SectorsRead(image: Sectors, bytes: seq<Byte>, vsec: nat, n: nat)
    requires Shows(image, bytes) && SECTOR_SIZE * (vsec + n) <= |bytes|
    ensures CanRead(image, vsec, n)
    ensures ImageBytes(image, vsec, n) == bytes[SECTOR_SIZE * vsec..SECTOR_SIZE * (vsec + n)]
  {
    hide Shows, GetSector;
    if n > 0 {
      SectorsRead(image, bytes, vsec, n - 1);
      SectorShown(image, bytes, vsec + n - 1);
      var mid := SECTOR_SIZE * (vsec + n - 1);
      assert bytes[SECTOR_SIZE * vsec..mid] + bytes[mid..mid + SECTOR_SIZE]
        == bytes[SECTOR_SIZE * vsec..mid + SECTOR_SIZE];
    }
  }

  /** Bytes, and zeros to the next click. */
  function ToClick(s: seq<Byte>, click: nat): seq<Byte>
    requires click > 0
  {
    CeilBounds(|s|, click);
    s + Zeros(Ceil(|s|, click) - |s|)
  }

  /** The memory that a program needs: text and data from its file, everything else zero. */
  function MemoryOf(p: Program, click: nat, room: Room): seq<Byte>
    requires Complete(p) && click > 0
  {
    SegmentsIn(p, click) + Zeros(BssClicks(ExecOf(p), click, room))
  }

  function SegmentsIn(p: Program, click: nat): seq<Byte>
    requires Complete(p) && click > 0
  {
    if Separate(ExecOf(p)) then
      ToClick(p.file[TextStart(p)..TextEnd(p)], click) + ToClick(p.file[TextEnd(p)..DataEnd(p)], click)
    else ToClick(p.file[TextStart(p)..DataEnd(p)], click)
  }

  lemma SegmentIsPadded(image: Sectors, vsec: nat, s: seq<Byte>, click: nat)
    requires click > 0 && CanRead(image, vsec, SectorsFor(|s|)) && ImageBytes(image, vsec, SectorsFor(|s|)) == Padded(s)
    ensures SegmentBytes(image, vsec, |s|, click) == ToClick(s, click)
  {
    hide CanRead, ImageBytes, SectorsFor, Ceil;
    CeilBounds(|s|, click);
  }

  // ----- one program -----

  /** From sector `vsec` on the image holds the programs `ps`. */
  ghost predicate HoldsFrom(image: Sectors, bytes: seq<Byte>, vsec: nat, ps: seq<Program>) {
    && Shows(image, bytes) && AllComplete(ps) && |bytes| % SECTOR_SIZE == 0 && SECTOR_SIZE * vsec <= |bytes|
    && bytes[SECTOR_SIZE * vsec..] == Image(ps)
  }

  /** The header sector is the program's, and past its segments the others follow. */
  lemma NextInStep(image: Sectors, bytes: seq<Byte>, vsec: nat, ps: seq<Program>)
    requires HoldsFrom(image, bytes, vsec, ps) && ps != []
    ensures var e := ExecOf(ps[0]);
      && vsec < |image| && GetSector(image, vsec).Some? && GetSector(image, vsec).value == HeaderSector(ps[0])
      && NameIn(HeaderSector(ps[0])) == ps[0].name && ExecIn(HeaderSector(ps[0])) == Stripped(e)
      && GoodMagic(Stripped(e)) && ProcSize(Stripped(e)) == ProcSize(e)
      && HoldsFrom(image, bytes, vsec + 1 + ProcSize(e), ps[1..])
      && bytes[SECTOR_SIZE * (vsec + 1)..SECTOR_SIZE * (vsec + 1 + ProcSize(e))] == Segments(ps[0])
  {
    hide HeaderSector, Segments, ProcSize, Readable, ExecOf, CString, Stripped, Long, NameIn;
    var p := ps[0];
    HeaderReads(p);
    SegmentsFillSectors(p);
    StripKeeps(ExecOf(p));
    var at, n := SECTOR_SIZE * vsec, SECTOR_SIZE * ProcSize(ExecOf(p));
    ThreeParts(bytes, at, HeaderSector(p), Segments(p), Image(ps[1..]));
    assert at + SECTOR_SIZE == SECTOR_SIZE * (vsec + 1)
      && at + SECTOR_SIZE + n == SECTOR_SIZE * (vsec + 1 + ProcSize(ExecOf(p)));
  }

  lemma ThreeParts(bytes: seq<Byte>, at: nat, a: seq<Byte>, b: seq<Byte>, c: seq<Byte>)
    requires at <= |bytes| && bytes[at..] == a + b + c
    ensures |bytes| == at + |a| + |b| + |c|
    ensures bytes[at..at + |a|] == a && bytes[at + |a|..at + |a| + |b|] == b && bytes[at + |a| + |b|..] == c
  {
    var rest := bytes[at..];
    assert rest[..|a|] == a && rest[|a|..|a| + |b|] == b && rest[|a| + |b|..] == c;
  }

  lemma StripSizes(e: Exec, click: nat, room: Room)
    requires click > 0
    ensures Separate(Stripped(e)) == Separate(e) && TextSegment(Stripped(e)) == TextSegment(e)
    ensures Data(Stripped(e)) == Data(e) && ProcSize(Stripped(e)) == ProcSize(e)
    ensures BssClicks(Stripped(e), click, room) == BssClicks(e, click, room)
  {
    hide Ceil, Stripped, Separate, PageAligned, HdrLen, Text, Data, SectorsFor;
    StripKeeps(e);
  }

  /** What is loaded for the program is what it needs. */
  lemma LoadsTheProgram(image: Sectors, bytes: seq<Byte>, vsec: nat, ps: seq<Program>, addr: nat, click: nat,
                        room: Room)
    requires HoldsFrom(image, bytes, vsec, ps) && ps != [] && click > 0
    requires SegmentsReadable(image, Stripped(ExecOf(ps[0])), vsec + 1)
    ensures ProcessBytes(image, Stripped(ExecOf(ps[0])), vsec + 1, addr, click, room)
         == MemoryOf(ps[0], click, room)
  {
    hide *;
    HoldsEnough(image, bytes, vsec, ps);
    var e, se := ExecOf(ps[0]), Stripped(ExecOf(ps[0]));
    StripSizes(e, click, room);
    LoadsSegments(image, bytes, vsec, ps, addr, click);
    ProcessBytesAre(image, se, vsec + 1, addr, click, room);
    MemoryIs(ps[0], click, room);
  }

  lemma ProcessBytesAre(image: Sectors, e: Exec, vsec: nat, addr: nat, click: nat, room: Room)
    requires click > 0 && SegmentsReadable(image, e, vsec)
    ensures ProcessBytes(image, e, vsec, addr, click, room)
         == SegmentsBytes(image, e, vsec, addr, click) + Zeros(BssClicks(e, click, room))
  {
  }

  lemma MemoryIs(p: Program, click: nat, room: Room)
    requires Complete(p) && click > 0
    ensures MemoryOf(p, click, room) == SegmentsIn(p, click) + Zeros(BssClicks(ExecOf(p), click, room))
  {
  }

  lemma LoadsSegments(image: Sectors, bytes: seq<Byte>, vsec: nat, ps: seq<Program>, addr: nat, click: nat)
    requires HoldsFrom(image, bytes, vsec, ps) && ps != [] && click > 0
    requires SegmentsReadable(image, Stripped(ExecOf(ps[0])), vsec + 1)
    ensures SegmentsBytes(image, Stripped(ExecOf(ps[0])), vsec + 1, addr, click) == SegmentsIn(ps[0], click)
  {
    hide ExecOf, Stripped, SegmentBytes, SegmentsIn, CanRead, HoldsFrom, Readable, Separate, SectorsFor, TextSegment,
      Data;
    HoldsEnough(image, bytes, vsec, ps);
    StripSizes(ExecOf(ps[0]), click, Room(0, 0));
    InSectors(image, bytes, vsec, ps, click);
  }

  /** The segments can be read at `at`, and `m` is what they are in memory. */
  predicate SegmentsAt(image: Sectors, e: Exec, at: nat, click: nat, m: seq<Byte>)
    requires click > 0
  {
    var text, data := TextSegment(e), Data(e);
    if Separate(e) then
      && CanRead(image, at, SectorsFor(text)) && CanRead(image, at + SectorsFor(text), SectorsFor(data))
      && SegmentBytes(image, at, text, click) + SegmentBytes(image, at + SectorsFor(text), data, click) == m
    else
      && CanRead(image, at, SectorsFor(text + data)) && SegmentBytes(image, at, text + data, click) == m
  }

  /** Where the segments are in the image. */
  lemma InSectors(image: Sectors, bytes: seq<Byte>, vsec: nat, ps: seq<Program>, click: nat)
    requires HoldsFrom(image, bytes, vsec, ps) && ps != [] && Complete(ps[0]) && click > 0
    ensures SegmentsAt(image, ExecOf(ps[0]), vsec + 1, click, SegmentsIn(ps[0], click))
  {
    hide HeaderSector, ExecOf, Stripped, NameIn, ExecIn, GoodMagic, Image, SegmentBytes, SegmentsIn, CanRead, HoldsFrom,
      Shows, Segments, Readable, Separate, SectorsFor, TextSegment, Data, ProcSize, GetSector;
    var p := ps[0];
    HoldsEnough(image, bytes, vsec, ps);
    NextInStep(image, bytes, vsec, ps);
    HoldsEnough(image, bytes, vsec + 1 + ProcSize(ExecOf(p)), ps[1..]);
    if Separate(ExecOf(p)) {
      LoadsTwo(image, bytes, vsec + 1, p, click);
    } else {
      LoadsBoth(image, bytes, vsec + 1, p, click);
    }
  }

  lemma LoadsBoth(image: Sectors, bytes: seq<Byte>, at: nat, p: Program, click: nat)
    requires Shows(image, bytes) && Complete(p) && !Separate(ExecOf(p)) && click > 0
    requires var n := ProcSize(ExecOf(p));
      SECTOR_SIZE * (at + n) <= |bytes| && bytes[SECTOR_SIZE * at..SECTOR_SIZE * (at + n)] == Segments(p)
    ensures var e := ExecOf(p); var size := TextSegment(e) + Data(e);
      && CanRead(image, at, SectorsFor(size))
      && SegmentBytes(image, at, size, click) == SegmentsIn(p, click)
  {
    hide ExecOf, SegmentBytes, ToClick, CanRead, Ceil, Padded, Readable, PageAligned, Separate, SectorsFor, TextStart,
      TextEnd, DataEnd, Text, Data, HdrLen, TextSegment;
    TextLength(p);
    var both := p.file[TextStart(p)..DataEnd(p)];
    SectorsRead(image, bytes, at, SectorsFor(|both|));
    SegmentIsPadded(image, at, both, click);
  }

  lemma LoadsTwo(image: Sectors, bytes: seq<Byte>, at: nat, p: Program, click: nat)
    requires Shows(image, bytes) && Complete(p) && Separate(ExecOf(p)) && click > 0
    requires var n := ProcSize(ExecOf(p));
      SECTOR_SIZE * (at + n) <= |bytes| && bytes[SECTOR_SIZE * at..SECTOR_SIZE * (at + n)] == Segments(p)
    ensures var e := ExecOf(p); var n := SectorsFor(TextSegment(e));
      && CanRead(image, at, n) && CanRead(image, at + n, SectorsFor(Data(e)))
      && SegmentBytes(image, at, TextSegment(e), click) + SegmentBytes(image, at + n, Data(e), click)
        == SegmentsIn(p, click)
  {
    hide ExecOf, SegmentBytes, ToClick, CanRead, Ceil, Padded, Readable, PageAligned, Separate, SectorsFor, TextStart,
      TextEnd, DataEnd, Text, Data, HdrLen, TextSegment;
    var e := ExecOf(p);
    TextLength(p);
    var text, data := p.file[TextStart(p)..TextEnd(p)], p.file[TextEnd(p)..DataEnd(p)];
    var n := SectorsFor(|text|);
    SectorsRead(image, bytes, at, n);
    SectorsRead(image, bytes, at + n, SectorsFor(|data|));
    TwoSegments(bytes, SECTOR_SIZE * at, Padded(text), Padded(data));
    SegmentIsPadded(image, at, text, click);
    SegmentIsPadded(image, at + n, data, click);
  }

  lemma TextLength(p: Program)
    requires Complete(p)
    ensures TextStart(p) <= TextEnd(p) <= DataEnd(p) <= |p.file|
    ensures TextEnd(p) - TextStart(p) == TextSegment(ExecOf(p)) && DataEnd(p) - TextEnd(p) == Data(ExecOf(p))
  {
  }

  lemma HoldsEnough(image: Sectors, bytes: seq<Byte>, vsec: nat, ps: seq<Program>)
    requires HoldsFrom(image, bytes, vsec, ps)
    ensures Shows(image, bytes) && SECTOR_SIZE * vsec <= |bytes| && |bytes| % SECTOR_SIZE == 0 && AllComplete(ps)
    ensures ps != [] ==> Readable(ps[0]) && Complete(ps[0])
    ensures vsec >= |bytes| / SECTOR_SIZE <==> ps == []
  {
    hide Readable, HeaderSector, Segments;
  }

  lemma TwoSegments(bytes: seq<Byte>, at: nat, s: seq<Byte>, t: seq<Byte>)
    requires at + |s| + |t| <= |bytes| && bytes[at..at + |s| + |t|] == s + t
    ensures bytes[at..at + |s|] == s && bytes[at + |s|..at + |s| + |t|] == t
  {
    assert bytes[at..at + |s|] == (s + t)[..|s|];
    assert bytes[at + |s|..at + |s| + |t|] == (s + t)[|s|..];
  }

  // ----- all programs -----

  function Chosen(ps: seq<Program>, wanted: Option<seq<Byte>>): seq<Program> {
    if ps == [] then []
    else (if Selected(wanted, ps[0].name) then [ps[0]] else []) + Chosen(ps[1..], wanted)
  }

  /** Each program is placed with its header, and its memory is what it needs. */
  predicate AllPlaced(ps: seq<Program>, pl: seq<Placement>)
    requires AllComplete(ps)
    decreases |ps|
  {
    && |ps| == |pl|
    && (ps != [] ==>
          && pl[0].exec == Stripped(ExecOf(ps[0])) && pl[0].click > 0
          && pl[0].bytes == MemoryOf(ps[0], pl[0].click, pl[0].room)
          && AllPlaced(ps[1..], pl[1..]))
  }

  /** The programs are chosen one by one, each by its own name. */
  lemma {:induction false} ChosenExactly(ps: seq<Program>, p: Program, wanted: Option<seq<Byte>>)
    requires wanted.Some? ==> COLON !in wanted.value
    ensures Chosen([], wanted) == []
    ensures Chosen(ps + [p], wanted) == Chosen(ps, wanted) + if Wants(wanted, p.name) then [p] else []
  {
    hide Selected, Wants;
    SelectedExactly(wanted, p.name);
    if ps == [] {
      assert [] + [p] == [p] && [p][1..] == [];
    } else {
      assert (ps + [p])[1..] == ps[1..] + [p];
      ChosenExactly(ps[1..], p, wanted);
    }
  }

  // ----- the kernel's words -----

  lemma SegmentsBegin(p: Program, k: nat)
    requires Complete(p) && k < TextSegment(ExecOf(p))
    ensures TextStart(p) + k < TextEnd(p) <= |p.file|
    ensures k < |Segments(p)| && Segments(p)[k] == p.file[TextStart(p) + k]
  {
    hide ExecOf, Readable, Long, PageAligned, Separate;
  }

  lemma FirstSector(image: Sectors, bytes: seq<Byte>, vsec: nat, ps: seq<Program>, k: nat)
    requires HoldsFrom(image, bytes, vsec, ps) && ps != [] && Complete(ps[0])
    requires k < TextSegment(ExecOf(ps[0])) && k < SECTOR_SIZE
    ensures GetSector(image, vsec + 1).Some? && TextStart(ps[0]) + k < |ps[0].file|
    ensures GetSector(image, vsec + 1).value[k] == ps[0].file[TextStart(ps[0]) + k]
  {
    hide ExecOf, Readable, Segments, Image, HoldsFrom, HeaderSector, ProcSize, TextSegment, TextStart, TextEnd, NameIn,
      ExecIn, Stripped, GoodMagic;
    var p := ps[0];
    HoldsEnough(image, bytes, vsec, ps);
    NextInStep(image, bytes, vsec, ps);
    HoldsEnough(image, bytes, vsec + 1 + ProcSize(ExecOf(p)), ps[1..]);
    SegmentsFillSectors(p);
    SegmentsBegin(p, k);
    var at := SECTOR_SIZE * (vsec + 1);
    assert Segments(p)[k] == bytes[at + k];
    assert image[vsec + 1] == Some(SectorAt(bytes, vsec + 1));
  }

  /** Click shift and flags are the words at 2 and 4 behind the header of the kernel's file. */
  lemma KernelWords(image: Sectors, bytes: seq<Byte>, vsec: nat, ps: seq<Program>)
    requires HoldsFrom(image, bytes, vsec, ps) && ps != [] && Complete(ps[0]) && Text(ExecOf(ps[0])) >= 6
    ensures var file := ps[0].file; var at := HdrLen(ExecOf(ps[0]));
      at + 6 <= |file| &&
      var shift, flags := Word(file, at + 2), Word(file, at + 4);
      KernelFacts(image, vsec + 1, Stripped(ExecOf(ps[0])))
      == if flags > 0x1FF || shift < 4 || shift > 16 then None else Some((Shifted(shift), flags))
  {
    hide ExecOf, Readable, Segments, Image, HoldsFrom, HeaderSector, ProcSize, Long, NameIn, ExecIn, Stripped,
      GoodMagic, Shifted, IsClick, GetSector, PageAligned;
    var e := ExecOf(ps[0]);
    StripKeeps(e);
    var at := if PageAligned(e) then HdrLen(e) else 0;
    FirstSector(image, bytes, vsec, ps, at + 2);
    FirstSector(image, bytes, vsec, ps, at + 3);
    FirstSector(image, bytes, vsec, ps, at + 4);
    FirstSector(image, bytes, vsec, ps, at + 5);
  }

  /** The search for a header finds the first chosen program. */
  lemma {:induction false} FirstChosen(image: Sectors, bytes: seq<Byte>, vsec: nat, ps: seq<Program>,
                                       wanted: Option<seq<Byte>>)
    returns (h: nat, left: seq<Program>)
    requires HoldsFrom(image, bytes, vsec, ps) && Chosen(ps, wanted) != []
    ensures NextHeader(image, vsec, wanted) == Some(h) && HoldsFrom(image, bytes, h, left)
    ensures left != [] && Complete(left[0]) && left[0] == Chosen(ps, wanted)[0]
    decreases |ps|
  {
    hide HoldsFrom, Selected, Complete, ExecOf, Stripped, ProcSize, HeaderSector, NameIn, ExecIn, GoodMagic, Readable;
    HoldsEnough(image, bytes, vsec, ps);
    NextInStep(image, bytes, vsec, ps);
    ChosenFirst(ps, wanted);
    if Selected(wanted, ps[0].name) {
      h, left := vsec, ps;
    } else {
      h, left := FirstChosen(image, bytes, vsec + 1 + ProcSize(ExecOf(ps[0])), ps[1..], wanted);
    }
  }

  /** The click size and the flags are those that the program's text begins with. */
  predicate KernelSays(p: Program, click: nat, flags: nat)
    requires Complete(p)
  {
    var at, file := HdrLen(ExecOf(p)), p.file;
    Text(ExecOf(p)) >= 6 ==>
      flags == Word(file, at + 4) <= 0x1FF && 4 <= Word(file, at + 2) <= 16 && click == Shifted(Word(file, at + 2))
  }

  /** Nothing is left, or the last program is one to load. */
  predicate LastIsChosen(ps: seq<Program>, wanted: Option<seq<Byte>>) {
    ps == [] || Selected(wanted, ps[|ps| - 1].name)
  }

  /** What follows the image cannot be read, or is no header. */
  predicate NothingBehind(image: Sectors, size: nat) {
    match GetSector(image, size)
    case None => true
    case Some(s) => !GoodMagic(ExecIn(s))
  }

  /** No search for a header goes on behind the image, or it finds nothing there. */
  predicate StaysInside(image: Sectors, size: nat, ps: seq<Program>, wanted: Option<seq<Byte>>) {
    LastIsChosen(ps, wanted) || NothingBehind(image, size)
  }

  /** A run over an image of executables places exactly the chosen ones, in order, each with its own
      text and data. If no header follows the image, it is abandoned when the last executable is not chosen. */
  lemma {:induction false} RunPlacesChosen(image: Sectors, bytes: seq<Byte>, ps: seq<Program>, setup: Setup, at: At)
    requires HoldsFrom(image, bytes, at.vsec, ps) && (at.i > 0 ==> IsClick(at.click))
    requires StaysInside(image, |bytes| / SECTOR_SIZE, ps, setup.wanted)
    requires Run(image, |bytes| / SECTOR_SIZE, setup, at).Some?
    ensures AllComplete(Chosen(ps, setup.wanted)) && LastIsChosen(ps, setup.wanted)
    ensures AllPlaced(Chosen(ps, setup.wanted), Run(image, |bytes| / SECTOR_SIZE, setup, at).value)
    decreases |ps|
  {
    hide HoldsFrom, Step, MemoryOf, Stripped, ExecOf, Selected, IsClick, Run, AllComplete, LastIsChosen,
      NothingBehind, Strays;
    var size := |bytes| / SECTOR_SIZE;
    HoldsEnough(image, bytes, at.vsec, ps);
    LastSplits(ps, setup.wanted);
    if ps == [] {
      RunEnds(image, size, setup, at);
    } else if Selected(setup.wanted, ps[0].name) {
      var pl, next := PlacesFirst(image, bytes, ps, setup, at);
      var rest := Run(image, size, setup, next);
      RunPlacesChosen(image, bytes, ps[1..], setup, next);
      assert ([pl] + rest.value)[1..] == rest.value;
      ChosenFirst(ps, setup.wanted);
    } else {
      var next := RunPasses(image, bytes, ps, setup, at);
      RunPlacesChosen(image, bytes, ps[1..], setup, next);
      ChosenFirst(ps, setup.wanted);
    }
  }

  /** Where the run goes on when the first program is admitted. */
  function AfterFirst(image: Sectors, ps: seq<Program>, setup: Setup, at: At): (next: At)
    requires ps != [] && Complete(ps[0]) && (at.i > 0 ==> IsClick(at.click))
    requires Admitted(image, setup, at, at.vsec, Stripped(ExecOf(ps[0])))
    ensures next.i == at.i + 1 && IsClick(next.click)
  {
    var e := Stripped(ExecOf(ps[0]));
    var k := Clicks(image, at, at.vsec, e).value;
    Onward(setup, at, at.vsec, e, k.0, k.1)
  }

  /** Behind the image the search comes upon a header after all, and that process is loaded. */
  predicate Strays(image: Sectors, setup: Setup, at: At)
    requires at.i > 0 ==> IsClick(at.click)
  {
    at.i != PROCESS_MAX &&
    match NextHeader(image, at.vsec, setup.wanted)
    case None => false
    case Some(h) => Step(image, setup, at, h).Some?
  }

  /** The run gets past every program in `ps`: each chosen one is admitted where those before it leave off, and
      if the last is passed over, a process behind the image takes its place. Apart from the kernel's click size
      and flags, and from such a process, this is about the programs' sizes only. */
  predicate EachAdmitted(image: Sectors, ps: seq<Program>, setup: Setup, at: At)
    requires AllComplete(ps) && (at.i > 0 ==> IsClick(at.click))
    decreases |ps|
  {
    ps == [] ||
    var e := Stripped(ExecOf(ps[0]));
    if Selected(setup.wanted, ps[0].name) then
      && at.i != PROCESS_MAX && Admitted(image, setup, at, at.vsec, e)
      && EachAdmitted(image, ps[1..], setup, AfterFirst(image, ps, setup, at))
    else
      var next := at.(vsec := at.vsec + 1 + ProcSize(e));
      if |ps| == 1 then Strays(image, setup, next) else EachAdmitted(image, ps[1..], setup, next)
  }

  /** A run over an image of executables gets to its end exactly if all that are to load are admitted. */
  lemma {:induction false} RunExactly(image: Sectors, bytes: seq<Byte>, ps: seq<Program>, setup: Setup, at: At)
    requires HoldsFrom(image, bytes, at.vsec, ps) && (at.i > 0 ==> IsClick(at.click)) && AllComplete(ps)
    ensures Run(image, |bytes| / SECTOR_SIZE, setup, at).Some? <==> EachAdmitted(image, ps, setup, at)
    decreases |ps|
  {
    hide HoldsFrom, Stripped, ExecOf, Selected, IsClick, Run, Complete, AllComplete, EachAdmitted, AfterFirst,
      Admitted, ProcSize, Readable, Strays, NothingBehind;
    var size := |bytes| / SECTOR_SIZE;
    HoldsEnough(image, bytes, at.vsec, ps);
    AdmittedSplits(image, ps, setup, at);
    if ps == [] {
      RunEnds(image, size, setup, at);
    } else if Selected(setup.wanted, ps[0].name) {
      var next := RunChosen(image, bytes, ps, setup, at);
      if next.Some? {
        RunExactly(image, bytes, ps[1..], setup, next.value);
      }
    } else {
      var next := RunPasses(image, bytes, ps, setup, at);
      if ps[1..] != [] {
        RunExactly(image, bytes, ps[1..], setup, next);
      }
    }
  }

  /** If no header follows the image, the last executable has to be one to load. */
  lemma LastIsNeeded(image: Sectors, bytes: seq<Byte>, ps: seq<Program>, setup: Setup, at: At)
    requires HoldsFrom(image, bytes, at.vsec, ps) && (at.i > 0 ==> IsClick(at.click)) && AllComplete(ps)
    requires NothingBehind(image, |bytes| / SECTOR_SIZE) && !LastIsChosen(ps, setup.wanted)
    ensures !EachAdmitted(image, ps, setup, at)
  {
    hide HoldsFrom, EachAdmitted, Run, StaysInside, LastIsChosen, NothingBehind, AllComplete, Chosen, AllPlaced,
      IsClick;
    RunExactly(image, bytes, ps, setup, at);
    if Run(image, |bytes| / SECTOR_SIZE, setup, at).Some? {
      Inside(image, |bytes| / SECTOR_SIZE, ps, setup.wanted);
      RunPlacesChosen(image, bytes, ps, setup, at);
    }
  }

  lemma Inside(image: Sectors, size: nat, ps: seq<Program>, wanted: Option<seq<Byte>>)
    requires NothingBehind(image, size) || LastIsChosen(ps, wanted)
    ensures StaysInside(image, size, ps, wanted)
  {
  }

  lemma LastSplits(ps: seq<Program>, wanted: Option<seq<Byte>>)
    ensures ps == [] ==> LastIsChosen(ps, wanted)
    ensures ps != [] ==>
      (LastIsChosen(ps, wanted) <==> LastIsChosen(ps[1..], wanted) && (ps[1..] != [] || Selected(wanted, ps[0].name)))
  {
    hide Selected;
  }

  lemma AdmittedSplits(image: Sectors, ps: seq<Program>, setup: Setup, at: At)
    requires AllComplete(ps) && (at.i > 0 ==> IsClick(at.click))
    ensures ps == [] ==> EachAdmitted(image, ps, setup, at)
    ensures ps != [] ==> Complete(ps[0]) && AllComplete(ps[1..])
    ensures ps != [] ==>
      var e := Stripped(ExecOf(ps[0]));
      var r := EachAdmitted(image, ps, setup, at);
      var next := at.(vsec := at.vsec + 1 + ProcSize(e));
      if !Selected(setup.wanted, ps[0].name) then
        r == if |ps| == 1 then Strays(image, setup, next) else EachAdmitted(image, ps[1..], setup, next)
      else if at.i != PROCESS_MAX && Admitted(image, setup, at, at.vsec, e) then
        r == EachAdmitted(image, ps[1..], setup, AfterFirst(image, ps, setup, at))
      else !r
  {
    hide Selected, Readable, ExecOf, Stripped, ProcSize, WrongProcessor, KernelFacts, IsClick, ProcessRoom, Strays,
      Placed, StartAt;
  }

  /** A chosen program that is admitted is loaded; one that is not ends the run. */
  lemma RunChosen(image: Sectors, bytes: seq<Byte>, ps: seq<Program>, setup: Setup, at: At) returns (next: Option<At>)
    requires HoldsFrom(image, bytes, at.vsec, ps) && (at.i > 0 ==> IsClick(at.click))
    requires ps != [] && Complete(ps[0]) && Selected(setup.wanted, ps[0].name)
    ensures var e := Stripped(ExecOf(ps[0]));
      var run := Run(image, |bytes| / SECTOR_SIZE, setup, at);
      match next
      case None => run.None? && !(at.i != PROCESS_MAX && Admitted(image, setup, at, at.vsec, e))
      case Some(n) =>
        && at.i != PROCESS_MAX && Admitted(image, setup, at, at.vsec, e)
        && n == AfterFirst(image, ps, setup, at) && IsClick(n.click) && HoldsFrom(image, bytes, n.vsec, ps[1..])
        && (run.Some? <==> Run(image, |bytes| / SECTOR_SIZE, setup, n).Some?)
  {
    hide HoldsFrom, Readable, ExecOf, Stripped, ProcSize, HeaderSector, NameIn, ExecIn, GoodMagic,
      Selected, Step, IsClick, Admitted, Onward, Run, SegmentsReadable, GetSector, Clicks;
    var size, e := |bytes| / SECTOR_SIZE, Stripped(ExecOf(ps[0]));
    HoldsEnough(image, bytes, at.vsec, ps);
    NextInStep(image, bytes, at.vsec, ps);
    HeaderHere(image, at.vsec, setup.wanted);
    StepExactly(image, setup, at, at.vsec, e);
    SegmentsThere(image, bytes, at.vsec, ps);
    if at.i == PROCESS_MAX || Step(image, setup, at, at.vsec).None? {
      RunFails(image, size, setup, at);
      next := None;
    } else {
      RunSteps(image, size, setup, at, at.vsec);
      next := Some(Step(image, setup, at, at.vsec).value.1);
    }
  }

  lemma ChosenFirst(ps: seq<Program>, wanted: Option<seq<Byte>>)
    requires ps != []
    ensures var rest := Chosen(ps[1..], wanted); var c := Chosen(ps, wanted);
      if Selected(wanted, ps[0].name) then
        c != [] && c[0] == ps[0] && c[1..] == rest && (AllComplete(rest) && Complete(ps[0]) ==> AllComplete(c))
      else c == rest
  {
    hide Selected, Complete;
  }

  lemma PlacesFirst(image: Sectors, bytes: seq<Byte>, ps: seq<Program>, setup: Setup, at: At)
    returns (pl: Placement, next: At)
    requires HoldsFrom(image, bytes, at.vsec, ps) && (at.i > 0 ==> IsClick(at.click))
    requires Run(image, |bytes| / SECTOR_SIZE, setup, at).Some?
    requires ps != [] && Selected(setup.wanted, ps[0].name)
    ensures Complete(ps[0]) && pl.exec == Stripped(ExecOf(ps[0]))
    ensures pl.click > 0 && pl.bytes == MemoryOf(ps[0], pl.click, pl.room)
    ensures HoldsFrom(image, bytes, next.vsec, ps[1..]) && (next.i > 0 ==> IsClick(next.click))
    ensures Run(image, |bytes| / SECTOR_SIZE, setup, at)
         == Prepend([pl], Run(image, |bytes| / SECTOR_SIZE, setup, next))
  {
    hide HoldsFrom, Complete, Step, MemoryOf, ExecOf, Stripped, Selected, ProcSize, Run, HeaderSector,
      NameIn, ExecIn, Long, GoodMagic, IsClick, ProcessBytes, SegmentsReadable, Readable;
    var size := |bytes| / SECTOR_SIZE;
    HoldsEnough(image, bytes, at.vsec, ps);
    NextInStep(image, bytes, at.vsec, ps);
    var h := Reached(image, size, setup, at);
    HeaderHere(image, at.vsec, setup.wanted);
    StepContinues(image, setup, at, h);
    RunSteps(image, size, setup, at, h);
    var s := Step(image, setup, at, h).value;
    pl, next := s.0, s.1;
    ClickFacts(pl.click);
    LoadsTheProgram(image, bytes, at.vsec, ps, pl.addr, pl.click, pl.room);
  }

  /** A program that is not chosen is passed over; if it is the last, what is behind the image decides. */
  lemma RunPasses(image: Sectors, bytes: seq<Byte>, ps: seq<Program>, setup: Setup, at: At) returns (next: At)
    requires HoldsFrom(image, bytes, at.vsec, ps) && (at.i > 0 ==> IsClick(at.click))
    requires ps != [] && Complete(ps[0]) && !Selected(setup.wanted, ps[0].name)
    ensures next == at.(vsec := at.vsec + 1 + ProcSize(Stripped(ExecOf(ps[0]))))
    ensures HoldsFrom(image, bytes, next.vsec, ps[1..])
    ensures var size := |bytes| / SECTOR_SIZE;
      if ps[1..] == [] then
        && (Run(image, size, setup, at).Some? <==> Strays(image, setup, next))
        && (NothingBehind(image, size) ==> !Strays(image, setup, next))
      else Run(image, size, setup, at) == Run(image, size, setup, next)
  {
    hide HoldsFrom, Readable, Step, ExecOf, Stripped, Selected, ProcSize, Run, HeaderSector, NameIn, ExecIn,
      GoodMagic, IsClick, Strays, NothingBehind;
    var size := |bytes| / SECTOR_SIZE;
    HoldsEnough(image, bytes, at.vsec, ps);
    NextInStep(image, bytes, at.vsec, ps);
    next := at.(vsec := at.vsec + 1 + ProcSize(Stripped(ExecOf(ps[0]))));
    HeaderSkipped(image, size, setup, at, next.vsec);
    HoldsEnough(image, bytes, next.vsec, ps[1..]);
    if ps[1..] == [] && NothingBehind(image, size) {
      assert next.vsec == size;
      NothingFound(image, setup, next);
    }
  }

  lemma NothingFound(image: Sectors, setup: Setup, at: At)
    requires NothingBehind(image, at.vsec) && (at.i > 0 ==> IsClick(at.click))
    ensures NextHeader(image, at.vsec, setup.wanted).None? && !Strays(image, setup, at)
  {
    hide GoodMagic, ExecIn, Step;
  }

  /** All segments of a program can be read from an image that holds it. */
  lemma SegmentsThere(image: Sectors, bytes: seq<Byte>, vsec: nat, ps: seq<Program>)
    requires HoldsFrom(image, bytes, vsec, ps) && ps != [] && Complete(ps[0])
    ensures SegmentsReadable(image, Stripped(ExecOf(ps[0])), vsec + 1)
  {
    hide ExecOf, Stripped, SegmentBytes, SegmentsIn, CanRead, HoldsFrom, Readable, Separate, SectorsFor, TextSegment,
      Data;
    StripSizes(ExecOf(ps[0]), 1, Room(0, 0));
    InSectors(image, bytes, vsec, ps, 1);
  }

  lemma HeaderHere(image: Sectors, vsec: nat, wanted: Option<seq<Byte>>)
    requires GetSector(image, vsec).Some?
    requires var s := GetSector(image, vsec).value; GoodMagic(ExecIn(s)) && Selected(wanted, NameIn(s))
    ensures NextHeader(image, vsec, wanted) == Some(vsec)
  {
    hide Selected, NameIn, ExecIn, GoodMagic;
  }

  /** A process that is not wanted is passed over, and the search goes on, even behind the image. */
  lemma HeaderSkipped(image: Sectors, size: nat, setup: Setup, at: At, next: nat)
    requires GetSector(image, at.vsec).Some? && (at.i > 0 ==> IsClick(at.click)) && at.vsec < size
    requires var s := GetSector(image, at.vsec).value; GoodMagic(ExecIn(s)) && !Selected(setup.wanted, NameIn(s))
    requires next == at.vsec + 1 + ProcSize(ExecIn(GetSector(image, at.vsec).value))
    ensures if next < size then Run(image, size, setup, at) == Run(image, size, setup, at.(vsec := next))
      else Run(image, size, setup, at).Some? <==> Strays(image, setup, at.(vsec := next))
  {
    hide Selected, NameIn, ExecIn, GoodMagic, ProcSize, IsClick, Step;
    var h := NextHeader(image, next, setup.wanted);
    if h.Some? {
      SameStep(image, setup, at, next, h.value);
      if next >= size && at.i != PROCESS_MAX && Step(image, setup, at, h.value).Some? {
        RunSteps(image, size, setup, at, h.value);
        RunEnds(image, size, setup, Step(image, setup, at, h.value).value.1);
      }
    }
  }

  /** A step depends on where the run is only by the header. */
  lemma SameStep(image: Sectors, setup: Setup, at: At, next: nat, h: nat)
    requires GetSector(image, h).Some? && (at.i > 0 ==> IsClick(at.click))
    ensures Step(image, setup, at, h) == Step(image, setup, at.(vsec := next), h)
  {
    hide ExecIn, ProcSize, IsClick, KernelFacts, ProcessFits, Placed, ProcessBytes, Has, Align, NoWrap;
  }

  // ----- when nothing leaves 32 bits -----

  /** All that a program can take of the address space, with the rounding. */
  function Need(p: Program): (n: nat)
    requires Complete(p)
    ensures n >= 4 * 0x1_0000
  {
    var e := ExecOf(p);
    TextSegment(e) + Data(e) + Bss(e) + Asked(StackOf(e)) + 4 * 0x1_0000
  }

  function Needs(ps: seq<Program>): nat
    requires AllComplete(ps)
  {
    if ps == [] then 0 else Need(ps[0]) + Needs(ps[1..])
  }

  predicate AllLong(ps: seq<Program>) {
    AllComplete(ps) && forall i :: 0 <= i < |ps| ==> LongSizes(ExecOf(ps[i]))
  }

  /** If no segment reaches 2 to the power 31 and all programs together fit in 32 bits above the start of either
      memory, no process that a run over their image reaches leaves 32 bits. */
  lemma {:induction false} ImageIsSound(image: Sectors, bytes: seq<Byte>, ps: seq<Program>, setup: Setup, at: At)
    requires HoldsFrom(image, bytes, at.vsec, ps) && AllLong(ps) && Good(at, setup)
    requires StaysInside(image, |bytes| / SECTOR_SIZE, ps, setup.wanted)
    requires at.addr + Needs(ps) <= 0x1_0000_0000 && setup.highBase + Needs(ps) <= 0x1_0000_0000
    ensures Sound(image, |bytes| / SECTOR_SIZE, setup, at)
    decreases |ps|
  {
    hide HoldsFrom, Complete, ExecOf, ProcSize, Selected, Sound, IsClick, Need, Needs, AllLong, LongSizes, Readable,
      AllComplete, LastIsChosen, NothingBehind;
    HoldsEnough(image, bytes, at.vsec, ps);
    var size := |bytes| / SECTOR_SIZE;
    if ps == [] {
      NothingBeyond(image, size, setup, at);
    } else {
      NeedsSplit(ps);
      LastSplits(ps, setup.wanted);
      if at.i == PROCESS_MAX {
        NothingAfterLast(image, size, setup, at);
      } else if Selected(setup.wanted, ps[0].name) {
        var n := ChosenStep(image, bytes, ps, setup, at);
        if n.Some? {
          ImageIsSound(image, bytes, ps[1..], setup, n.value);
        }
        ChosenSound(image, bytes, ps, setup, at, n);
      } else {
        var next := at.(vsec := at.vsec + 1 + ProcSize(ExecOf(ps[0])));
        SkippedStep(image, bytes, ps, setup, at);
        ImageIsSound(image, bytes, ps[1..], setup, next);
        SkippedSound(image, bytes, ps, setup, at);
      }
    }
  }

  /** Where the run goes on after a chosen program, if it does. */
  lemma ChosenStep(image: Sectors, bytes: seq<Byte>, ps: seq<Program>, setup: Setup, at: At) returns (n: Option<At>)
    requires HoldsFrom(image, bytes, at.vsec, ps) && at.i < PROCESS_MAX
    requires ps != [] && Selected(setup.wanted, ps[0].name)
    requires Complete(ps[0]) && LongSizes(ExecOf(ps[0])) && Good(at, setup) && at.addr + Need(ps[0]) <= 0x1_0000_0000
    ensures at.vsec < |image| && NextHeader(image, at.vsec, setup.wanted) == Some(at.vsec)
    ensures StepSound(image, setup, at, at.vsec)
    ensures n == match Step(image, setup, at, at.vsec) case None => None case Some(s) => Some(s.1)
    ensures n.Some? ==> Good(n.value, setup) && HoldsFrom(image, bytes, n.value.vsec, ps[1..])
    ensures n.Some? ==> n.value.addr <= at.addr + Need(ps[0]) || n.value.addr == setup.highBase
  {
    hide HoldsFrom, Readable, ExecOf, Stripped, ProcSize, HeaderSector, NameIn, ExecIn, GoodMagic,
      Selected, Step, StepSound, IsClick, Need, LongSizes, Good;
    HoldsEnough(image, bytes, at.vsec, ps);
    NextInStep(image, bytes, at.vsec, ps);
    HeaderHere(image, at.vsec, setup.wanted);
    StepIsSound(image, setup, at, ps[0]);
    GoodIsClick(at, setup);
    if Step(image, setup, at, at.vsec).Some? {
      n := Some(Step(image, setup, at, at.vsec).value.1);
      StepPlaces(image, setup, at, at.vsec);
      StepContinues(image, setup, at, at.vsec);
      StepNeeds(image, setup, at, ps[0]);
    } else {
      n := None;
    }
  }

  lemma GoodIsClick(at: At, setup: Setup)
    requires Good(at, setup)
    ensures at.i > 0 ==> IsClick(at.click)
  {
    hide IsClick;
  }

  lemma ChosenSound(image: Sectors, bytes: seq<Byte>, ps: seq<Program>, setup: Setup, at: At, n: Option<At>)
    requires (at.i > 0 ==> IsClick(at.click)) && at.vsec < |image|
    requires NextHeader(image, at.vsec, setup.wanted) == Some(at.vsec)
    requires StepSound(image, setup, at, at.vsec)
    requires n == match Step(image, setup, at, at.vsec) case None => None case Some(s) => Some(s.1)
    requires n.Some? ==>
      && (n.value.i > 0 ==> IsClick(n.value.click))
      && Sound(image, |bytes| / SECTOR_SIZE, setup, n.value)
    ensures Sound(image, |bytes| / SECTOR_SIZE, setup, at)
  {
    hide Step, StepSound, Sound, IsClick, NextHeader;
    SoundHere(image, |bytes| / SECTOR_SIZE, setup, at);
  }

  lemma SkippedStep(image: Sectors, bytes: seq<Byte>, ps: seq<Program>, setup: Setup, at: At)
    requires HoldsFrom(image, bytes, at.vsec, ps) && ps != [] && Readable(ps[0])
    ensures HoldsFrom(image, bytes, at.vsec + 1 + ProcSize(ExecOf(ps[0])), ps[1..])
  {
    hide *;
    NextInStep(image, bytes, at.vsec, ps);
  }

  lemma SkippedSound(image: Sectors, bytes: seq<Byte>, ps: seq<Program>, setup: Setup, at: At)
    requires HoldsFrom(image, bytes, at.vsec, ps) && ps != [] && Readable(ps[0]) && !Selected(setup.wanted, ps[0].name)
    requires (at.i > 0 ==> IsClick(at.click)) && (ps[1..] == [] ==> NothingBehind(image, |bytes| / SECTOR_SIZE))
    requires Sound(image, |bytes| / SECTOR_SIZE, setup, at.(vsec := at.vsec + 1 + ProcSize(ExecOf(ps[0]))))
    ensures Sound(image, |bytes| / SECTOR_SIZE, setup, at)
  {
    hide HoldsFrom, Readable, ExecOf, Stripped, ProcSize, HeaderSector, NameIn, ExecIn, GoodMagic,
      Selected, Sound, IsClick, NothingBehind, Strays;
    NextInStep(image, bytes, at.vsec, ps);
    var size, next := |bytes| / SECTOR_SIZE, at.vsec + 1 + ProcSize(ExecOf(ps[0]));
    HoldsEnough(image, bytes, next, ps[1..]);
    if ps[1..] == [] {
      assert next == size;
      NothingFound(image, setup, at.(vsec := next));
    }
    SoundOnward(image, size, setup, at, next);
  }

  lemma NeedsSplit(ps: seq<Program>)
    requires AllLong(ps) && ps != []
    ensures Complete(ps[0]) && LongSizes(ExecOf(ps[0])) && AllLong(ps[1..])
    ensures Needs(ps) == Need(ps[0]) + Needs(ps[1..])
  {
    hide Readable, ExecOf, LongSizes, Need;
    assert LongSizes(ExecOf(ps[0]));
  }

  lemma NothingBeyond(image: Sectors, size: nat, setup: Setup, at: At)
    requires at.vsec >= size && (at.i > 0 ==> IsClick(at.click))
    ensures Sound(image, size, setup, at)
  {
  }

  lemma NothingAfterLast(image: Sectors, size: nat, setup: Setup, at: At)
    requires at.i == PROCESS_MAX && IsClick(at.click)
    ensures Sound(image, size, setup, at)
  {
  }

  lemma SoundHere(image: Sectors, size: nat, setup: Setup, at: At)
    requires (at.i > 0 ==> IsClick(at.click)) && GetSector(image, at.vsec).Some?
    requires NextHeader(image, at.vsec, setup.wanted) == Some(at.vsec) && StepSound(image, setup, at, at.vsec)
    requires var s := Step(image, setup, at, at.vsec);
      s.Some? ==> (s.value.1.i > 0 ==> IsClick(s.value.1.click)) && Sound(image, size, setup, s.value.1)
    ensures Sound(image, size, setup, at)
  {
    hide Step, StepSound, IsClick, NextHeader;
  }

  lemma SoundOnward(image: Sectors, size: nat, setup: Setup, at: At, next: nat)
    requires (at.i > 0 ==> IsClick(at.click)) && GetSector(image, at.vsec).Some?
    requires var s := GetSector(image, at.vsec).value;
      GoodMagic(ExecIn(s)) && !Selected(setup.wanted, NameIn(s)) && next == at.vsec + 1 + ProcSize(ExecIn(s))
    requires next >= size ==> NextHeader(image, next, setup.wanted).None?
    requires Sound(image, size, setup, at.(vsec := next))
    ensures Sound(image, size, setup, at)
  {
    hide Selected, NameIn, ExecIn, GoodMagic, ProcSize, IsClick, Step;
    assert NextHeader(image, at.vsec, setup.wanted) == NextHeader(image, next, setup.wanted);
    var h := NextHeader(image, next, setup.wanted);
    if h.Some? {
      SameStep(image, setup, at, next, h.value);
    }
  }

  lemma StepIsSound(image: Sectors, setup: Setup, at: At, p: Program)
    requires Complete(p) && LongSizes(ExecOf(p)) && Good(at, setup) && GetSector(image, at.vsec).Some?
    requires ExecIn(GetSector(image, at.vsec).value) == Stripped(ExecOf(p))
    requires at.addr + Need(p) <= 0x1_0000_0000
    ensures StepSound(image, setup, at, at.vsec)
  {
    hide IsClick, Readable, ExecOf, Stripped, ExecIn, Ceil, Align, Clicks, RoomOf, Separate, PageAligned, HdrLen, Bss,
      Text, Data, Total;
    var e := ExecOf(p);
    StripKeeps(e);
    SizesKept(e);
    var k := Clicks(image, at, at.vsec, Stripped(e));
    if k.Some? {
      var click, flags := k.value.0, k.value.1;
      ClickFacts(click);
      AlignIsCeil(at.addr, click);
      CeilBounds(at.addr, click);
      RoomIsBounded(Stripped(e), at.i, flags);
    }
  }

  lemma SizesKept(e: Exec)
    ensures TextSegment(Stripped(e)) == TextSegment(e) && StackOf(Stripped(e)) == StackOf(e)
    ensures LongSizes(e) ==> LongSizes(Stripped(e))
  {
    hide Stripped, Separate, PageAligned, HdrLen, Bss, Text, Data, Total;
    StripKeeps(e);
  }

  lemma StepNeeds(image: Sectors, setup: Setup, at: At, p: Program)
    requires Complete(p) && LongSizes(ExecOf(p)) && Good(at, setup) && at.i < PROCESS_MAX
      && GetSector(image, at.vsec).Some?
    requires ExecIn(GetSector(image, at.vsec).value) == Stripped(ExecOf(p)) && Step(image, setup, at, at.vsec).Some?
    ensures var n := Step(image, setup, at, at.vsec).value.1;
      n.addr <= at.addr + Need(p) || n.addr == setup.highBase
  {
    hide Readable, ExecOf, Stripped, ExecIn, Step, RoomOf, Placed, ProcessBytes, IsClick, Separate, PageAligned,
      HdrLen, Bss, Text, Data, Total, SegmentsReadable;
    var e := ExecOf(p);
    StripKeeps(e);
    SizesKept(e);
    StepPlaces(image, setup, at, at.vsec);
    StepContinues(image, setup, at, at.vsec);
    StepFits(image, setup, at, at.vsec);
    var s := Step(image, setup, at, at.vsec).value;
    ClickFacts(s.1.click);
    RoomIsBounded(s.0.exec, at.i, s.1.flags);
    PlacedEnds(image, s.0.exec, at.vsec + 1, s.0.addr, s.1.click, s.0.room);
  }

  // ----- the loader on an image of executables -----

  /** `s` stands in memory at `at`. */
  predicate HasAt(mem: seq<Byte>, at: int, s: seq<Byte>) {
    s != [] ==> 0 <= at && at + |s| <= |mem| && mem[at..at + |s|] == s
  }

  /** The process finds what it runs on: its text where the code segment begins, or a click later if the zero page is
      not mapped; its data, and zeros for its bss behind them, where the data segment begins, which for common text
      and data is the code segment; and its header's entry point. */
  predicate InPlace(mem: seq<Byte>, p: Program, q: Process, click: nat, bss: nat)
    requires Complete(p)
  {
    var e := ExecOf(p);
    var z := if UnmappedZeroPage(e) then click else 0;
    && q.entry == Entry(e)
    && HasAt(mem, q.cs + z, p.file[TextStart(p)..TextEnd(p)])
    && HasAt(mem, q.data, p.file[TextEnd(p)..DataEnd(p)] + Zeros(bss))
    && q.ds == if Separate(e) then q.data - z else q.cs
  }

  /** Where text, data and bss are in the memory that a program needs. */
  lemma MemoryLayout(p: Program, click: nat, room: Room)
    requires Complete(p) && click > 0
    ensures var m, e := MemoryOf(p, click, room), ExecOf(p);
      var text, data := p.file[TextStart(p)..TextEnd(p)], p.file[TextEnd(p)..DataEnd(p)];
      var at := if Separate(e) then ClickAfter(0, |text|, click) else |text|;
      && HasAt(m, 0, text) && HasAt(m, at, data + Zeros(room.bss))
      && |text| == TextSegment(e) && |data| == Data(e)
  {
    hide ExecOf, Ceil, Readable, PageAligned, Separate, TextStart, TextEnd, DataEnd, Text, Data, HdrLen, TextSegment,
      HasAt, Zeros, MemoryOf, SegmentsIn, BssClicks;
    var e := ExecOf(p);
    BssClicksAre(e, room, click);
    TextLength(p);
    var text, data := p.file[TextStart(p)..TextEnd(p)], p.file[TextEnd(p)..DataEnd(p)];
    CeilBounds(|text|, click);
    BssCovered(DataSegment(e), room.bss, click);
    MemoryIs(p, click, room);
    SegmentsAre(p, click);
    if Separate(e) {
      TwoLaid(text, Ceil(|text|, click), data, Ceil(|data|, click), BssClicks(e, click, room), room.bss);
    } else {
      assert p.file[TextStart(p)..DataEnd(p)] == text + data;
      OneLaid(text, data, Ceil(|text + data|, click), BssClicks(e, click, room), room.bss);
    }
  }

  lemma BssClicksAre(e: Exec, room: Room, click: nat)
    requires click > 0
    ensures BssClicks(e, click, room) == Ceil(DataSegment(e) + room.bss, click) - Ceil(DataSegment(e), click)
  {
  }

  lemma SegmentsAre(p: Program, click: nat)
    requires Complete(p) && click > 0 && TextStart(p) <= TextEnd(p) <= DataEnd(p) <= |p.file|
    ensures SegmentsIn(p, click) ==
      if Separate(ExecOf(p)) then
        ToClick(p.file[TextStart(p)..TextEnd(p)], click) + ToClick(p.file[TextEnd(p)..DataEnd(p)], click)
      else ToClick(p.file[TextStart(p)..DataEnd(p)], click)
  {
    hide ToClick, ExecOf, Readable, Separate, TextStart, TextEnd, DataEnd;
  }

  lemma BssCovered(size: nat, bss: nat, click: nat)
    requires click > 0
    ensures Ceil(size, click) >= size && size + bss <= Ceil(size + bss, click)
  {
    hide Ceil;
    CeilBounds(size, click);
    CeilBounds(size + bss, click);
  }

  lemma TwoLaid(text: seq<Byte>, m: nat, data: seq<Byte>, n: nat, more: nat, bss: nat)
    requires |text| <= m && |data| <= n && |data| + bss <= n + more
    ensures var all := text + Zeros(m - |text|) + (data + Zeros(n - |data|)) + Zeros(more);
      HasAt(all, 0, text) && HasAt(all, m, data + Zeros(bss))
  {
    var all := text + Zeros(m - |text|) + (data + Zeros(n - |data|)) + Zeros(more);
    assert all[0..|text|] == text;
    assert all[m..m + |data + Zeros(bss)|] == data + Zeros(bss);
  }

  lemma OneLaid(text: seq<Byte>, data: seq<Byte>, n: nat, more: nat, bss: nat)
    requires |text + data| <= n && |text + data| + bss <= n + more
    ensures var all := text + data + Zeros(n - |text + data|) + Zeros(more);
      HasAt(all, 0, text) && HasAt(all, |text|, data + Zeros(bss))
  {
    var all := text + data + Zeros(n - |text + data|) + Zeros(more);
    assert all[0..|text|] == text;
    assert all[|text|..|text| + |data + Zeros(bss)|] == data + Zeros(bss);
  }

  lemma SliceOfSlice(m: seq<Byte>, a: nat, n: nat, k: nat, l: nat)
    requires a + n <= |m| && k + l <= n
    ensures m[a..a + n][k..k + l] == m[a + k..a + k + l]
  {
    var t, u := m[a..a + n][k..k + l], m[a + k..a + k + l];
    forall i | 0 <= i < l ensures t[i] == u[i] {
      assert t[i] == m[a..a + n][k + i] == m[a + (k + i)];
    }
  }

  lemma HasWithin(mem: seq<Byte>, at: nat, m: seq<Byte>, k: nat, s: seq<Byte>)
    requires HasAt(mem, at, m) && HasAt(m, k, s)
    ensures HasAt(mem, at + k, s)
  {
    if s != [] {
      SliceOfSlice(mem, at, |m|, k, |s|);
    }
  }

  /** A program whose memory stands where it was placed is in place for its process. */
  lemma ProcessInPlace(mem: seq<Byte>, p: Program, addr: nat, click: nat, room: Room)
    requires Complete(p) && click > 0 && Bounded(Stripped(ExecOf(p)), room)
    requires HasAt(mem, addr, MemoryOf(p, click, room))
    ensures InPlace(mem, p, Placed(Stripped(ExecOf(p)), addr, click, room), click, room.bss)
  {
    hide ExecOf, Ceil, Readable, PageAligned, Separate, TextStart, TextEnd, DataEnd, Text, Data, HdrLen, TextSegment,
      MemoryOf, HasAt, Stripped, Entry, UnmappedZeroPage;
    var e := ExecOf(p);
    TextLength(p);
    StripKeeps(e);
    SizesKept(e);
    MemoryLayout(p, click, room);
    CeilBounds(TextSegment(e), click);
    var m := MemoryOf(p, click, room);
    HasWithin(mem, addr, m, 0, p.file[TextStart(p)..TextEnd(p)]);
    var at := if Separate(e) then ClickAfter(0, TextSegment(e), click) else TextSegment(e);
    HasWithin(mem, addr, m, at, p.file[TextEnd(p)..DataEnd(p)] + Zeros(room.bss));
  }

  /** The memory that the program needs is where it was placed. */
  predicate Stands(mem: seq<Byte>, p: Program, pl: Placement) {
    && Complete(p) && pl.click > 0 && pl.exec == Stripped(ExecOf(p))
    && HasAt(mem, pl.addr, MemoryOf(p, pl.click, pl.room))
    && InPlace(mem, p, pl.process, pl.click, pl.room.bss)
  }

  /** Loads an image that was made from the executables `ps`. The loader gets to its end exactly if all programs
      that are to load are admitted. Then each of them is made a process under the kernel's click size and flags, and
      stands in memory as its file has it, where that process looks for it, unless the total in its header, or in
      one before, takes back clicks that it needs. */
  method LoadPrograms(loader: Loader, ghost bytes: seq<Byte>, ghost ps: seq<Program>, size: nat, setup: Setup,
                      base: nat, top: nat)
    returns (ok: bool, ghost pl: seq<Placement>, ghost click: nat, ghost flags: nat)
    requires HoldsFrom(loader.image, bytes, 0, ps) && size == |bytes| / SECTOR_SIZE && AllLong(ps)
    requires StaysInside(loader.image, size, ps, setup.wanted)
    requires base + Needs(ps) <= 0x1_0000_0000 && setup.highBase + Needs(ps) <= 0x1_0000_0000
    requires top <= loader.mem.Length && setup.highLimit <= loader.mem.Length && setup.highBase % 0x1_0000 == 0
    requires top <= setup.highBase
    modifies loader`clickSize, loader.mem
    ensures ok <==> EachAdmitted(loader.image, ps, setup, At(0, 0, base, top, 0, 0))
    ensures var chosen := Chosen(ps, setup.wanted);
      ok ==>
        && LastIsChosen(ps, setup.wanted) && |pl| == |chosen| && Consecutive(pl, setup, true)
        && KernelMade(pl, setup, click, flags, base, top)
        && (pl != [] ==> Complete(chosen[0]) && KernelSays(chosen[0], click, flags))
        && (NoOverlap(pl) ==> forall j :: 0 <= j < |pl| ==> Stands(loader.mem[..], chosen[j], pl[j]))
  {
    hide HoldsFrom, EachAdmitted, Complete, Run, Overlay, AllWithin, InOrder, NoOverlap, Consecutive, Needs, AllLong,
      StaysInside, LastIsChosen, Chosen, AllPlaced, Stands, AllComplete, Sound, KernelMade, KernelSays, KernelFacts,
      NextHeader;
    ghost var at, m, image := At(0, 0, base, top, 0, 0), loader.mem[..], loader.image;
    ghost var chosen := Chosen(ps, setup.wanted);
    LongComplete(ps);
    ImageIsSound(image, bytes, ps, setup, at);
    RunExactly(image, bytes, ps, setup, at);
    ok := ExecImage(loader, size, setup, base, top);
    pl, click, flags := [], 0, 0;
    if ok {
      pl := Run(image, size, setup, at).value;
      RunPlacesChosen(image, bytes, ps, setup, at);
      RunInOrder(image, size, setup, at);
      click, flags := RunMakesAll(image, size, setup, base, top);
      PlacedLength(chosen, pl);
      if pl != [] {
        PlacedAt(chosen, pl, 0);
        FirstComplete(chosen);
        KernelHasSaid(image, bytes, ps, setup, click, flags, pl[0]);
      }
      if NoOverlap(pl) {
        forall j | 0 <= j < |pl| ensures Stands(loader.mem[..], chosen[j], pl[j]) {
          PlacedStands(m, chosen, pl, setup, click, flags, base, top, j);
        }
      }
    }
  }

  lemma FirstComplete(ps: seq<Program>)
    requires AllComplete(ps) && ps != []
    ensures Complete(ps[0])
  {
  }

  lemma KernelHasSaid(image: Sectors, bytes: seq<Byte>, ps: seq<Program>, setup: Setup, click: nat, flags: nat,
                      pl: Placement)
    requires HoldsFrom(image, bytes, 0, ps) && Chosen(ps, setup.wanted) != []
    requires var h := NextHeader(image, 0, setup.wanted);
      h.Some? && KernelFacts(image, h.value + 1, pl.exec) == Some((click, flags))
    requires Complete(Chosen(ps, setup.wanted)[0]) && pl.exec == Stripped(ExecOf(Chosen(ps, setup.wanted)[0]))
    ensures KernelSays(Chosen(ps, setup.wanted)[0], click, flags)
  {
    hide HoldsFrom, Chosen, NextHeader, KernelFacts, Readable, ExecOf, Stripped, Shifted, Text, HdrLen;
    var h, left := FirstChosen(image, bytes, 0, ps, setup.wanted);
    if Text(ExecOf(left[0])) >= 6 {
      KernelWords(image, bytes, h, left);
    }
  }

  lemma {:induction false} MadeAt(pl: seq<Placement>, i: nat, setup: Setup, click: nat, flags: nat, addr: nat,
                                  limit: nat, j: nat)
    requires AllMade(pl, i, setup, click, flags, addr, limit) && j < |pl|
    ensures Made(pl[j], i + j, setup, click, flags, limit)
    decreases j
  {
    hide Made;
    if j > 0 {
      MadeAt(pl[1..], i + 1, setup, click, flags, pl[0].process.end, limit, j - 1);
    }
  }

  lemma PlacedAsMade(pl: seq<Placement>, setup: Setup, click: nat, flags: nat, base: nat, top: nat, j: nat)
    requires KernelMade(pl, setup, click, flags, base, top) && j < |pl|
    ensures pl[j].click > 0 && Bounded(pl[j].exec, pl[j].room)
    ensures pl[j].process == Placed(pl[j].exec, pl[j].addr, pl[j].click, pl[j].room)
  {
    hide Placed, Bounded, IsClick, AllMade;
    ClickFacts(click);
    if j > 0 {
      var high := flags / 8 % 2 == 1;
      MadeAt(pl[1..], 1, setup, click, flags, if high then setup.highBase else pl[0].process.end,
             if high then setup.highLimit else top, j - 1);
    }
  }

  lemma LongComplete(ps: seq<Program>)
    requires AllLong(ps)
    ensures AllComplete(ps)
  {
  }

  lemma {:induction false} PlacedLength(ps: seq<Program>, pl: seq<Placement>)
    requires AllComplete(ps) && AllPlaced(ps, pl)
    ensures |ps| == |pl|
  {
  }

  lemma {:induction false} PlacedAt(ps: seq<Program>, pl: seq<Placement>, j: nat)
    requires AllComplete(ps) && AllPlaced(ps, pl) && j < |pl|
    ensures |ps| == |pl| && pl[j].click > 0
    ensures pl[j].exec == Stripped(ExecOf(ps[j])) && pl[j].bytes == MemoryOf(ps[j], pl[j].click, pl[j].room)
    decreases j
  {
    hide Readable, Stripped, ExecOf, MemoryOf;
    if j > 0 {
      PlacedAt(ps[1..], pl[1..], j - 1);
    }
  }

  lemma PlacedStands(m: seq<Byte>, ps: seq<Program>, pl: seq<Placement>, setup: Setup, click: nat, flags: nat,
                     base: nat, top: nat, j: nat)
    requires AllComplete(ps) && AllPlaced(ps, pl) && j < |pl| == |ps|
    requires AllWithin(pl, |m|) && InOrder(pl, base) && KernelMade(pl, setup, click, flags, base, top)
    ensures Stands(Overlay(m, pl), ps[j], pl[j])
  {
    hide Complete, AllPlaced, Overlay, InOrder, MemoryOf, Stripped, ExecOf, KernelMade, Placed, InPlace, Bounded;
    PlacedAt(ps, pl, j);
    if pl[j].bytes != [] {
      AllIntact(m, pl, base, j);
    }
    PlacedAsMade(pl, setup, click, flags, base, top, j);
    ProcessInPlace(Overlay(m, pl), ps[j], pl[j].addr, pl[j].click, pl[j].room);
  }
}
