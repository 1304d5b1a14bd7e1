/** Making a boot image out of executables, and taking one apart again. */
module InstallBoot {
  import opened ImageFormat

  /** A file being read: its bytes and how far reading has come. */
  class Source {
    const bytes: seq<Byte>
    var pos: nat

    constructor (bytes: seq<Byte>)
      ensures this.bytes == bytes && pos == 0
    {
      this.bytes, pos := bytes, 0;
    }

    predicate Valid()
      reads this
    {
      pos <= |bytes|
    }

    /** Reads exactly `n` bytes, or fails. */
    method Read(n: nat) returns (ok: bool, s: seq<Byte>)
      requires Valid()
      modifies this
      ensures Valid() && ok == (old(pos) + n <= |bytes|)
      ensures ok ==> pos == old(pos) + n && s == bytes[old(pos)..pos]
    {
      ok, s := pos + n <= |bytes|, [];
      if ok {
        s, pos := bytes[pos..pos + n], pos + n;
      }
    }
  }

  /** A file being written. */
  class Sink {
    var bytes: seq<Byte>

    constructor ()
      ensures bytes == []
    {
      bytes := [];
    }

    method Pad(n: nat)
      modifies this
      ensures bytes == old(bytes) + Zeros(n)
    {
      var i := n;
      while i > 0
        invariant 0 <= i <= n && bytes == old(bytes) + Zeros(n - i)
      {
        bytes := bytes + [0];
        i := i - 1;
      }
    }

    /** Copies `n` bytes of `from` and pads them to whole sectors; fails at a premature end. */
    method CopyExec(from: Source, n: nat) returns (ok: bool)
      requires from.Valid()
      modifies this, from
      ensures from.Valid() && ok == (old(from.pos) + n <= |from.bytes|)
      ensures ok ==> from.pos == old(from.pos) + n
      ensures ok ==> bytes == old(bytes) + Padded(from.bytes[old(from.pos)..from.pos])
    {
      var pad := SECTOR_SIZE * SectorsFor(n) - n;
      var i := n;
      while i > 0
        invariant 0 <= i <= n && from.pos == old(from.pos) + n - i <= |from.bytes|
        invariant bytes == old(bytes) + from.bytes[old(from.pos)..from.pos]
      {
        if from.pos == |from.bytes| {
          return false;
        }
        bytes := bytes + [from.bytes[from.pos]];
        from.pos := from.pos + 1;
        i := i - 1;
      }
      ghost var copied := from.bytes[old(from.pos)..from.pos];
      assert |copied| == n;
      Pad(pad);
      Associate(old(bytes), copied, Zeros(pad));
      ok := true;
    }

    /** Copies `count` bytes that `from` holds padded to whole sectors; the last sector is cut. */
    method ExtractExec(from: Source, count: nat) returns (ok: bool)
      requires from.Valid()
      modifies this, from
      ensures from.Valid() && ok == (old(from.pos) + SECTOR_SIZE * SectorsFor(count) <= |from.bytes|)
      ensures ok ==> from.pos == old(from.pos) + SECTOR_SIZE * SectorsFor(count)
      ensures ok ==> bytes == old(bytes) + from.bytes[old(from.pos)..old(from.pos) + count]
    {
      var left: int := count;
      ghost var read: nat := 0;
      while left > 0
        invariant left == count - SECTOR_SIZE * read > -SECTOR_SIZE
        invariant from.Valid() && from.pos == old(from.pos) + SECTOR_SIZE * read
        invariant bytes
          == old(bytes) + from.bytes[old(from.pos)..old(from.pos) + if left > 0 then SECTOR_SIZE * read else count]
      {
        var buf;
        ok, buf := from.Read(SECTOR_SIZE);
        if !ok {
          return;
        }
        bytes := bytes + buf[..if left < SECTOR_SIZE then left else SECTOR_SIZE];
        left := left - SECTOR_SIZE;
        read := read + 1;
      }
      ok := true;
    }
  }

  lemma Associate(a: seq<Byte>, b: seq<Byte>, c: seq<Byte>)
    ensures a + b + c == a + (b + c)
  {
  }

  /** Writes the image of all programs; fails on the first that is no complete executable. */
  method MakeImage(ps: seq<Program>) returns (ok: bool, image: seq<Byte>)
    requires forall i :: 0 <= i < |ps| ==> |ps[i].name| < NAME_FIELD - 1 && 0 !in ps[i].name
    requires forall i :: 0 <= i < |ps| ==> |ps[i].file| > OFFSET_HDRLEN ==> ps[i].file[OFFSET_HDRLEN] <= EXEC_SIZE
    ensures ok == AllComplete(ps)
    ensures ok ==> image == Image(ps)
  {
    hide Complete, Image, Readable;
    var imagef := new Sink();
    var n := 0;
    NoPrograms();
    while n < |ps|
      invariant n <= |ps| && AllComplete(ps[..n]) && imagef.bytes == Image(ps[..n])
    {
      assert ps[..n + 1] == ps[..n] + [ps[n]];
      var good := AddProgram(imagef, ps[n]);
      if !good {
        return false, [];
      }
      ImageOfMore(ps[..n], ps[n]);
      n := n + 1;
    }
    assert ps[..n] == ps;
    return true, imagef.bytes;
  }

  lemma NoPrograms()
    ensures Image([]) == []
  {
  }

  /** Reads and checks the header of an executable. */
  method ReadHeader(procf: Source, ghost p: Program) returns (ok: bool, e: Exec)
    requires procf.pos == 0 && procf.bytes == p.file
    requires |p.name| < NAME_FIELD - 1 && 0 !in p.name
    requires |p.file| > OFFSET_HDRLEN ==> p.file[OFFSET_HDRLEN] <= EXEC_SIZE
    modifies procf
    ensures ok == Readable(p)
    ensures ok ==> e == ExecOf(p) && procf.pos == HdrLen(e) && procf.Valid()
  {
    var start, rest;
    e := Zeros(EXEC_SIZE);
    ok, start := procf.Read(A_MINHDR);
    if !ok || !GoodMagic(start) || start[OFFSET_HDRLEN] < A_MINHDR {
      return false, e;
    }
    ok, rest := procf.Read(start[OFFSET_HDRLEN] - A_MINHDR);
    if ok {
      assert start + rest == p.file[..p.file[OFFSET_HDRLEN]];
      e := start + rest + Zeros(EXEC_SIZE - start[OFFSET_HDRLEN]);
    }
  }

  method AddProgram(imagef: Sink, p: Program) returns (ok: bool)
    requires |p.name| < NAME_FIELD - 1 && 0 !in p.name
    requires |p.file| > OFFSET_HDRLEN ==> p.file[OFFSET_HDRLEN] <= EXEC_SIZE
    modifies imagef
    ensures ok == Complete(p)
    ensures ok ==> imagef.bytes == old(imagef.bytes) + (HeaderSector(p) + Segments(p))
  {
    hide Padded, Readable, HeaderSector, Segments, ExecOf, Long;
    var procf := new Source(p.file);
    var e;
    ok, e := ReadHeader(procf, p);
    if !ok {
      return;
    }
    WriteHeader(imagef, p, e);
    ok := CopySegments(imagef, procf, p, e);
    if ok {
      Associate(old(imagef.bytes), HeaderSector(p), Segments(p));
    }
  }

  method WriteHeader(imagef: Sink, p: Program, e: Exec)
    requires Readable(p) && e == ExecOf(p)
    modifies imagef
    ensures imagef.bytes == old(imagef.bytes) + HeaderSector(p)
  {
    hide ExecOf, Stripped;
    var fields := p.name + Zeros(NAME_FIELD - |p.name|) + Stripped(e);
    imagef.bytes := imagef.bytes + fields;
    imagef.Pad(SECTOR_SIZE - NAME_FIELD - EXEC_SIZE);
    Associate(old(imagef.bytes), fields, Zeros(SECTOR_SIZE - NAME_FIELD - EXEC_SIZE));
  }

  /** Copies text and data; the text of a page-aligned executable includes the header. */
  method CopySegments(imagef: Sink, procf: Source, ghost p: Program, e: Exec) returns (ok: bool)
    requires Readable(p) && procf.bytes == p.file && e == ExecOf(p) && procf.pos == HdrLen(e) && procf.Valid()
    modifies imagef, procf
    ensures ok == Complete(p)
    ensures ok ==> imagef.bytes == old(imagef.bytes) + Segments(p)
  {
    hide Padded, SectorsFor, Readable, ExecOf;
    var text := Text(e);
    if PageAligned(e) {
      procf.pos := 0;
      text := text + HdrLen(e);
    }
    if Separate(e) {
      ok := imagef.CopyExec(procf, text);
      if !ok {
        return;
      }
      ghost var copied := imagef.bytes;
      ok := imagef.CopyExec(procf, Data(e));
    } else {
      ok := imagef.CopyExec(procf, text + Data(e));
    }
  }

  lemma {:induction false} ImageOfMore(ps: seq<Program>, p: Program)
    requires AllComplete(ps) && Complete(p)
    ensures AllComplete(ps + [p]) && Image(ps + [p]) == Image(ps) + (HeaderSector(p) + Segments(p))
  {
    hide Complete, HeaderSector, Segments, Readable;
    if ps == [] {
      assert (ps + [p])[1..] == [];
      assert Image([]) == [];
    } else {
      assert (ps + [p])[1..] == ps[1..] + [p];
      ImageOfMore(ps[1..], p);
    }
  }

  // ----- taking an image apart -----

  datatype Option<T> = None | Some(value: T)

  /** The program at the start of an image. */
  function FirstProgram(image: seq<Byte>): Option<Program> {
    if |image| < SECTOR_SIZE then None
    else
      var e := ExecIn(image[..SECTOR_SIZE]);
      if HdrLen(e) < A_MINHDR || !GoodMagic(e) || HdrLen(e) > EXEC_SIZE
         || |image| < SECTOR_SIZE * (1 + ProcSize(e)) then None
      else Some(Program(NameIn(image[..SECTOR_SIZE]), FileOf(e, image[SECTOR_SIZE..])))
  }

  /** The file whose header is `e` and whose segments `body` holds, each padded. */
  function FileOf(e: Exec, body: seq<Byte>): seq<Byte>
    requires |body| >= SECTOR_SIZE * ProcSize(e) && HdrLen(e) <= EXEC_SIZE
  {
    (if PageAligned(e) then [] else e[..HdrLen(e)]) + Body(e, body)
  }

  function Body(e: Exec, body: seq<Byte>): seq<Byte>
    requires |body| >= SECTOR_SIZE * ProcSize(e)
  {
    if Separate(e) then
      var d := SECTOR_SIZE * SectorsFor(TextSegment(e));
      body[..TextSegment(e)] + body[d..d + Data(e)]
    else
      body[..TextSegment(e) + Data(e)]
  }

  function Before(ps: seq<Program>, r: Option<seq<Program>>): Option<seq<Program>> {
    match r
    case None => None
    case Some(qs) => Some(ps + qs)
  }

  function Programs(image: seq<Byte>): Option<seq<Program>>
    decreases |image|
  {
    if image == [] then Some([])
    else
      match FirstProgram(image)
      case None => None
      case Some(p) =>
        Before([p], Programs(image[NextProgram(image)..]))
  }

  /** Where the next program begins. */
  function NextProgram(image: seq<Byte>): nat
    requires |image| >= SECTOR_SIZE
  {
    SECTOR_SIZE * (1 + ProcSize(ExecIn(image[..SECTOR_SIZE])))
  }

  /** Extracts the program at the read position; the bytes read tell how far the next one is. */
  method ExtractProgram(imagef: Source) returns (r: Option<Program>)
    requires imagef.Valid()
    modifies imagef
    ensures imagef.Valid() && r == FirstProgram(imagef.bytes[old(imagef.pos)..])
    ensures r.Some? ==> imagef.pos == old(imagef.pos) + NextProgram(imagef.bytes[old(imagef.pos)..])
  {
    hide Long, CString, SectorsFor, GoodMagic;
    ghost var image := imagef.bytes[imagef.pos..];
    var ok, buf := imagef.Read(SECTOR_SIZE);
    if !ok {
      return None;
    }
    assert buf == image[..SECTOR_SIZE];
    var e := ExecIn(buf);
    if HdrLen(e) < A_MINHDR || !GoodMagic(e) || HdrLen(e) > EXEC_SIZE {
      return None;
    }
    var file;
    ok, file := ExtractFile(imagef, e);
    assert imagef.bytes[old(imagef.pos) + SECTOR_SIZE..] == image[SECTOR_SIZE..];
    r := if ok then Some(Program(NameIn(buf), file)) else None;
  }

  /** Extracts the header and the segments that follow in the image. */
  method ExtractFile(imagef: Source, e: Exec) returns (ok: bool, file: seq<Byte>)
    requires imagef.Valid() && HdrLen(e) <= EXEC_SIZE
    modifies imagef
    ensures imagef.Valid() && ok == (old(imagef.pos) + SECTOR_SIZE * ProcSize(e) <= |imagef.bytes|)
    ensures ok ==> imagef.pos == old(imagef.pos) + SECTOR_SIZE * ProcSize(e)
    ensures ok ==> file == FileOf(e, imagef.bytes[old(imagef.pos)..])
  {
    hide Long, SectorsFor, ProcSize, Body;
    file := [];
    var procf := new Sink();
    var text := Text(e);
    if PageAligned(e) {
      text := text + HdrLen(e);
    } else {
      procf.bytes := e[..HdrLen(e)];
    }
    ok := ExtractSegments(procf, imagef, e, text);
    file := procf.bytes;
  }

  method ExtractSegments(procf: Sink, imagef: Source, e: Exec, text: nat) returns (ok: bool)
    requires imagef.Valid() && text == TextSegment(e)
    modifies procf, imagef
    ensures imagef.Valid() && ok == (old(imagef.pos) + SECTOR_SIZE * ProcSize(e) <= |imagef.bytes|)
    ensures ok ==> imagef.pos == old(imagef.pos) + SECTOR_SIZE * ProcSize(e)
    ensures ok ==> procf.bytes == old(procf.bytes) + Body(e, imagef.bytes[old(imagef.pos)..])
  {
    hide Long, SectorsFor, Separate, Body;
    ghost var bytes, at := imagef.bytes, imagef.pos;
    if Separate(e) {
      ok := ExtractTwo(procf, imagef, text, Data(e));
      if ok {
        BodyIsTwo(e, bytes, at);
      }
    } else {
      ok := procf.ExtractExec(imagef, text + Data(e));
      if ok {
        BodyIsOne(e, bytes, at);
      }
    }
  }

  /** Extracts text and data that are padded separately. */
  method ExtractTwo(procf: Sink, imagef: Source, text: nat, data: nat) returns (ok: bool)
    requires imagef.Valid()
    modifies procf, imagef
    ensures imagef.Valid()
    ensures ok == (old(imagef.pos) + SECTOR_SIZE * (SectorsFor(text) + SectorsFor(data)) <= |imagef.bytes|)
    ensures ok ==> imagef.pos == old(imagef.pos) + SECTOR_SIZE * (SectorsFor(text) + SectorsFor(data))
    ensures ok ==>
      var at, d := old(imagef.pos), old(imagef.pos) + SECTOR_SIZE * SectorsFor(text);
      procf.bytes == old(procf.bytes) + (imagef.bytes[at..at + text] + imagef.bytes[d..d + data])
  {
    hide SectorsFor;
    WholeSectors(text);
    WholeSectors(data);
    ghost var header, at := procf.bytes, imagef.pos;
    ok := procf.ExtractExec(imagef, text);
    if !ok {
      return;
    }
    ghost var d := imagef.pos;
    ok := procf.ExtractExec(imagef, data);
    if ok {
      Associate(header, imagef.bytes[at..at + text], imagef.bytes[d..d + data]);
    }
  }

  lemma BodyIsTwo(e: Exec, bytes: seq<Byte>, at: nat)
    requires Separate(e) && at + SECTOR_SIZE * ProcSize(e) <= |bytes|
    ensures var d := SECTOR_SIZE * SectorsFor(TextSegment(e));
      && at + TextSegment(e) <= at + d && at + d + Data(e) <= |bytes|
      && Body(e, bytes[at..]) == bytes[at..at + TextSegment(e)] + bytes[at + d..at + d + Data(e)]
  {
    hide Long, SectorsFor;
    WholeSectors(TextSegment(e));
    WholeSectors(Data(e));
    var d := SECTOR_SIZE * SectorsFor(TextSegment(e));
    Slice(bytes, at, 0, TextSegment(e));
    Slice(bytes, at, d, d + Data(e));
  }

  lemma BodyIsOne(e: Exec, bytes: seq<Byte>, at: nat)
    requires !Separate(e) && at + SECTOR_SIZE * ProcSize(e) <= |bytes|
    ensures at + (TextSegment(e) + Data(e)) <= |bytes|
    ensures Body(e, bytes[at..]) == bytes[at..at + (TextSegment(e) + Data(e))]
  {
    hide Long, SectorsFor;
    WholeSectors(TextSegment(e) + Data(e));
    Slice(bytes, at, 0, TextSegment(e) + Data(e));
  }

  lemma Slice(bytes: seq<Byte>, pos: nat, i: nat, j: nat)
    requires i <= j && pos + j <= |bytes|
    ensures bytes[pos..][i..j] == bytes[pos + i..pos + j] && (i == 0 ==> bytes[pos..][..j] == bytes[pos..pos + j])
  {
  }

  lemma SliceOfSlice(bytes: seq<Byte>, m: nat, n: nat, i: nat, j: nat)
    requires m <= n <= |bytes| && i <= j <= n - m
    ensures bytes[m..n][i..j] == bytes[m + i..m + j]
  {
    var s := bytes[m..n];
    assert forall k :: i <= k < j ==> s[k] == bytes[m + k];
  }

  lemma WholeSectors(n: nat)
    ensures n <= SECTOR_SIZE * SectorsFor(n) < n + SECTOR_SIZE
  {
  }

  /** Extracts every program of an image. */
  method ExtractImage(image: seq<Byte>) returns (r: Option<seq<Program>>)
    ensures r == Programs(image)
  {
    hide Long, CString, ProcSize, Body, FileOf, GoodMagic;
    assert image[0..] == image;
    BeforeAll(Programs(image));
    var imagef := new Source(image);
    var ps: seq<Program> := [];
    while imagef.pos != |image|
      invariant imagef.Valid() && imagef.bytes == image
      invariant Programs(image) == Before(ps, Programs(image[imagef.pos..]))
      decreases |image| - imagef.pos
    {
      ghost var at, left := imagef.pos, image[imagef.pos..];
      var p := ExtractProgram(imagef);
      if p.None? {
        return None;
      }
      NextProgramIsLater(left);
      assert left[NextProgram(left)..] == image[imagef.pos..];
      OneMore(ps, p.value, Programs(image[imagef.pos..]));
      ps := ps + [p.value];
    }
    assert image[imagef.pos..] == [] && ps + [] == ps;
    r := Some(ps);
  }

  lemma BeforeAll(r: Option<seq<Program>>)
    ensures Before([], r) == r
  {
    match r
    case None =>
    case Some(qs) => assert [] + qs == qs;
  }

  lemma OneMore(ps: seq<Program>, p: Program, r: Option<seq<Program>>)
    ensures Before(ps, Before([p], r)) == Before(ps + [p], r)
  {
    match r
    case None =>
    case Some(qs) => assert ps + ([p] + qs) == ps + [p] + qs;
  }

  lemma NextProgramIsLater(image: seq<Byte>)
    requires FirstProgram(image).Some?
    ensures 0 < NextProgram(image) <= |image|
  {
  }

  // ----- what an image made of executables gives back -----

  /** The file as it comes out of an image: all of a page-aligned one up to the end of its data, and
      of any other one too, but for the symbol table's size and flag in the header. */
  function Extracted(p: Program): (r: seq<Byte>)
    requires Complete(p)
  {
    if PageAligned(ExecOf(p)) then p.file[..DataEnd(p)]
    else Stripped(ExecOf(p))[..HdrLen(ExecOf(p))] + p.file[HdrLen(ExecOf(p))..DataEnd(p)]
  }

  function AllExtracted(ps: seq<Program>): (r: seq<Program>)
    requires AllComplete(ps)
  {
    if ps == [] then [] else [Program(ps[0].name, Extracted(ps[0]))] + AllExtracted(ps[1..])
  }

  /** Only the symbol table is gone. */
  lemma OnlySymbolsStripped(p: Program)
    requires Complete(p)
    ensures |Extracted(p)| == DataEnd(p)
    ensures forall i :: 0 <= i < DataEnd(p) && i != OFFSET_FLAGS && !(OFFSET_SYMS <= i < OFFSET_SYMS + 4) ==>
      Extracted(p)[i] == p.file[i]
  {
    hide Long;
    var e := ExecOf(p);
    StripKeeps(e);
    assert forall i :: 0 <= i < HdrLen(e) ==> e[i] == p.file[i];
  }

  /** Cutting the padding off the segments again. */
  lemma BodyOfSegments(p: Program, rest: seq<Byte>)
    requires Complete(p)
    ensures |Segments(p) + rest| >= SECTOR_SIZE * ProcSize(ExecOf(p))
    ensures Body(ExecOf(p), Segments(p) + rest) == p.file[TextStart(p)..DataEnd(p)]
  {
    hide Readable, ExecOf, Long, SectorsFor;
    SegmentsFillSectors(p);
    var e := ExecOf(p);
    if Separate(e) {
      var text, data := p.file[TextStart(p)..TextEnd(p)], p.file[TextEnd(p)..DataEnd(p)];
      assert |text| == TextSegment(e) && |data| == Data(e);
      WholeSectors(|text|);
      WholeSectors(|data|);
      CutPadding(text, Padded(data) + rest);
      CutPadding(data, rest);
      Associate(Padded(text), Padded(data), rest);
      var d := SECTOR_SIZE * SectorsFor(|text|);
      var body := Segments(p) + rest;
      assert body[d..] == Padded(data) + rest;
      assert body[d..d + |data|] == body[d..][..|data|];
      assert text + data == p.file[TextStart(p)..DataEnd(p)];
    } else {
      var both := p.file[TextStart(p)..DataEnd(p)];
      assert |both| == TextSegment(e) + Data(e);
      CutPadding(both, rest);
    }
  }

  lemma CutPadding(s: seq<Byte>, rest: seq<Byte>)
    ensures |Padded(s)| >= |s| && (Padded(s) + rest)[..|s|] == s
  {
    WholeSectors(|s|);
  }

  lemma FirstOfImage(p: Program, rest: seq<Byte>)
    requires Complete(p)
    ensures var image := HeaderSector(p) + Segments(p) + rest;
      && FirstProgram(image) == Some(Program(p.name, Extracted(p)))
      && NextProgram(image) == SECTOR_SIZE * (1 + ProcSize(ExecOf(p)))
      && image[NextProgram(image)..] == rest
  {
    hide HeaderSector, CString, ExecOf, ExecIn, NameIn, Long, ProcSize, Segments, Body, Separate, Stripped;
    var e := ExecOf(p);
    var image := HeaderSector(p) + Segments(p) + rest;
    SegmentsFillSectors(p);
    HeaderReads(p);
    StripKeeps(e);
    Associate(HeaderSector(p), Segments(p), rest);
    assert image[..SECTOR_SIZE] == HeaderSector(p);
    assert image[SECTOR_SIZE..] == Segments(p) + rest;
    BodyOfSegments(p, rest);
    SameBody(e, Stripped(e), Segments(p) + rest);
    assert [] + p.file[0..DataEnd(p)] == p.file[..DataEnd(p)];
  }

  lemma {:induction false} EndsAtNul(s: seq<Byte>)
    ensures 0 !in CString(s)
  {
    if s != [] && s[0] != 0 {
      EndsAtNul(s[1..]);
    }
  }

  lemma BodyLength(e: Exec, body: seq<Byte>)
    requires |body| >= SECTOR_SIZE * ProcSize(e)
    ensures |Body(e, body)| == TextSegment(e) + Data(e)
  {
    hide Text, Data, HdrLen, PageAligned, Separate;
    if Separate(e) {
      SectorsForIs(TextSegment(e), SectorsFor(TextSegment(e)));
      SectorsForIs(Data(e), SectorsFor(Data(e)));
    } else {
      SectorsForIs(TextSegment(e) + Data(e), SectorsFor(TextSegment(e) + Data(e)));
    }
  }

  /** Whatever the image holds: a program is taken from it just when there is a good header with all the sectors
      that it announces behind it. It has the header's count of bytes, and, if its header is a part of its own
      and its name is not too long, it can be put into an image again. */
  lemma WhatIsExtracted(image: seq<Byte>)
    requires |image| >= SECTOR_SIZE
    ensures var e := ExecIn(image[..SECTOR_SIZE]);
      FirstProgram(image).Some? <==>
        e[..2] == [1, 3] && 32 <= HdrLen(e) <= 48 && |image| >= SECTOR_SIZE + SECTOR_SIZE * ProcSize(e)
    ensures FirstProgram(image).Some? ==>
      var e, p := ExecIn(image[..SECTOR_SIZE]), FirstProgram(image).value;
      && |p.file| == HdrLen(e) + Text(e) + Data(e)
      && (!PageAligned(e) && |p.name| < 63 ==> Complete(p) && ExecOf(p)[..HdrLen(e)] == e[..HdrLen(e)])
  {
    hide SectorsFor, Body, Long, CString;
    if FirstProgram(image).Some? {
      var e, p := ExecIn(image[..SECTOR_SIZE]), FirstProgram(image).value;
      EndsAtNul(image[..SECTOR_SIZE][..NAME_FIELD]);
      BodyLength(e, image[SECTOR_SIZE..]);
      if !PageAligned(e) && |p.name| < 63 {
        var n := HdrLen(e);
        assert p.file[..n] == e[..n];
        assert forall k :: 0 <= k < 32 ==> p.file[k] == e[k];
        SameLongs(e, ExecOf(p));
      }
    }
  }

  lemma SameLongs(e: Exec, f: Exec)
    requires forall k :: 0 <= k < 32 ==> e[k] == f[k]
    ensures HdrLen(e) == HdrLen(f) && Text(e) == Text(f) && Data(e) == Data(f)
  {
  }

  lemma SameBody(e: Exec, f: Exec, body: seq<Byte>)
    requires ProcSize(e) == ProcSize(f) && Separate(e) == Separate(f)
    requires TextSegment(e) == TextSegment(f) && Data(e) == Data(f)
    requires |body| >= SECTOR_SIZE * ProcSize(e)
    ensures Body(e, body) == Body(f, body)
  {
    hide Long;
  }

  /** Taking apart the image of any executables gives back every one of them, in order. */
  lemma {:induction false} ProgramsOfImage(ps: seq<Program>)
    requires AllComplete(ps)
    ensures Programs(Image(ps)) == Some(AllExtracted(ps))
  {
    hide Complete, FirstProgram, NextProgram, Extracted, HeaderSector, Segments;
    if ps != [] {
      ProgramsOfImage(ps[1..]);
      FirstOfImage(ps[0], Image(ps[1..]));
    }
  }

  /** What comes out of an image makes the same image again. */
  lemma Remade(p: Program)
    requires Complete(p)
    ensures var q := Program(p.name, Extracted(p));
      Complete(q) && HeaderSector(q) == HeaderSector(p) && Segments(q) == Segments(p)
  {
    hide Padded, Long, Stripped, ExecOf, Extracted, ProcSize;
    var q := Program(p.name, Extracted(p));
    var e := ExecOf(p);
    StripKeeps(e);
    OnlySymbolsStripped(p);
    ExtractedHeader(p);
    SameSlice(p, TextStart(p), DataEnd(p));
    SameSlice(p, TextStart(p), TextEnd(p));
    SameSlice(p, TextEnd(p), DataEnd(p));
  }

  lemma ExtractedHeader(p: Program)
    requires Complete(p)
    ensures var q := Program(p.name, Extracted(p)); var e := ExecOf(p);
      && Readable(q) && Stripped(ExecOf(q)) == Stripped(e)
      && ExecOf(q) == if PageAligned(e) then e else Stripped(e)
  {
    hide Long, Stripped;
    var q := Program(p.name, Extracted(p));
    var e := ExecOf(p);
    OnlySymbolsStripped(p);
    StripTwice(e);
    if PageAligned(e) {
      assert q.file[..HdrLen(e)] == p.file[..HdrLen(e)];
    } else {
      StrippedTail(e, HdrLen(e));
      assert q.file[..HdrLen(e)] == Stripped(e)[..HdrLen(e)];
      assert e[HdrLen(e)..] == Zeros(EXEC_SIZE - HdrLen(e));
    }
  }

  /** Stripping does not reach past the header's minimum. */
  lemma StrippedTail(e: Exec, n: nat)
    requires A_MINHDR <= n <= EXEC_SIZE
    ensures Stripped(e)[..n] + e[n..] == Stripped(e)
  {
  }

  lemma StripTwice(e: Exec)
    ensures Stripped(Stripped(e)) == Stripped(e)
  {
    ClearsOneBit(e[OFFSET_FLAGS]);
  }

  /** The bytes from the text on are the file's; for a page-aligned one that is every byte. */
  lemma SameSlice(p: Program, i: nat, j: nat)
    requires Complete(p) && TextStart(p) <= i <= j <= DataEnd(p)
    ensures |Extracted(p)| == DataEnd(p) && Extracted(p)[i..j] == p.file[i..j]
  {
    hide Long, Stripped, ExecOf;
    var n := HdrLen(ExecOf(p));
    if PageAligned(ExecOf(p)) {
      assert p.file[..DataEnd(p)][i..j] == p.file[i..j];
    } else {
      var h, t := Stripped(ExecOf(p))[..n], p.file[n..DataEnd(p)];
      assert (h + t)[i..j] == t[i - n..j - n];
      SliceOfSlice(p.file, n, DataEnd(p), i - n, j - n);
    }
  }
}
