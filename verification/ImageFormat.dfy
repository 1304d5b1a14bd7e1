/** The boot image: executables, each behind a header sector, every segment padded to whole sectors. */
module ImageFormat {

  type Byte = b: int | 0 <= b < 256

  const SECTOR_SIZE := 512
  const NAME_FIELD := 64
  const EXEC_SIZE := 48
  const A_MINHDR := 32
  const OFFSET_FLAGS := 2
  const OFFSET_HDRLEN := 4
  const OFFSET_SYMS := 28

  function Zeros(n: nat): (r: seq<Byte>)
    ensures |r| == n
  {
    seq(n, _ => 0)
  }

  // ----- the executable's header -----

  /** The header's fixed part, as bytes in the file's order. */
  type Exec = e: seq<Byte> | |e| == EXEC_SIZE witness Zeros(EXEC_SIZE)

  /** The little-endian 32-bit word at byte `at`. */
  function Long(e: seq<Byte>, at: nat): nat
    requires at + 4 <= |e|
  {
    var b0: int, b1: int, b2: int, b3: int := e[at], e[at + 1], e[at + 2], e[at + 3];
    b0 + 0x100 * b1 + 0x1_0000 * b2 + 0x100_0000 * b3
  }

  predicate GoodMagic(e: seq<Byte>)
    requires |e| >= 2
  {
    e[0] == 0x01 && e[1] == 0x03
  }

  predicate UnmappedZeroPage(e: Exec) {
    e[OFFSET_FLAGS] % 2 == 1
  }

  predicate PageAligned(e: Exec) {
    e[OFFSET_FLAGS] / 2 % 2 == 1
  }

  predicate Separate(e: Exec) {
    e[OFFSET_FLAGS] / 0x20 % 2 == 1
  }

  function HdrLen(e: Exec): nat { e[OFFSET_HDRLEN] }

  function Text(e: Exec): nat { Long(e, 8) }

  function Data(e: Exec): nat { Long(e, 12) }

  function Bss(e: Exec): nat { Long(e, 16) }

  function Entry(e: Exec): nat { Long(e, 20) }

  function Total(e: Exec): nat { Long(e, 24) }

  function Syms(e: Exec): nat { Long(e, OFFSET_SYMS) }

  /** The text segment as it is loaded: a page-aligned one begins with the header. */
  function TextSegment(e: Exec): nat {
    if PageAligned(e) then Text(e) + HdrLen(e) else Text(e)
  }

  // ----- sectors -----

  function SectorsFor(n: nat): nat {
    (n + SECTOR_SIZE - 1) / SECTOR_SIZE
  }

  /** The least number of sectors that hold `n` bytes. */
  lemma SectorsForIs(n: nat, k: nat)
    ensures SectorsFor(n) >= 0 && (k * SECTOR_SIZE >= n <==> k >= SectorsFor(n))
  {
  }

  function Padded(s: seq<Byte>): (r: seq<Byte>)
    ensures |r| == SECTOR_SIZE * SectorsFor(|s|)
  {
    s + Zeros(SECTOR_SIZE * SectorsFor(|s|) - |s|)
  }

  /** The sectors of a program's text and data, which follow its header sector. */
  function ProcSize(e: Exec): nat {
    if Separate(e) then SectorsFor(TextSegment(e)) + SectorsFor(Data(e))
    else SectorsFor(TextSegment(e) + Data(e))
  }

  // ----- the header as the format lays it out -----

  /** A 32-bit number as the four bytes that hold it, lowest first. */
  function LowFirst(n: nat): (r: seq<Byte>)
    requires n < 0x1_0000_0000
    ensures |r| == 4
  {
    [n % 0x100, n / 0x100 % 0x100, n / 0x1_0000 % 0x100, n / 0x100_0000]
  }

  lemma LongLaw(before: seq<Byte>, n: nat, after: seq<Byte>)
    requires n < 0x1_0000_0000
    ensures Long(before + LowFirst(n) + after, |before|) == n
  {
    var s := before + LowFirst(n) + after;
    assert s[|before|..|before| + 4] == LowFirst(n);
    assert forall k :: 0 <= k < 4 ==> s[|before| + k] == LowFirst(n)[k];
    DigitsMakeUp(n);
  }

  lemma DigitsMakeUp(n: nat)
    ensures n == n % 0x100 + 0x100 * (n / 0x100 % 0x100) + 0x1_0000 * (n / 0x1_0000 % 0x100)
      + 0x100_0000 * (n / 0x100_0000)
  {
    var a := n / 0x100;
    var b := a / 0x100;
    assert n / 0x1_0000 == b && n / 0x100_0000 == b / 0x100;
  }

  /** A header written field by field: two bytes of magic number, the flags, the processor, the header's
      length and three unused bytes; then the lengths of text, data and bss, the entry point, the total
      and the length of the symbols; then what comes of a long header. */
  function Written(flags: Byte, cpu: Byte, length: Byte, unused: seq<Byte>, text: nat, data: nat, bss: nat,
      entry: nat, total: nat, syms: nat, more: seq<Byte>): Exec
    requires |unused| == 3 && |more| == 16
    requires text < 0x1_0000_0000 && data < 0x1_0000_0000 && bss < 0x1_0000_0000
    requires entry < 0x1_0000_0000 && total < 0x1_0000_0000 && syms < 0x1_0000_0000
  {
    [1, 3, flags, cpu, length] + unused + LowFirst(text) + LowFirst(data) + LowFirst(bss) + LowFirst(entry)
    + LowFirst(total) + LowFirst(syms) + more
  }

  /** Each field of such a header is read as it was written, and of the flags bit 0 tells of an unmapped zero
      page, bit 1 of a page-aligned program and bit 5 of a separate data space. */
  lemma FieldsAreRead(zero: bool, aligned: bool, two: nat, separate: bool, high: nat, cpu: Byte, length: Byte,
      unused: seq<Byte>, text: nat, data: nat, bss: nat, entry: nat, total: nat, syms: nat, more: seq<Byte>)
    requires two < 8 && high < 4 && |unused| == 3 && |more| == 16
    requires text < 0x1_0000_0000 && data < 0x1_0000_0000 && bss < 0x1_0000_0000
    requires entry < 0x1_0000_0000 && total < 0x1_0000_0000 && syms < 0x1_0000_0000
    ensures var flags := FlagBits(zero, aligned, two, separate, high);
      var e := Written(flags, cpu, length, unused, text, data, bss, entry, total, syms, more);
      && GoodMagic(e) && HdrLen(e) == length && Text(e) == text && Data(e) == data && Bss(e) == bss
      && Entry(e) == entry && Total(e) == total && Syms(e) == syms
      && (UnmappedZeroPage(e) <==> zero) && (PageAligned(e) <==> aligned) && (Separate(e) <==> separate)
  {
    hide LowFirst, Long;
    var flags := FlagBits(zero, aligned, two, separate, high);
    var e := Written(flags, cpu, length, unused, text, data, bss, entry, total, syms, more);
    LongAt(e, [1, 3, flags, cpu, length] + unused, text);
    LongAt(e, e[..12], data);
    LongAt(e, e[..16], bss);
    LongAt(e, e[..20], entry);
    LongAt(e, e[..24], total);
    LongAt(e, e[..28], syms);
    FlagsAre(zero, aligned, two, separate, high);
  }

  lemma LongAt(e: seq<Byte>, before: seq<Byte>, n: nat)
    requires n < 0x1_0000_0000 && |before| + 4 <= |e| && e[..|before|] == before
    requires e[|before|..|before| + 4] == LowFirst(n)
    ensures Long(e, |before|) == n
  {
    hide LowFirst, Long;
    assert e == before + LowFirst(n) + e[|before| + 4..];
    LongLaw(before, n, e[|before| + 4..]);
  }

  function FlagBits(zero: bool, aligned: bool, two: nat, separate: bool, high: nat): Byte
    requires two < 8 && high < 4
  {
    (if zero then 0x01 else 0) + (if aligned then 0x02 else 0) + 4 * two + (if separate then 0x20 else 0) + 0x40 * high
  }

  lemma FlagsAre(zero: bool, aligned: bool, two: nat, separate: bool, high: nat)
    requires two < 8 && high < 4
    ensures var f: int := FlagBits(zero, aligned, two, separate, high);
      && (f % 2 == 1 <==> zero) && (f / 2 % 2 == 1 <==> aligned) && (f / 0x20 % 2 == 1 <==> separate)
  {
  }

  // ----- a program and its part of the image -----

  /** An executable file and the name it goes by, at most 62 characters and none of them NUL. */
  datatype Program = Program(name: seq<Byte>, file: seq<Byte>)

  predicate Readable(p: Program) {
    && |p.name| < NAME_FIELD - 1 && 0 !in p.name
    && |p.file| >= A_MINHDR && GoodMagic(p.file)
    && A_MINHDR <= p.file[OFFSET_HDRLEN] <= EXEC_SIZE && p.file[OFFSET_HDRLEN] <= |p.file|
  }

  /** The header as it is read from the file; what the file's header lacks is zero. */
  function ExecOf(p: Program): (e: Exec)
    requires Readable(p)
    ensures HdrLen(e) == p.file[OFFSET_HDRLEN]
  {
    p.file[..p.file[OFFSET_HDRLEN]] + Zeros(EXEC_SIZE - p.file[OFFSET_HDRLEN])
  }

  /** The file holds the header, text and data its header announces. */
  predicate Complete(p: Program) {
    Readable(p) && var e := ExecOf(p); HdrLen(e) + Text(e) + Data(e) <= |p.file|
  }

  /** No symbol table: its size is zero and its flag cleared. */
  function Stripped(e: Exec): Exec {
    e[OFFSET_FLAGS := e[OFFSET_FLAGS] - 4 * (e[OFFSET_FLAGS] / 4 % 2)]
     [OFFSET_SYMS := 0][OFFSET_SYMS + 1 := 0][OFFSET_SYMS + 2 := 0][OFFSET_SYMS + 3 := 0]
  }

  function HeaderSector(p: Program): (r: seq<Byte>)
    requires Readable(p)
    ensures |r| == SECTOR_SIZE
  {
    p.name + Zeros(NAME_FIELD - |p.name|) + Stripped(ExecOf(p)) + Zeros(SECTOR_SIZE - NAME_FIELD - EXEC_SIZE)
  }

  /** Where in the file the text segment begins and ends, and the data segment ends. */
  function TextStart(p: Program): nat
    requires Readable(p)
  {
    if PageAligned(ExecOf(p)) then 0 else HdrLen(ExecOf(p))
  }

  function TextEnd(p: Program): nat
    requires Readable(p)
  {
    HdrLen(ExecOf(p)) + Text(ExecOf(p))
  }

  function DataEnd(p: Program): nat
    requires Readable(p)
  {
    TextEnd(p) + Data(ExecOf(p))
  }

  function Segments(p: Program): seq<Byte>
    requires Complete(p)
  {
    if Separate(ExecOf(p)) then
      Padded(p.file[TextStart(p)..TextEnd(p)]) + Padded(p.file[TextEnd(p)..DataEnd(p)])
    else
      Padded(p.file[TextStart(p)..DataEnd(p)])
  }

  predicate AllComplete(ps: seq<Program>) {
    forall i :: 0 <= i < |ps| ==> Complete(ps[i])
  }

  function Image(ps: seq<Program>): seq<Byte>
    requires AllComplete(ps)
  {
    if ps == [] then [] else HeaderSector(ps[0]) + Segments(ps[0]) + Image(ps[1..])
  }

  lemma SegmentsFillSectors(p: Program)
    requires Complete(p)
    ensures |Segments(p)| == SECTOR_SIZE * ProcSize(ExecOf(p))
  {
    hide Padded, Readable, SectorsFor, ExecOf;
    var e := ExecOf(p);
    assert TextEnd(p) - TextStart(p) == TextSegment(e);
    assert DataEnd(p) - TextEnd(p) == Data(e);
    if Separate(e) {
      assert |p.file[TextStart(p)..TextEnd(p)]| == TextSegment(e);
    } else {
      assert |p.file[TextStart(p)..DataEnd(p)]| == TextSegment(e) + Data(e);
    }
  }

  // ----- reading a header sector -----

  /** The characters before the first NUL. */
  function CString(s: seq<Byte>): (r: seq<Byte>)
    ensures |r| <= |s|
  {
    if s == [] || s[0] == 0 then [] else [s[0]] + CString(s[1..])
  }

  function NameIn(sector: seq<Byte>): seq<Byte>
    requires |sector| == SECTOR_SIZE
  {
    CString(sector[..NAME_FIELD])
  }

  function ExecIn(sector: seq<Byte>): Exec
    requires |sector| == SECTOR_SIZE
  {
    sector[NAME_FIELD..NAME_FIELD + EXEC_SIZE]
  }

  lemma {:induction false} CStringOfPadded(name: seq<Byte>, n: nat)
    requires 0 !in name && n > 0
    ensures CString(name + Zeros(n)) == name
  {
    if name == [] {
      assert (name + Zeros(n))[0] == 0;
    } else {
      assert (name + Zeros(n))[1..] == name[1..] + Zeros(n);
      CStringOfPadded(name[1..], n);
    }
  }

  /** Stripping changes the symbol table's size and flag only. */
  lemma StripKeeps(e: Exec)
    ensures Syms(Stripped(e)) == 0 && Stripped(e)[OFFSET_FLAGS] / 4 % 2 == 0
    ensures Stripped(e)[OFFSET_FLAGS] == e[OFFSET_FLAGS] || Stripped(e)[OFFSET_FLAGS] == e[OFFSET_FLAGS] - 4
    ensures PageAligned(Stripped(e)) == PageAligned(e) && Separate(Stripped(e)) == Separate(e)
    ensures UnmappedZeroPage(Stripped(e)) == UnmappedZeroPage(e)
    ensures forall i :: 0 <= i < EXEC_SIZE && i != OFFSET_FLAGS && !(OFFSET_SYMS <= i < OFFSET_SYMS + 4) ==>
      Stripped(e)[i] == e[i]
    ensures HdrLen(Stripped(e)) == HdrLen(e) && Text(Stripped(e)) == Text(e) && Data(Stripped(e)) == Data(e)
    ensures Bss(Stripped(e)) == Bss(e) && Entry(Stripped(e)) == Entry(e) && Total(Stripped(e)) == Total(e)
    ensures ProcSize(Stripped(e)) == ProcSize(e)
  {
    ClearsOneBit(e[OFFSET_FLAGS]);
  }

  lemma ClearsOneBit(f: Byte)
    ensures var g := f - 4 * (f / 4 % 2);
      g >= 0 && g % 2 == f % 2 && g / 2 % 2 == f / 2 % 2 && g / 4 % 2 == 0 && g / 0x20 % 2 == f / 0x20 % 2
  {
    var q, l := f / 4, f % 4;
    var r, b := q / 2, q % 2;
    var h, m := r / 4, r % 4;
    assert f == 4 * q + l && q == 2 * r + b && r == 4 * h + m;
    Bits(h, m, b, l);
    Bits(h, m, 0, l);
  }

  lemma Bits(h: nat, m: nat, b: nat, l: nat)
    requires m < 4 && b < 2 && l < 4
    ensures var f := 0x20 * h + 8 * m + 4 * b + l;
      f / 0x20 == h && f / 4 % 2 == b && f / 2 % 2 == l / 2 && f % 2 == l % 2
  {
  }

  /** A header sector gives back the name and the stripped header. */
  lemma HeaderReads(p: Program)
    requires Readable(p)
    ensures NameIn(HeaderSector(p)) == p.name
    ensures ExecIn(HeaderSector(p)) == Stripped(ExecOf(p))
    ensures GoodMagic(ExecIn(HeaderSector(p)))
    ensures GoodMagic(ExecIn(HeaderSector(p)))
    ensures HeaderSector(p)[..|p.name|] == p.name && HeaderSector(p)[64..112] == Stripped(ExecOf(p))
    ensures forall i :: |p.name| <= i < 64 || 112 <= i < 512 ==> HeaderSector(p)[i] == 0
  {
    var n := p.name + Zeros(NAME_FIELD - |p.name|);
    var e := Stripped(ExecOf(p));
    var z := Zeros(SECTOR_SIZE - NAME_FIELD - EXEC_SIZE);
    assert HeaderSector(p) == n + e + z;
    assert (n + e + z)[..NAME_FIELD] == n;
    assert (n + e + z)[NAME_FIELD..NAME_FIELD + EXEC_SIZE] == e;
    CStringOfPadded(p.name, NAME_FIELD - |p.name|);
    assert e[0] == p.file[0] && e[1] == p.file[1];
  }
}
