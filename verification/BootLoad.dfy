/** Loading the processes of a boot image into memory. */
module BootLoad {
  import opened Arithmetic
  import opened ImageFormat

  // ----- rounding to clicks -----

  /** The least multiple of `n` that is not below `a`. */
  function Ceil(a: int, n: int): int
    requires n > 0
  {
    (a + n - 1) / n * n
  }

  /** The loader's rounding, on unsigned 32-bit numbers: `a` may be a negative number cast. */
  function Align(a: int, n: int): int
    requires n > 0
  {
    (a % 0x1_0000_0000 + n - 1) % 0x1_0000_0000 / n * n
  }

  /** The sizes a click can have: 1 shifted left by 4 to 16. */
  predicate IsClick(n: nat) {
    || n == 16 || n == 32 || n == 64 || n == 128 || n == 256 || n == 512 || n == 1024
    || n == 2048 || n == 4096 || n == 8192 || n == 16384 || n == 32768 || n == 65536
  }

  /** What a click and a sector have in common: the unit that segments are copied in. */
  function Chunk(click: nat): (r: nat)
    ensures click > 0 ==> r > 0
  {
    if click > SECTOR_SIZE then SECTOR_SIZE else click
  }

  lemma ClickFacts(n: nat)
    requires IsClick(n)
    ensures 16 <= n <= 0x1_0000 && SECTOR_SIZE % Chunk(n) == 0 && n % Chunk(n) == 0 && Chunk(n) <= n
  {
  }

  lemma CeilBounds(a: int, n: nat)
    requires n > 0
    ensures a <= Ceil(a, n) < a + n && Ceil(a, n) % n == 0
  {
    var q := (a + n - 1) / n;
    assert a + n - 1 == n * q + (a + n - 1) % n;
    Quotient(n, q, 0, q * n);
  }

  /** Being a multiple within one unit above `a` decides the ceiling. */
  lemma CeilIs(a: int, n: nat, c: int)
    requires n > 0 && a <= c < a + n && c % n == 0
    ensures Ceil(a, n) == c
  {
    CeilBounds(a, n);
    var x, y := c / n, Ceil(a, n) / n;
    assert c == n * x && Ceil(a, n) == n * y;
    assert c - Ceil(a, n) == n * (x - y);
    Multiple(n, x - y);
  }

  /** Where the clicks of `size` bytes at `addr` end. */
  function ClickAfter(addr: nat, size: nat, click: nat): nat
    requires click > 0
  {
    CeilBounds(size, click);
    addr + Ceil(size, click)
  }

  lemma CeilOfZero(n: nat)
    requires n > 0
    ensures Ceil(0, n) == 0
  {
    CeilIs(0, n, 0);
  }

  /** On what is left of a size the cast does no harm: down to, but not including, minus a click. */
  lemma AlignIsCeil(a: int, n: nat)
    requires 0 < n <= 0x1_0000 && 0 < a + n <= 0x1_0000_0000
    ensures Align(a, n) == Ceil(a, n) && Align(a, n) >= 0
  {
    hide Ceil, Align;
    CastSum(a, n);
    CeilBounds(a, n);
    AlignUncast(a, n);
    if a < 0 {
      CeilIs(a, n, 0);
    }
  }

  /** Further down the cast adds 2 to the power 32. */
  lemma AlignWraps(a: int, n: nat)
    requires IsClick(n) && -0x1_0000_0000 < a && a + n <= 0
    ensures Align(a, n) == Ceil(a, n) + 0x1_0000_0000
  {
    hide IsClick, Ceil;
    ClickFacts(n);
    CeilShifts(0x1_0000_0000, a, n) by { MultipleOfMultiple(0x1_0000_0000, 0x1_0000, n) by { ClickDivides(n); } }
    assert a % 0x1_0000_0000 == a + 0x1_0000_0000;
    AlignPositive(a, n);
  }

  lemma AlignPositive(a: int, n: nat)
    requires 0 < n && -0x1_0000_0000 < a && a + n <= 0
    ensures Align(a, n) == Ceil(a + 0x1_0000_0000, n)
  {
    assert a % 0x1_0000_0000 == a + 0x1_0000_0000;
  }

  lemma ClickDivides(n: nat)
    requires IsClick(n)
    ensures 0x1_0000 % n == 0
  {
  }

  lemma CastSum(a: int, n: int)
    requires 0 < n <= 0x1_0000 && 0 < a + n <= 0x1_0000_0000
    ensures (a % 0x1_0000_0000 + n - 1) % 0x1_0000_0000 == a + n - 1
  {
    if a < 0 {
      assert a % 0x1_0000_0000 == a + 0x1_0000_0000;
    }
  }

  lemma AlignUncast(a: int, n: int)
    requires n > 0 && (a % 0x1_0000_0000 + n - 1) % 0x1_0000_0000 == a + n - 1
    ensures Align(a, n) == Ceil(a, n)
  {
  }

  lemma SumOfMultiples(a: int, b: int, n: nat)
    requires n > 0 && a % n == 0 && b % n == 0
    ensures (a + b) % n == 0 && (a - b) % n == 0
  {
    var x, y := a / n, b / n;
    assert a == n * x && b == n * y;
    assert a + b == n * (x + y) && a - b == n * (x - y);
    Quotient(n, x + y, 0, a + b);
    Quotient(n, x - y, 0, a - b);
  }

  lemma CeilShifts(a: int, b: int, n: nat)
    requires n > 0 && a % n == 0
    ensures Ceil(a + b, n) == a + Ceil(b, n)
  {
    CeilBounds(b, n);
    SumOfMultiples(a, Ceil(b, n), n);
    CeilIs(a + b, n, a + Ceil(b, n));
  }

  // ----- memory -----

  /** Memory `m` with `s` written at `at`; writing nothing is harmless at any address. */
  function Overwrite(m: seq<Byte>, at: nat, s: seq<Byte>): (r: seq<Byte>)
    requires s != [] ==> at + |s| <= |m|
    ensures |r| == |m|
  {
    if s == [] then m else m[..at] + s + m[at + |s|..]
  }

  lemma OverwriteOn(m: seq<Byte>, at: nat, s: seq<Byte>, t: seq<Byte>)
    requires s + t != [] ==> at + |s + t| <= |m|
    ensures Overwrite(Overwrite(m, at, s), at + |s|, t) == Overwrite(m, at, s + t)
  {
    if s == [] {
      assert s + t == t;
    } else if t == [] {
      assert s + t == s;
    }
  }

  lemma OverwriteSlice(m: seq<Byte>, at: nat, s: seq<Byte>, i: nat, j: nat)
    requires (s != [] ==> at + |s| <= |m|) && i <= j <= |m|
    ensures j <= at || at + |s| <= i ==> Overwrite(m, at, s)[i..j] == m[i..j]
    ensures i == at && j == at + |s| ==> Overwrite(m, at, s)[i..j] == s
  {
  }

  method RawCopy(mem: array<Byte>, dst: nat, src: nat, count: nat)
    requires dst + count <= mem.Length && src + count <= mem.Length
    requires src + count <= dst || dst + count <= src
    modifies mem
    ensures mem[..] == Overwrite(old(mem[..]), dst, old(mem[src..src + count]))
  {
    forall k | 0 <= k < count {
      mem[dst + k] := mem[src + k];
    }
  }

  /** Copies bytes of the monitor's own. */
  method RawStore(mem: array<Byte>, dst: nat, s: seq<Byte>)
    requires s != [] ==> dst + |s| <= mem.Length
    modifies mem
    ensures mem[..] == Overwrite(old(mem[..]), dst, s)
  {
    forall k | 0 <= k < |s| {
      mem[dst + k] := s[k];
    }
  }

  lemma ClearedSource(m: seq<Byte>, cleared: seq<Byte>, addr: nat, done: nat, n: nat)
    requires addr + done <= |m| && n <= done && cleared == Overwrite(m, addr, Zeros(done))
    ensures cleared[addr..addr + n] == Zeros(n)
  {
    OverwriteSlice(m, addr, Zeros(done), addr, addr + done);
    assert cleared[addr..addr + n] == cleared[addr..addr + done][..n];
  }

  lemma ZerosJoin(n: nat, k: nat)
    ensures Zeros(n) + Zeros(k) == Zeros(n + k)
  {
  }

  /** Clears `count` bytes by copying what is clear already, twice as much each time. */
  method RawClear(mem: array<Byte>, addr: nat, count: nat)
    requires count > 0 ==> addr + count <= mem.Length
    modifies mem
    ensures mem[..] == Overwrite(old(mem[..]), addr, Zeros(count))
  {
    hide Overwrite, Zeros;
    ghost var m := mem[..];
    var zct := if 128 > count then count else 128;
    RawStore(mem, addr, Zeros(zct));
    var left := count - zct;
    while left > 0
      invariant 0 <= left <= count && (left > 0 ==> zct == count - left > 0)
      invariant mem[..] == Overwrite(m, addr, Zeros(count - left))
    {
      ghost var done := zct;
      var dst := addr + zct;
      if zct > left {
        zct := left;
      }
      ClearedSource(m, mem[..], addr, done, zct);
      assert mem[addr..addr + zct] == mem[..][addr..addr + zct];
      RawCopy(mem, dst, addr, zct);
      OverwriteOn(m, addr, Zeros(done), Zeros(zct));
      ZerosJoin(done, zct);
      left := left - zct;
      zct := zct * 2;
    }
  }

  // ----- loading a segment -----

  /** A signed 32-bit number. */
  type Size = x: int | -0x8000_0000 <= x < 0x8000_0000

  /** How much is copied for a size; nothing for a negative one. */
  function Asked(size: int): nat {
    if size > 0 then size else 0
  }

  datatype Option<T> = None | Some(value: T)

  type Sector = s: seq<Byte> | |s| == SECTOR_SIZE witness Zeros(SECTOR_SIZE)

  /** The image by sector numbers; None where a sector cannot be read. */
  type Sectors = seq<Option<Sector>>

  function GetSector(image: Sectors, vsec: nat): Option<Sector> {
    if vsec < |image| then image[vsec] else None
  }

  /** `n` sectors from `vsec` on can be read. */
  predicate CanRead(image: Sectors, vsec: nat, n: nat) {
    n == 0 || (CanRead(image, vsec, n - 1) && GetSector(image, vsec + n - 1).Some?)
  }

  function ImageBytes(image: Sectors, vsec: nat, n: nat): (r: seq<Byte>)
    requires CanRead(image, vsec, n)
    ensures |r| == SECTOR_SIZE * n
  {
    if n == 0 then [] else ImageBytes(image, vsec, n - 1) + GetSector(image, vsec + n - 1).value
  }

  /** A loaded segment, up to a whole click: what its sectors hold, and zeros after those. */
  function SegmentBytes(image: Sectors, vsec: nat, size: nat, click: nat): (r: seq<Byte>)
    requires CanRead(image, vsec, SectorsFor(size)) && click > 0
    ensures |r| == Ceil(size, click)
  {
    CeilBounds(size, click);
    var b, c := ImageBytes(image, vsec, SectorsFor(size)), Ceil(size, click);
    if c <= |b| then b[..c] else b + Zeros(c - |b|)
  }

  /** When the last chunk goes to memory, a whole click fits there. */
  predicate SegmentRoom(size: nat, addr: nat, limit: nat, click: nat)
    requires click > 0
  {
    size > 0 ==> addr + Ceil(size, Chunk(click)) - Chunk(click) + click <= limit
  }

  /** The segment can be read, and there is room for it. */
  predicate SegmentFits(image: Sectors, vsec: nat, size: nat, addr: nat, limit: nat, click: nat)
    requires click > 0
  {
    CanRead(image, vsec, SectorsFor(size)) && SegmentRoom(size, addr, limit, click)
  }

  /** What is asked for beyond the segment's own clicks: the whole chunks before the last in its last click. */
  function Excess(size: nat, click: nat): (r: nat)
    requires size > 0 && click > 0
  {
    var n := (size - 1) % click / Chunk(click);
    ProductIsNat(n, Chunk(click));
    n * Chunk(click)
  }

  /** A segment is refused when the limit leaves its clicks but less than the excess, which there is as
      soon as its last click takes more than one sector. */
  lemma FitsExactly(image: Sectors, vsec: nat, size: nat, addr: nat, limit: nat, click: nat)
    requires IsClick(click) && size > 0 && CanRead(image, vsec, SectorsFor(size))
    ensures SegmentFits(image, vsec, size, addr, limit, click)
       <==> addr + Ceil(size, click) + Excess(size, click) <= limit
    ensures Excess(size, click) == 0 <==> (size - 1) % click < Chunk(click)
    ensures click <= SECTOR_SIZE ==> Excess(size, click) == 0
    ensures Excess(size, click) < click
  {
    hide IsClick, CanRead, Ceil, SectorsFor, Chunk, Excess, SegmentRoom;
    RoomExactly(size, addr, limit, click);
  }

  lemma RoomExactly(size: nat, addr: nat, limit: nat, click: nat)
    requires IsClick(click) && size > 0
    ensures SegmentRoom(size, addr, limit, click) <==> addr + Ceil(size, click) + Excess(size, click) <= limit
    ensures Excess(size, click) == 0 <==> (size - 1) % click < Chunk(click)
    ensures click <= SECTOR_SIZE ==> Excess(size, click) == 0
    ensures Excess(size, click) < click
  {
    hide IsClick, CanRead, Ceil, SectorsFor, Chunk, Excess;
    ClickFacts(click);
    var last := (size - 1) % click;
    ExcessIs(size, click);
    CeilWithin(size, click);
    CeilWithin(last + 1, Chunk(click));
    CeilShifts(size - 1 - last, last + 1, Chunk(click)) by {
      MultipleOfMultiple(size - 1 - last, click, Chunk(click)) by { WholeClicks(size - 1, click); }
    }
    SmallClick(click);
  }

  lemma WholeClicks(a: nat, n: nat)
    requires n > 0
    ensures a - a % n >= 0 && (a - a % n) % n == 0
  {
    Quotient(n, a / n, 0, a - a % n);
  }

  lemma SmallClick(click: nat)
    ensures click <= SECTOR_SIZE ==> Chunk(click) == click
  {
  }

  lemma ExcessIs(size: nat, click: nat)
    requires IsClick(click) && size > 0
    ensures var last := (size - 1) % click; var e := Excess(size, click);
      e == last - last % Chunk(click) && (e == 0 <==> last < Chunk(click)) && e < click
  {
    hide IsClick;
    ClickFacts(click);
    var last, chunk := (size - 1) % click, Chunk(click);
    assert last == chunk * (last / chunk) + last % chunk;
    if last >= chunk {
      QuotientOfNext(last, chunk);
    } else {
      QuotientOfSmall(last, chunk);
    }
  }

  lemma CeilWithin(size: nat, n: nat)
    requires size > 0 && n > 0
    ensures Ceil(size, n) == size - 1 - (size - 1) % n + n
  {
    WholeClicks(size - 1, n);
    SumOfMultiples(size - 1 - (size - 1) % n, n, n) by { QuotientOfSelf(n); }
    CeilIs(size, n, size - 1 - (size - 1) % n + n);
  }

  /** So memory that holds all clicks of a segment can be refused for it: here one click of 4096 bytes
      for 600 bytes. */
  lemma RefusedThoughItFits(image: Sectors)
    requires CanRead(image, 0, SectorsFor(600))
    ensures IsClick(4096) && Ceil(600, 4096) == 4096
    ensures !SegmentFits(image, 0, 600, 0, 4096, 4096) && SegmentFits(image, 0, 600, 0, 4096 + 512, 4096)
  {
    hide CanRead, SectorsFor;
    FitsExactly(image, 0, 600, 0, 4096, 4096);
    FitsExactly(image, 0, 600, 0, 4096 + 512, 4096);
  }

  lemma {:induction false} CanReadAt(image: Sectors, vsec: nat, n: nat, k: nat)
    requires CanRead(image, vsec, n) && k < n
    ensures GetSector(image, vsec + k).Some?
  {
    if k < n - 1 {
      CanReadAt(image, vsec, n - 1, k);
    }
  }

  lemma SegmentRefused(image: Sectors, vsec: nat, size: nat, addr: nat, limit: nat, click: nat, done: nat, next: int)
    requires IsClick(click) && done < size && done % Chunk(click) == 0
    requires
      || addr + done + click > limit
      || (next > vsec && done == SECTOR_SIZE * (next - 1 - vsec) && GetSector(image, next - 1).None?)
    ensures !SegmentFits(image, vsec, size, addr, limit, click)
  {
    hide IsClick, Ceil, Chunk;
    ClickFacts(click);
    var chunk := Chunk(click);
    if SegmentFits(image, vsec, size, addr, limit, click) {
      CeilBounds(size, chunk);
      SumOfMultiples(Ceil(size, chunk), chunk, chunk) by { QuotientOfSelf(chunk); }
      MultipleBelow(done, Ceil(size, chunk) - chunk, chunk);
      if addr + done + click <= limit {
        CanReadAt(image, vsec, SectorsFor(size), next - 1 - vsec);
      }
    }
  }

  lemma SegmentAccepted(size: nat, addr: nat, limit: nat, click: nat, done: nat)
    requires IsClick(click) && done % Chunk(click) == 0 && size <= done < size + Chunk(click)
    requires done > 0 ==> addr + done - Chunk(click) + click <= limit
    ensures size > 0 ==> addr + Ceil(size, Chunk(click)) - Chunk(click) + click <= limit
  {
    hide IsClick, Ceil, Chunk;
    CeilIs(size, Chunk(click), done);
  }

  /** The piece copied next is a whole chunk, and whole chunks are left. */
  lemma WholeChunks(click: nat, cnt: nat)
    requires IsClick(click) && 0 < cnt <= SECTOR_SIZE && cnt % Chunk(click) == 0
    ensures (if click > cnt then cnt else click) == Chunk(click) <= cnt
    ensures (cnt - Chunk(click)) % Chunk(click) == 0
  {
    hide IsClick;
    ClickFacts(click);
    var chunk := Chunk(click);
    if cnt < chunk {
      QuotientOfSmall(cnt, chunk);
    }
    QuotientOfNext(cnt, chunk);
  }

  class Loader {
    const image: Sectors
    const mem: array<Byte>
    var clickSize: nat

    constructor (image: Sectors, mem: array<Byte>)
      ensures this.image == image && this.mem == mem
    {
      this.image, this.mem := image, mem;
      clickSize := 0;
    }

    /** Copies chunks of the sectors from `vsec` on to `addr` until `size` bytes are there. */
    method CopyChunks(vsec: nat, size: Size, addr: nat, limit: nat)
      returns (ok: bool, vsec': nat, size': int, addr': nat, ghost done: seq<Byte>, ghost rest: seq<Byte>)
      requires IsClick(clickSize) && limit <= mem.Length
      modifies mem
      ensures done != [] ==> addr + |done| <= limit
      ensures mem[..] == Overwrite(old(mem[..]), addr, done)
      ensures ok ==> addr' == addr + |done| && addr' + size' == addr + size
      ensures ok ==> size' <= 0 && Asked(size) <= |done| < Asked(size) + Chunk(clickSize)
      ensures ok ==> |done| % Chunk(clickSize) == 0
      ensures ok ==> done != [] ==> addr' - Chunk(clickSize) + clickSize <= limit
      ensures ok ==> vsec' >= vsec && CanRead(image, vsec, vsec' - vsec)
      ensures ok ==> done + rest == ImageBytes(image, vsec, vsec' - vsec) && |rest| < SECTOR_SIZE
      ensures !ok ==> |done| < size && |done| % Chunk(clickSize) == 0
      ensures !ok ==>
        || addr + |done| + clickSize > limit
        || (vsec' > vsec && |done| == SECTOR_SIZE * (vsec' - 1 - vsec) && GetSector(image, vsec' - 1).None?)
    {
      hide IsClick, Chunk, Overwrite;
      ClickFacts(clickSize);
      ghost var chunk, m := Chunk(clickSize), mem[..];
      var buf: seq<Byte>, cnt: nat := [], 0;
      done := [];
      vsec', size', addr' := vsec, size, addr;
      assert Overwrite(m, addr, done) == m by {
        EmptyWrite(m, addr);
      }
      while size' > 0
        invariant addr' == addr + |done| && addr' + size' == addr + size && |done| < Asked(size) + chunk
        invariant size <= 0 ==> done == []
        invariant |done| % chunk == 0 && cnt % chunk == 0 && cnt == |buf| < SECTOR_SIZE
        invariant done != [] ==> addr' - chunk + clickSize <= limit && addr' <= limit
        invariant vsec' >= vsec && CanRead(image, vsec, vsec' - vsec)
        invariant done + buf == ImageBytes(image, vsec, vsec' - vsec)
        invariant mem[..] == Overwrite(m, addr, done)
      {
        if cnt == 0 {
          var r := GetSector(image, vsec');
          vsec' := vsec' + 1;
          if r.None? {
            return false, vsec', size', addr', done, [];
          }
          assert done + [] == done;
          buf, cnt := r.value, SECTOR_SIZE;
        }
        if addr' + clickSize > limit {
          return false, vsec', size', addr', done, [];
        }
        var n := if clickSize > cnt then cnt else clickSize;
        WholeChunks(clickSize, cnt);
        QuotientOfNext(|done| + n, chunk);
        RawStore(mem, addr', buf[..n]);
        OverwriteOn(m, addr, done, buf[..n]);
        SplitAt(done, buf, n);
        done := done + buf[..n];
        addr', size' := addr' + n, size' - n;
        buf, cnt := buf[n..], cnt - n;
      }
      ok, rest := true, buf;
    }
  
    /** Reads the `size` bytes at `vsec` to `addr` and zeroes the rest of the last click; what of the
        click is not used is left as a negative size. */
    method GetSegment(vsec: nat, size: Size, addr: nat, limit: nat)
      returns (ok: bool, vsec': nat, size': int, addr': nat, ghost written: seq<Byte>)
      requires IsClick(clickSize) && addr % clickSize == 0 && limit <= mem.Length
        && addr + Asked(size) + 2 * clickSize <= 0x1_0000_0000
      modifies mem
      ensures written != [] ==> addr + |written| <= limit
      ensures mem[..] == Overwrite(old(mem[..]), addr, written)
      ensures ok == SegmentFits(image, vsec, Asked(size), addr, limit, clickSize)
      ensures ok ==> addr' == addr + Ceil(Asked(size), clickSize) && addr' + size' == addr + size
      ensures ok ==> vsec' == vsec + SectorsFor(Asked(size))
      ensures ok ==> written == SegmentBytes(image, vsec, Asked(size), clickSize)
    {
      hide IsClick, Chunk, Overwrite, ImageBytes, CanRead, Ceil, Align, SectorsFor, SegmentBytes;
      ClickFacts(clickSize);
      ghost var rest, m, asked := [], mem[..], Asked(size);
      ok, vsec', size', addr', written, rest := CopyChunks(vsec, size, addr, limit);
      ghost var done := written;
      if !ok {
        SegmentRefused(image, vsec, asked, addr, limit, clickSize, |done|, vsec');
        return;
      }
      SegmentAccepted(asked, addr, limit, clickSize, |done|);
      SectorsRead(asked, |done|, Chunk(clickSize), vsec' - vsec);
      CeilOfChunks(asked, |done|, clickSize);
      CeilShifts(addr, |done|, clickSize);
      CeilBounds(addr', clickSize);
      AlignIsCeil(addr', clickSize);
      var n := Align(addr', clickSize) - addr';
      RoomToPad(addr, |done|, clickSize, limit);
      CeilOfZero(clickSize);
      RawClear(mem, addr', n);
      OverwriteOn(m, addr, done, Zeros(n));
      SegmentLoaded(image, vsec, asked, clickSize, done, rest);
      written := done + Zeros(n);
      addr', size' := addr' + n, size' - n;
    }
  
    /** Loads text and data, and says where they are; what is left of the data's last click comes back
        as a negative size. */
    method LoadSegments(e: Exec, vsec: nat, addr: nat, limit: nat)
      returns (ok: bool, p: Process, vsec': nat, addr': nat, aData: int, ghost written: seq<Byte>)
      requires IsClick(clickSize) && addr % clickSize == 0 && limit <= mem.Length && LongSizes(e)
      requires addr + TextSegment(e) + Data(e) + 3 * clickSize <= 0x1_0000_0000
      modifies mem
      ensures ok == SegmentsFit(image, e, vsec, addr, limit, clickSize)
      ensures written != [] ==> addr + |written| <= limit
      ensures mem[..] == Overwrite(old(mem[..]), addr, written)
      ensures ok ==> vsec' == vsec + ProcSize(e) && written == SegmentsBytes(image, e, vsec, addr, clickSize)
      ensures ok ==> addr' == DataStart(e, addr, clickSize) + Ceil(DataSegment(e), clickSize)
      ensures ok ==> addr' + aData == DataStart(e, addr, clickSize) + DataSegment(e)
      ensures ok ==> p == Placed(e, addr, clickSize, Room(0, 0)).(end := p.end)
    {
      hide IsClick, Overwrite, CanRead, Ceil, Align, SectorsFor, SegmentBytes, Text, Data, HdrLen, Entry, SegmentFits,
        Separate, PageAligned, UnmappedZeroPage;
      ClickFacts(clickSize);
      var aText: int;
      aText, aData := Text(e), Data(e);
      p := Process(Entry(e), addr, 0, 0, 0);
      if PageAligned(e) {
        aText := aText + HdrLen(e);
      }
      if UnmappedZeroPage(e) {
        p := p.(cs := p.cs - clickSize);
      }
      if Separate(e) {
        var ds;
        ok, vsec', addr', aData, ds, written := LoadTwo(vsec, aText, aData, addr, limit);
        p := p.(ds := if UnmappedZeroPage(e) then ds - clickSize else ds, data := ds);
      } else {
        p := p.(data := addr + aText, ds := p.cs);
        aData := aData + aText;
        ok, vsec', aData, addr', written := GetSegment(vsec, aData, addr, limit);
      }
    }

    /** Loads a text segment and the data segment that follows it. */
    method LoadTwo(vsec: nat, text: Size, data: Size, addr: nat, limit: nat)
      returns (ok: bool, vsec': nat, addr': nat, left: int, ds: nat, ghost written: seq<Byte>)
      requires IsClick(clickSize) && addr % clickSize == 0 && limit <= mem.Length && text >= 0 && data >= 0
      requires addr + text + data + 3 * clickSize <= 0x1_0000_0000
      modifies mem
      ensures var next, start := vsec + SectorsFor(text), ClickAfter(addr, text, clickSize);
        && ok == (SegmentFits(image, vsec, text, addr, limit, clickSize)
                  && SegmentFits(image, next, data, start, limit, clickSize))
        && (ok ==>
              && vsec' == next + SectorsFor(data) && ds == start
              && written == SegmentBytes(image, vsec, text, clickSize) + SegmentBytes(image, next, data, clickSize))
      ensures written != [] ==> addr + |written| <= limit
      ensures mem[..] == Overwrite(old(mem[..]), addr, written)
      ensures ok ==> addr' == ds + Ceil(data, clickSize) && addr' + left == ds + data
    {
      hide IsClick, Overwrite, CanRead, Ceil, Align, SectorsFor, SegmentBytes, SegmentFits;
      ClickFacts(clickSize);
      ghost var m := mem[..];
      CeilBounds(text, clickSize);
      SumOfMultiples(addr, Ceil(text, clickSize), clickSize);
      ds := addr;
      ok, vsec', left, addr', written := GetSegment(vsec, text, addr, limit);
      if !ok {
        return;
      }
      ds := addr';
      ghost var first := written;
      ok, vsec', left, addr', written := GetSegment(vsec', data, addr', limit);
      OverwriteOn(m, addr, first, written);
      written := first + written;
    }

    /** Loads the process whose sectors start at `vsec`: text and data, then cleared memory for what the
        rounding left of the bss, then room for what is left of the stack. */
    method LoadProcess(e: Exec, vsec: nat, addr: nat, limit: nat, room: Room)
      returns (ok: bool, p: Process, vsec': nat, addr': nat, ghost written: seq<Byte>)
      requires IsClick(clickSize) && addr % clickSize == 0 && limit <= mem.Length
      requires NoWrap(e, addr, clickSize, room)
      modifies mem
      ensures ok == ProcessFits(image, e, vsec, addr, limit, clickSize, room)
      ensures written != [] ==> addr + |written| <= limit
      ensures mem[..] == Overwrite(old(mem[..]), addr, written)
      ensures ok ==> p == Placed(e, addr, clickSize, room) && vsec' == vsec + ProcSize(e) && addr' == p.end
      ensures ok ==> written == ProcessBytes(image, e, vsec, addr, clickSize, room)
    {
      hide IsClick, Overwrite, Ceil, Align, SegmentsBytes, Text, Data, HdrLen, SegmentsFit, PageAligned, Entry,
        UnmappedZeroPage, DataStart, DataSegment, Separate;
      ClickFacts(clickSize);
      ghost var m := mem[..];
      var aData;
      ok, p, vsec', addr', aData, written := LoadSegments(e, vsec, addr, limit);
      if !ok {
        return;
      }
      ghost var start, size := DataStart(e, addr, clickSize), DataSegment(e);
      StartIsAligned(e, addr, clickSize);
      StartIsNear(e, addr, clickSize);
      var aBss, aStack: int := room.bss + aData, room.stack;
      var n := Align(aBss, clickSize);
      NextPiece(size, room.bss, aBss, clickSize);
      if addr' + n > limit {
        return false, p, vsec', addr', written;
      }
      RawClear(mem, addr', n);
      OverwriteOn(m, addr, written, Zeros(n));
      written := written + Zeros(n);
      addr', aBss := addr' + n, aBss - n;
      aStack := aStack + aBss;
      n := Align(aStack, clickSize);
      LastPiece(start, size + room.bss, room.stack, aStack, clickSize);
      addr' := (addr' + n) % 0x1_0000_0000;
      p := p.(end := addr');
    }
  }

  lemma EmptyWrite(m: seq<Byte>, at: nat)
    ensures Overwrite(m, at, []) == m
  {
  }

  lemma SplitAt(done: seq<Byte>, buf: seq<Byte>, n: nat)
    requires n <= |buf|
    ensures done + buf[..n] + buf[n..] == done + buf
  {
  }

  lemma MultipleBelow(a: int, b: int, n: int)
    requires n > 0 && a % n == 0 && b % n == 0 && a < b + n
    ensures a <= b
  {
    var x, y := a / n, b / n;
    assert a == n * x && b == n * y && a - b == n * (x - y);
    Multiple(n, x - y);
  }

  lemma MultipleOfMultiple(a: int, click: int, chunk: int)
    requires click > 0 && chunk > 0 && a % click == 0 && click % chunk == 0
    ensures a % chunk == 0
  {
    var x, y := a / click, click / chunk;
    assert a == click * x && click == chunk * y;
    assert a == chunk * (y * x);
    Quotient(chunk, y * x, 0, a);
  }

  /** Whole chunks up to `size` take the sectors of `size` bytes. */
  lemma SectorsRead(size: nat, done: nat, chunk: nat, sectors: nat)
    requires chunk > 0 && SECTOR_SIZE % chunk == 0 && done % chunk == 0 && size <= done < size + chunk
    requires SECTOR_SIZE * sectors - SECTOR_SIZE < done <= SECTOR_SIZE * sectors
    ensures sectors == SectorsFor(size)
  {
    var all := SECTOR_SIZE * sectors;
    MultipleOfMultiple(all, SECTOR_SIZE, chunk);
    MultipleOfMultiple(all - SECTOR_SIZE, SECTOR_SIZE, chunk);
    SumOfMultiples(all - SECTOR_SIZE, chunk, chunk);
    MultipleBelow(all - SECTOR_SIZE + chunk, done, chunk);
  }

  lemma CeilOfChunks(size: nat, done: nat, click: nat)
    requires IsClick(click) && done % Chunk(click) == 0 && size <= done < size + Chunk(click)
    ensures Ceil(done, click) == Ceil(size, click) >= done
  {
    hide IsClick, Chunk, Ceil;
    ClickFacts(click);
    CeilBounds(size, click);
    var c := Ceil(size, click);
    MultipleOfMultiple(c, click, Chunk(click));
    MultipleBelow(done, c, Chunk(click));
    CeilIs(done, click, c);
  }

  /** If a click fitted where the last chunk went, the click it lies in ends below the limit. */
  lemma RoomToPad(addr: nat, done: nat, click: nat, limit: nat)
    requires IsClick(click) && done % Chunk(click) == 0
    requires done > 0 ==> addr + done - Chunk(click) + click <= limit
    ensures done > 0 ==> addr + Ceil(done, click) <= limit
  {
    hide IsClick, Chunk, Ceil;
    ClickFacts(click);
    CeilBounds(done, click);
    var c, chunk := Ceil(done, click), Chunk(click);
    MultipleOfMultiple(c, click, chunk);
    SumOfMultiples(c, click, chunk);
    SumOfMultiples(c - click, chunk, chunk);
    QuotientOfSelf(chunk);
    MultipleBelow(c - click + chunk, done, chunk);
  }

  lemma QuotientOfSelf(n: nat)
    requires n > 0
    ensures n % n == 0
  {
  }

  lemma SegmentLoaded(image: Sectors, vsec: nat, size: nat, click: nat, done: seq<Byte>, rest: seq<Byte>)
    requires IsClick(click) && CanRead(image, vsec, SectorsFor(size)) && size <= |done| < size + Chunk(click)
    requires |done| % Chunk(click) == 0
    requires done + rest == ImageBytes(image, vsec, SectorsFor(size)) && |rest| < SECTOR_SIZE
    ensures |done| <= Ceil(size, click) && done + Zeros(Ceil(size, click) - |done|)
      == SegmentBytes(image, vsec, size, click)
  {
    hide IsClick, Ceil, SectorsFor, CanRead, ImageBytes;
    ClickFacts(click);
    CeilOfChunks(size, |done|, click);
    var b, c := ImageBytes(image, vsec, SectorsFor(size)), Ceil(size, click);
    if click > SECTOR_SIZE {
      assert rest == [];
      assert done + rest == done;
    } else {
      CeilIs(|done|, click, |done|);
      assert done == b[..c] && done + Zeros(0) == done;
    }
  }

  // ----- loading a process -----

  /** Where a process ends up: entry point, code and data segments, its data and its end. A segment
      begins one click early when its zero page is not mapped. */
  datatype Process = Process(entry: nat, cs: int, ds: int, data: nat, end: nat)

  /** The memory a process needs past its data. */
  datatype Room = Room(bss: nat, stack: int)

  /** The sizes of the segments are not negative as signed numbers. */
  predicate LongSizes(e: Exec) {
    if Separate(e) then TextSegment(e) < 0x8000_0000 && Data(e) < 0x8000_0000
    else TextSegment(e) + Data(e) < 0x8000_0000
  }

  /** A negative stack takes back no more than data and bss. */
  predicate Bounded(e: Exec, room: Room) {
    DataSegment(e) + room.bss + room.stack >= 0
  }

  /** No size is negative, and no address, rounded up, beyond 32 bits. */
  predicate NoWrap(e: Exec, addr: nat, click: nat, room: Room) {
    && LongSizes(e) && Bounded(e, room)
    && addr + TextSegment(e) + Data(e) + room.bss + Asked(room.stack) + 3 * click <= 0x1_0000_0000
  }

  /** The segment with the data, which for a common one begins with the text. */
  function DataStart(e: Exec, addr: nat, click: nat): nat
    requires click > 0
  {
    if Separate(e) then ClickAfter(addr, TextSegment(e), click) else addr
  }

  function DataSegment(e: Exec): nat {
    if Separate(e) then Data(e) else TextSegment(e) + Data(e)
  }

  /** The process ends at the click that its segments, bss and stack, laid end to end, reach. */
  function Placed(e: Exec, addr: nat, click: nat, room: Room): Process
    requires click > 0 && Bounded(e, room)
  {
    var start := DataStart(e, addr, click);
    var zeroPage := if UnmappedZeroPage(e) then click else 0;
    CeilBounds(start + DataSegment(e) + room.bss + room.stack, click);
    Process(Entry(e), addr - zeroPage, start - zeroPage,
            if Separate(e) then start else start + TextSegment(e),
            Ceil(start + DataSegment(e) + room.bss + room.stack, click))
  }

  function SegmentsBytes(image: Sectors, e: Exec, vsec: nat, addr: nat, click: nat): (r: seq<Byte>)
    requires click > 0 && SegmentsReadable(image, e, vsec)
    ensures addr + |r| == DataStart(e, addr, click) + Ceil(DataSegment(e), click)
  {
    if Separate(e) then
      SegmentBytes(image, vsec, TextSegment(e), click)
      + SegmentBytes(image, vsec + SectorsFor(TextSegment(e)), Data(e), click)
    else SegmentBytes(image, vsec, TextSegment(e) + Data(e), click)
  }

  predicate SegmentsReadable(image: Sectors, e: Exec, vsec: nat) {
    if Separate(e) then
      && CanRead(image, vsec, SectorsFor(TextSegment(e)))
      && CanRead(image, vsec + SectorsFor(TextSegment(e)), SectorsFor(Data(e)))
    else CanRead(image, vsec, SectorsFor(TextSegment(e) + Data(e)))
  }

  predicate SegmentsFit(image: Sectors, e: Exec, vsec: nat, addr: nat, limit: nat, click: nat)
    requires click > 0
    ensures SegmentsFit(image, e, vsec, addr, limit, click) ==> SegmentsReadable(image, e, vsec)
  {
    if Separate(e) then
      && SegmentFits(image, vsec, TextSegment(e), addr, limit, click)
      && SegmentFits(image, vsec + SectorsFor(TextSegment(e)), Data(e), DataStart(e, addr, click), limit, click)
    else SegmentFits(image, vsec, TextSegment(e) + Data(e), addr, limit, click)
  }

  /** All memory a process gets that is written: segments and bss, to a whole click. */
  function ProcessBytes(image: Sectors, e: Exec, vsec: nat, addr: nat, click: nat, room: Room): (r: seq<Byte>)
    requires click > 0 && SegmentsReadable(image, e, vsec)
  {
    SegmentsBytes(image, e, vsec, addr, click) + Zeros(BssClicks(e, click, room))
  }

  /** What clicks of the bss the data segment's last one does not cover. */
  function BssClicks(e: Exec, click: nat, room: Room): nat
    requires click > 0
  {
    CeilGrows(DataSegment(e), room.bss, click);
    Ceil(DataSegment(e) + room.bss, click) - Ceil(DataSegment(e), click)
  }

  lemma CeilGrows(a: int, b: nat, n: nat)
    requires n > 0
    ensures Ceil(a, n) <= Ceil(a + b, n)
  {
    CeilBounds(a, n);
    CeilBounds(a + b, n);
    MultipleBelow(Ceil(a, n), Ceil(a + b, n), n);
  }

  lemma StartIsNear(e: Exec, addr: nat, click: nat)
    requires click > 0
    ensures DataStart(e, addr, click) + DataSegment(e) <= addr + TextSegment(e) + Data(e) + click
  {
    hide Ceil, TextSegment, Data, Separate;
    CeilBounds(TextSegment(e), click);
  }

  lemma StartIsAligned(e: Exec, addr: nat, click: nat)
    requires click > 0 && addr % click == 0
    ensures DataStart(e, addr, click) % click == 0
  {
    CeilBounds(TextSegment(e), click);
    SumOfMultiples(addr, Ceil(TextSegment(e), click), click);
  }

  /** After `a` bytes rounded up, `b` more, less what the rounding gave, take the clicks that are missing
      for `a + b`. */
  lemma NextPiece(a: nat, b: nat, left: int, click: nat)
    requires 0 < click <= 0x1_0000 && a + b + click <= 0x1_0000_0000 && left == b + a - Ceil(a, click)
    ensures 0 <= Align(left, click) == Ceil(a + b, click) - Ceil(a, click)
  {
    hide Ceil, Align;
    CeilBounds(a, click);
    AlignIsCeil(left, click);
    CeilShifts(Ceil(a, click), left, click);
  }

  /** After `a` bytes rounded up, what is to be added, in 32 bits, for `b` more, or for giving `-b` back. */
  lemma LastPiece(start: nat, a: nat, b: int, left: int, click: nat)
    requires IsClick(click) && start % click == 0 && a + b >= 0 && left == b + a - Ceil(a, click)
    requires start + a + Asked(b) + 2 * click <= 0x1_0000_0000
    ensures (start + Ceil(a, click) + Align(left, click)) % 0x1_0000_0000 == Ceil(start + a + b, click)
    ensures Align(left, click) >= 0
  {
    hide Ceil, Align, IsClick;
    ClickFacts(click);
    PieceSum(start, a, b, click);
    CeilBounds(a, click);
    CeilBounds(left, click);
    var end := Ceil(start + a + b, click);
    if left + click > 0 {
      AlignIsCeil(left, click);
      Quotient(0x1_0000_0000, 0, end, end);
    } else {
      AlignWraps(left, click);
      Quotient(0x1_0000_0000, 1, end, end + 0x1_0000_0000);
    }
  }

  lemma PieceSum(start: nat, a: nat, b: int, click: nat)
    requires click > 0 && start % click == 0 && a + b >= 0
    ensures start + Ceil(a, click) + Ceil(b + a - Ceil(a, click), click) == Ceil(start + a + b, click)
    ensures 0 <= Ceil(start + a + b, click) < start + a + b + click
  {
    hide Ceil;
    CeilBounds(a, click);
    CeilBounds(start + a + b, click);
    CeilShifts(start, a + b, click);
    CeilShifts(Ceil(a, click), b + a - Ceil(a, click), click);
  }

  predicate ProcessFits(image: Sectors, e: Exec, vsec: nat, addr: nat, limit: nat, click: nat, room: Room)
    requires click > 0
  {
    && SegmentsFit(image, e, vsec, addr, limit, click)
    && DataStart(e, addr, click) + Ceil(DataSegment(e) + room.bss, click) <= limit
  }

  /** There is room for each segment when it is loaded, and for the clicks of the bss. */
  predicate ProcessRoom(e: Exec, addr: nat, limit: nat, click: nat, room: Room)
    requires click > 0
  {
    && (if Separate(e) then
          && SegmentRoom(TextSegment(e), addr, limit, click)
          && SegmentRoom(Data(e), DataStart(e, addr, click), limit, click)
        else SegmentRoom(TextSegment(e) + Data(e), addr, limit, click))
    && DataStart(e, addr, click) + Ceil(DataSegment(e) + room.bss, click) <= limit
  }

  lemma FitsWithRoom(image: Sectors, e: Exec, vsec: nat, addr: nat, limit: nat, click: nat, room: Room)
    requires click > 0
    ensures ProcessFits(image, e, vsec, addr, limit, click, room)
       <==> SegmentsReadable(image, e, vsec) && ProcessRoom(e, addr, limit, click, room)
  {
    hide SegmentRoom, CanRead, Ceil, DataStart, DataSegment, Separate, TextSegment, Data, SectorsFor;
  }
}
