/** The boot loader's track buffer between the sectors of an image and those of the disk. */
module TrackBuffer {
  import opened Arithmetic
  import opened BootLoad
  import opened ImageFormat
  import RawFs

  const SECBUFS := 16
  const NO_SECTOR := 0xFFFF_FFFF
  const ZERO_SECTOR: Sector := Zeros(SECTOR_SIZE)

  /** Where a sector of the image is on disk: nowhere (past the end, or an error), in a hole, or at a
      32-bit sector number. */
  datatype Where = Nowhere | Hole | OnDisk(sec: nat)

  /** The disk's readable sectors. */
  type Disk = nat -> Option<Sector>

  // ----- finding sectors of a file -----

  /** Sectors in a block. */
  function Ratio(blockSize: nat): nat {
    blockSize / SECTOR_SIZE
  }

  /** A sector's place once the block that holds it is known. */
  function InBlock(blk: int, ratio: nat, lowsec: nat, vsec: nat): Where
    requires ratio > 0 && blk >= -1
  {
    QuotientIsNat(vsec, ratio);
    if blk == -1 then Nowhere
    else if blk == 0 then Hole
    else
      ProductIsNat(blk, ratio);
      OnDisk(lowsec + blk * ratio + vsec % ratio)
  }

  function BlockNumber(vsec: nat, ratio: nat): nat
    requires ratio > 0
  {
    QuotientIsNat(vsec, ratio);
    vsec / ratio
  }

  ghost function FileSector(g: RawFs.Geometry, disk: RawFs.Disk, f: RawFs.Inode, lowsec: nat, vsec: nat): Where
    requires RawFs.WellFormed(g, disk, f) && Ratio(g.blockSize) > 0
  {
    var ratio := Ratio(g.blockSize);
    InBlock(RawFs.BlockOf(g, disk, f, BlockNumber(vsec, ratio)), ratio, lowsec, vsec)
  }

  method FileVir2Sec(reader: RawFs.Reader, lowsec: nat, vsec: nat) returns (w: Where)
    requires reader.Valid() && Ratio(reader.g.blockSize) > 0
    modifies reader
    ensures reader.Valid() && reader.curfil == old(reader.curfil)
    ensures w == FileSector(reader.g, reader.disk, reader.curfil, lowsec, vsec)
  {
    hide RawFs.BlockOf, BlockNumber;
    var ratio := Ratio(reader.g.blockSize);
    var blk := reader.Vir2Abs(BlockNumber(vsec, ratio));
    w := InBlock(blk, ratio, lowsec, vsec);
  }

  /** Byte `k` of sector `vsec` of a file is in the block, and at the place in it, that FileSector picks. */
  lemma SectorInBlock(ratio: nat, vsec: nat, k: nat)
    requires ratio > 0 && k < SECTOR_SIZE
    ensures (SECTOR_SIZE * vsec + k) / (SECTOR_SIZE * ratio) == BlockNumber(vsec, ratio)
    ensures (SECTOR_SIZE * vsec + k) % (SECTOR_SIZE * ratio) == SECTOR_SIZE * (vsec % ratio) + k
  {
    var q, r := vsec / ratio, vsec % ratio;
    assert vsec == ratio * q + r;
    var n := SECTOR_SIZE * ratio;
    assert SECTOR_SIZE * vsec + k == q * n + (SECTOR_SIZE * r + k);
    Quotient(n, q, SECTOR_SIZE * r + k, SECTOR_SIZE * vsec + k);
  }

  // ----- the buffer -----

  function After(disk: Disk, sec: nat, k: nat): Option<Sector> {
    disk(sec + k)
  }

  /** Sector `k` after `vsec` of the image is also `k` after `sec` on disk. */
  predicate Follows(vir2sec: nat -> Where, vsec: nat, sec: nat, k: nat) {
    vir2sec(vsec + k) == OnDisk(sec + k)
  }

  predicate BoundaryAt(boundary: nat -> bool, sec: nat, k: nat) {
    boundary(sec + k)
  }

  class TrackBuffer {
    const vir2sec: nat -> Where
    const disk: Disk
    const boundary: nat -> bool
    const buf: array<Sector>
    var count: nat
    var bufsec: nat

    /** The buffer mirrors `count` consecutive sectors of the disk. */
    predicate Valid()
      reads this, buf
    {
      && buf.Length == SECBUFS && count <= SECBUFS && bufsec + count <= NO_SECTOR
      && forall k :: 0 <= k < count ==> After(disk, bufsec, k) == Some(buf[k])
    }

    constructor (vir2sec: nat -> Where, disk: Disk, boundary: nat -> bool)
      ensures Valid() && this.vir2sec == vir2sec && this.disk == disk && this.boundary == boundary
    {
      this.vir2sec, this.disk, this.boundary := vir2sec, disk, boundary;
      buf := new Sector[SECBUFS](_ => ZERO_SECTOR);
      count, bufsec := 0, 0;
    }

    /** Reads `n` sectors from `first` on, up to the first that cannot be read. */
    method ReadSectors(first: nat, n: nat) returns (ok: bool)
      requires n <= buf.Length
      modifies buf
      ensures ok == forall k :: 0 <= k < n ==> After(disk, first, k).Some?
      ensures ok ==> forall k :: 0 <= k < n ==> After(disk, first, k) == Some(buf[k])
    {
      var i := 0;
      while i < n
        invariant i <= n
        invariant forall k :: 0 <= k < i ==> After(disk, first, k) == Some(buf[k])
      {
        match After(disk, first, i)
        case None => return false;
        case Some(s) => buf[i] := s;
        i := i + 1;
      }
      ok := true;
    }

    /** Sector `vsec` of the image: zeros for a hole, the disk's bytes otherwise. It fails only if the
        sector is nowhere, or it or one read along with it cannot be read. */
    method GetSector(vsec: nat) returns (r: Option<Sector>)
      requires Valid() && forall v :: vir2sec(v).OnDisk? ==> 0 < vir2sec(v).sec < NO_SECTOR
      modifies this, buf
      ensures Valid()
      ensures vir2sec(vsec).Nowhere? ==> r.None?
      ensures vir2sec(vsec).Hole? ==> r == Some(ZERO_SECTOR)
      ensures vir2sec(vsec).OnDisk? && r.Some? ==> r == disk(vir2sec(vsec).sec)
      ensures vir2sec(vsec).OnDisk? && r.None? ==>
        exists k :: 0 <= k < SECBUFS && After(disk, vir2sec(vsec).sec, k).None?
          && Follows(vir2sec, vsec, vir2sec(vsec).sec, k)
      ensures r.Some? ==> exists k :: 0 <= k < SECBUFS && r.value == buf[k]
    {
      if vsec == 0 {
        count := 0;
      }
      match vir2sec(vsec)
      case Nowhere =>
        return None;
      case Hole =>
        count := 0;
        buf[0] := ZERO_SECTOR;
        return Some(buf[0]);
      case OnDisk(sec) =>
        // 32-bit subtraction: a sector before the buffer is far after it
        var at := (sec - bufsec) % 0x1_0000_0000;
        if at < count {
          return Some(buf[at]);
        }
        bufsec := sec;
        count := Track(vsec, sec);
        var ok := ReadSectors(bufsec, count);
        if !ok {
          count := 0;
          return None;
        }
        return Some(buf[0]);
    }

    /** How many sectors to read at once: those that follow `sec` on disk as they do in the image, up to a
        boundary of the device. */
    method Track(vsec: nat, sec: nat) returns (n: nat)
      requires forall v :: vir2sec(v).OnDisk? ==> 0 < vir2sec(v).sec < NO_SECTOR
      requires vir2sec(vsec) == OnDisk(sec)
      ensures 1 <= n <= SECBUFS && sec + n <= NO_SECTOR
      ensures forall k :: 0 <= k < n ==> Follows(vir2sec, vsec, sec, k)
      ensures forall k :: 0 < k < n ==> !BoundaryAt(boundary, sec, k)
      ensures n == SECBUFS || BoundaryAt(boundary, sec, n) || !Follows(vir2sec, vsec, sec, n)
    {
      n := 1;
      while n < SECBUFS && !BoundaryAt(boundary, sec, n)
        invariant 1 <= n <= SECBUFS && sec + n <= NO_SECTOR
        invariant forall k :: 0 <= k < n ==> Follows(vir2sec, vsec, sec, k)
        invariant forall k :: 0 < k < n ==> !BoundaryAt(boundary, sec, k)
      {
        if !Follows(vir2sec, vsec, sec, n) {
          return;
        }
        n := n + 1;
      }
    }
  }

  /** A whole image, wherever the buffer finds it, is what the loader's Sectors are: over any calls on
      a readable disk the buffer hands out the same sector for the same number. */
  ghost function Served(vir2sec: nat -> Where, disk: Disk, vsec: nat): Option<Sector> {
    match vir2sec(vsec)
    case Nowhere => None
    case Hole => Some(ZERO_SECTOR)
    case OnDisk(sec) => disk(sec)
  }

  /** Any sequence of requests on a readable disk. */
  method GetSectors(b: TrackBuffer, vsecs: seq<nat>) returns (r: seq<Option<Sector>>)
    requires b.Valid() && forall v :: b.vir2sec(v).OnDisk? ==> 0 < b.vir2sec(v).sec < NO_SECTOR
    requires forall v :: b.vir2sec(v).OnDisk? ==> b.disk(b.vir2sec(v).sec).Some?
    modifies b, b.buf
    ensures b.Valid() && |r| == |vsecs|
    ensures forall i :: 0 <= i < |vsecs| ==> r[i] == Served(b.vir2sec, b.disk, vsecs[i])
  {
    r := [];
    for i := 0 to |vsecs|
      invariant b.Valid() && |r| == i
      invariant forall j :: 0 <= j < i ==> r[j] == Served(b.vir2sec, b.disk, vsecs[j])
    {
      var s := b.GetSector(vsecs[i]);
      r := r + [s];
    }
  }
}
