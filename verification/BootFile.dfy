/** An image that is a file of a raw file system, as the loader sees it through the track buffer. */
module BootFile {
  import opened Arithmetic
  import opened BootLoad
  import opened BootInstalled
  import opened ImageFormat
  import Buffer = TrackBuffer
  import RawFs

  /** The file system: its geometry, the zone lists in its blocks, and the disk it begins on at `lowsec`. */
  datatype Volume = Volume(g: RawFs.Geometry, lists: RawFs.Disk, sectors: Buffer.Disk, lowsec: nat)
  {
    ghost predicate Holds(f: RawFs.Inode) {
      RawFs.WellFormed(g, lists, f) && Ratio() > 0 && g.blockSize == SECTOR_SIZE * Ratio()
    }

    function Ratio(): nat {
      Buffer.Ratio(g.blockSize)
    }

    /** Sector `r` of a block of the disk; block 0 stands for a hole. */
    function SectorOf(blk: nat, r: nat): Option<Sector> {
      if blk == 0 then Some(Buffer.ZERO_SECTOR)
      else
        ProductIsNat(blk, Ratio());
        sectors(lowsec + blk * Ratio() + r)
    }

    function ByteOf(blk: nat, j: nat): Option<Byte> {
      QuotientIsNat(j, SECTOR_SIZE);
      match SectorOf(blk, j / SECTOR_SIZE)
      case None => None
      case Some(s) => Some(s[j % SECTOR_SIZE])
    }

    /** Byte `n` of a file, by its block. */
    ghost function ByteAt(f: RawFs.Inode, n: nat): Option<Byte>
      requires Holds(f)
    {
      QuotientIsNat(n, g.blockSize);
      var blk := RawFs.BlockOf(g, lists, f, n / g.blockSize);
      if blk < 0 then None else ByteOf(blk, n % g.blockSize)
    }

    /** The file can be read, and `bytes` is what it holds. */
    ghost predicate Reads(f: RawFs.Inode, bytes: seq<Byte>)
      requires Holds(f)
    {
      |bytes| == f.size && forall n :: 0 <= n < |bytes| ==> ByteAt(f, n) == Some(bytes[n])
    }

    /** Where the file's sectors are. */
    ghost function Places(f: RawFs.Inode): nat -> Buffer.Where
      requires Holds(f)
    {
      (v: nat) => Buffer.FileSector(g, lists, f, lowsec, v)
    }

    /** What the track buffer hands out for the file's sectors. */
    ghost function Served(f: RawFs.Inode, vsec: nat): Option<Sector>
      requires Holds(f)
    {
      Buffer.Served(Places(f), sectors, vsec)
    }

    function Blocks(f: RawFs.Inode): nat
      requires g.blockSize > 0
    {
      QuotientIsNat(f.size + g.blockSize - 1, g.blockSize);
      (f.size + g.blockSize - 1) / g.blockSize
    }

    /** The file's blocks, the last one whole, as the loader's sectors. */
    ghost function ImageOf(f: RawFs.Inode): (r: Sectors)
      requires Holds(f)
    {
      ProductIsNat(Blocks(f), Ratio());
      seq(Blocks(f) * Ratio(), v requires 0 <= v < Blocks(f) * Ratio() => Served(f, v))
    }

    lemma BlocksCover(f: RawFs.Inode)
      requires Holds(f)
      ensures f.size <= Blocks(f) * g.blockSize < f.size + g.blockSize
      ensures Blocks(f) * g.blockSize == SECTOR_SIZE * (Blocks(f) * Ratio())
    {
      hide RawFs.WellFormed, Buffer.Ratio;
      CeilBounds(f.size, g.blockSize);
      assert Blocks(f) * (SECTOR_SIZE * Ratio()) == SECTOR_SIZE * (Blocks(f) * Ratio());
    }

    /** Behind the last block there is nothing. */
    lemma NothingServed(f: RawFs.Inode, v: nat)
      requires Holds(f) && v >= Blocks(f) * Ratio()
      ensures Served(f, v).None?
    {
      hide RawFs.BlockOf, RawFs.WellFormed, Buffer.Ratio, Buffer.FileSector, Blocks;
      var b, n, ratio := Buffer.BlockNumber(v, Ratio()), Blocks(f), Ratio();
      assert v == ratio * b + v % ratio;
      if b < n {
        assert n * ratio == b * ratio + (n - b) * ratio;
        Multiple(ratio, n - b);
      }
      BlocksCover(f);
      assert b * g.blockSize == n * g.blockSize + (b - n) * g.blockSize;
      ProductIsNat(b - n, g.blockSize);
      NotPastEnd(f, b);
      ServedFrom(f, v);
    }

    lemma BlockOfSector(f: RawFs.Inode, v: nat, k: nat)
      requires Holds(f) && k < SECTOR_SIZE
      ensures var n := SECTOR_SIZE * v + k;
        && n / g.blockSize == Buffer.BlockNumber(v, Ratio())
        && n % g.blockSize == SECTOR_SIZE * (v % Ratio()) + k
        && Buffer.BlockNumber(v, Ratio()) * g.blockSize <= SECTOR_SIZE * v
    {
      Buffer.SectorInBlock(Ratio(), v, k);
      QuotientIsNat(v, Ratio());
      var q := v / Ratio();
      assert v == Ratio() * q + v % Ratio();
      assert q * (SECTOR_SIZE * Ratio()) == SECTOR_SIZE * (Ratio() * q);
    }

    lemma InSector(r: nat, k: nat)
      requires k < SECTOR_SIZE
      ensures (SECTOR_SIZE * r + k) / SECTOR_SIZE == r && (SECTOR_SIZE * r + k) % SECTOR_SIZE == k
    {
    }

    /** A sector that lies in the file is served with the file's bytes. */
    lemma SectorServed(f: RawFs.Inode, bytes: seq<Byte>, v: nat)
      requires Holds(f) && Reads(f, bytes) && v < |bytes| / SECTOR_SIZE
      ensures Served(f, v) == Some(SectorAt(bytes, v))
    {
      hide RawFs.BlockOf, Buffer.BlockNumber, RawFs.WellFormed, Buffer.Ratio;
      var b := Buffer.BlockNumber(v, Ratio());
      BlockOfSector(f, v, 0);
      NotPastEnd(f, b);
      var blk := RawFs.BlockOf(g, lists, f, b);
      forall k | 0 <= k < SECTOR_SIZE
        ensures blk >= 0 && ByteOf(blk, SECTOR_SIZE * (v % Ratio()) + k) == Some(SectorAt(bytes, v)[k])
      {
        BlockOfSector(f, v, k);
        assert ByteAt(f, SECTOR_SIZE * v + k) == Some(bytes[SECTOR_SIZE * v + k]);
      }
      AllBytes(blk, v % Ratio(), SectorAt(bytes, v));
      ServedFrom(f, v);
    }

    lemma NotPastEnd(f: RawFs.Inode, b: nat)
      requires Holds(f)
      ensures RawFs.BlockOf(g, lists, f, b) == -1 <==> b * g.blockSize >= f.size
    {
      RawFs.AnswersExactly(g, lists, f, b);
    }

    /** A sector is known once all its bytes are. */
    lemma AllBytes(blk: nat, r: nat, s: Sector)
      requires forall k :: 0 <= k < SECTOR_SIZE ==> ByteOf(blk, SECTOR_SIZE * r + k) == Some(s[k])
      ensures SectorOf(blk, r) == Some(s)
    {
      hide SectorOf;
      InSector(r, 0);
      assert ByteOf(blk, SECTOR_SIZE * r + 0) == Some(s[0]);
      var t := SectorOf(blk, r).value;
      forall k | 0 <= k < SECTOR_SIZE ensures t[k] == s[k] {
        InSector(r, k);
        assert ByteOf(blk, SECTOR_SIZE * r + k) == Some(s[k]);
      }
      assert t == s;
    }

    /** What is served is the sector of the block that the file's block is. */
    lemma ServedFrom(f: RawFs.Inode, v: nat)
      requires Holds(f)
      ensures var blk := RawFs.BlockOf(g, lists, f, Buffer.BlockNumber(v, Ratio()));
        Served(f, v) == if blk == -1 then None else (QuotientIsNat(v, Ratio()); SectorOf(blk, v % Ratio()))
    {
      hide RawFs.BlockOf, Buffer.BlockNumber, RawFs.WellFormed, Buffer.Ratio;
    }

    lemma ImageServed(f: RawFs.Inode, v: nat)
      requires Holds(f)
      ensures BootLoad.GetSector(ImageOf(f), v) == Served(f, v)
    {
      hide RawFs.BlockOf, Buffer.BlockNumber, RawFs.WellFormed, Buffer.Ratio, Served;
      if v >= |ImageOf(f)| {
        NothingServed(f, v);
      }
    }

    /** The loader's sectors of an image file begin with the file's own; what follows is the rest of its last
        block. */
    lemma ImageIsFile(f: RawFs.Inode, bytes: seq<Byte>)
      requires Holds(f) && Reads(f, bytes)
      ensures Shows(ImageOf(f), bytes)
      ensures SECTOR_SIZE * |ImageOf(f)| < |bytes| + g.blockSize
    {
      hide RawFs.BlockOf, Buffer.BlockNumber, RawFs.WellFormed, Buffer.Ratio, Served, ByteAt, SectorAt;
      var image := ImageOf(f);
      BlocksCover(f);
      forall v | 0 <= v < |bytes| / SECTOR_SIZE ensures v < |image| && image[v] == Some(SectorAt(bytes, v)) {
        SectorServed(f, bytes, v);
      }
    }
  }

  /** On a readable disk the track buffer hands out the loader's sectors of an image file, in any order. */
  method GetImageSectors(b: Buffer.TrackBuffer, ghost volume: Volume, ghost f: RawFs.Inode, vsecs: seq<nat>)
    returns (r: seq<Option<Sector>>)
    requires volume.Holds(f) && b.Valid() && b.disk == volume.sectors
    requires forall v :: b.vir2sec(v) == volume.Places(f)(v)
    requires forall v :: b.vir2sec(v).OnDisk? ==>
      0 < b.vir2sec(v).sec < Buffer.NO_SECTOR && b.disk(b.vir2sec(v).sec).Some?
    modifies b, b.buf
    ensures b.Valid() && |r| == |vsecs|
    ensures forall i :: 0 <= i < |vsecs| ==> r[i] == BootLoad.GetSector(volume.ImageOf(f), vsecs[i])
  {
    hide RawFs.BlockOf, RawFs.WellFormed, Buffer.Ratio, Buffer.FileSector;
    r := Buffer.GetSectors(b, vsecs);
    forall i | 0 <= i < |vsecs| ensures r[i] == BootLoad.GetSector(volume.ImageOf(f), vsecs[i]) {
      volume.ImageServed(f, vsecs[i]);
    }
  }
}
