/** Reading a file's blocks off a raw MINIX file system, with the last indirect blocks kept. */
module RawFs {
  import opened Arithmetic

  /** What the superblock fixes: direct zones per inode, zone numbers per indirect block, blocks per
      zone and bytes per block. */
  datatype Geometry = Geometry(directs: nat, indirects: nat, perZone: nat, blockSize: nat)
  {
    predicate Valid() {
      indirects > 0 && perZone > 0 && blockSize > 0
    }
  }

  /** The direct zones, then the single and the double indirect one. */
  datatype Inode = Inode(size: nat, zones: seq<nat>)

  /** The zone numbers in each block of the disk. */
  type Disk = nat -> seq<nat>

  ghost predicate WellFormed(g: Geometry, disk: Disk, f: Inode) {
    && g.Valid() && |f.zones| >= g.directs + 2
    && (forall b :: |disk(b)| == g.indirects)
    && Mapped(g, f)
  }

  /** No file is larger than its double indirect block can map. */
  predicate Mapped(g: Geometry, f: Inode) {
    f.size <= (g.directs + g.indirects + g.indirects * g.indirects) * g.perZone * g.blockSize
  }

  // ----- the file as one table of zones -----

  /** A pointer with no block behind it. */
  datatype ZoneEntry = Missing | Zone(number: nat)

  function Entries(zones: seq<nat>): (r: seq<ZoneEntry>)
    ensures |r| == |zones|
  {
    seq(|zones|, i requires 0 <= i < |zones| => Zone(zones[i]))
  }

  function Gap(n: nat): (r: seq<ZoneEntry>)
    ensures |r| == n
  {
    seq(n, _ => Missing)
  }

  /** The zones an indirect zone lists. */
  ghost function Listed(g: Geometry, disk: Disk, zone: nat): (r: seq<ZoneEntry>)
    requires |disk(zone * g.perZone)| == g.indirects
    ensures |r| == g.indirects
  {
    if zone == 0 then Gap(g.indirects) else Entries(disk(zone * g.perZone))
  }

  ghost function ListedAll(g: Geometry, disk: Disk, zones: seq<nat>): (r: seq<ZoneEntry>)
    requires forall b :: |disk(b)| == g.indirects
    ensures |r| == |zones| * g.indirects
  {
    if zones == [] then []
    else Listed(g, disk, zones[0]) + ListedAll(g, disk, zones[1..])
  }

  /** All zones of the file in order: the direct ones, those of the indirect block, and those of
      each indirect block of the double indirect block. */
  ghost function ZoneTable(g: Geometry, disk: Disk, f: Inode): (r: seq<ZoneEntry>)
    requires WellFormed(g, disk, f)
    ensures |r| == g.directs + g.indirects + g.indirects * g.indirects
  {
    Entries(f.zones[..g.directs])
    + Listed(g, disk, f.zones[g.directs])
    + if f.zones[g.directs + 1] == 0 then Gap(g.indirects * g.indirects)
      else ListedAll(g, disk, disk(f.zones[g.directs + 1] * g.perZone))
  }

  /** The disk block that holds block `b` of the file. */
  ghost function BlockOf(g: Geometry, disk: Disk, f: Inode, b: nat): (r: int)
    requires WellFormed(g, disk, f)
    ensures r >= -1
  {
    if b * g.blockSize >= f.size then -1
    else
      match EntryOf(g, disk, f, b)
      case Missing => 0
      case Zone(z) =>
        ProductIsNat(z, g.perZone);
        z * g.perZone + b % g.perZone
  }

  /** The table entry for the zone that block `b` lies in. */
  ghost function EntryOf(g: Geometry, disk: Disk, f: Inode, b: nat): ZoneEntry
    requires WellFormed(g, disk, f) && b * g.blockSize < f.size
  {
    InTable(g, disk, f, b);
    ZoneTable(g, disk, f)[b / g.perZone]
  }

  lemma InTable(g: Geometry, disk: Disk, f: Inode, b: nat)
    requires WellFormed(g, disk, f) && b * g.blockSize < f.size
    ensures b / g.perZone < |ZoneTable(g, disk, f)|
  {
    var n := g.directs + g.indirects + g.indirects * g.indirects;
    assert b * g.blockSize < n * g.perZone * g.blockSize;
    Cancel(b, n * g.perZone, g.blockSize);
    QuotientBound(b, n, g.perZone);
  }

  lemma {:induction false} ListedAllAt(g: Geometry, disk: Disk, zones: seq<nat>, k: nat)
    requires (forall b :: |disk(b)| == g.indirects) && g.indirects > 0 && k < |zones| * g.indirects
    ensures k / g.indirects < |zones|
    ensures ListedAll(g, disk, zones)[k] == Listed(g, disk, zones[k / g.indirects])[k % g.indirects]
    decreases |zones|
  {
    var n := g.indirects;
    QuotientBound(k, |zones|, n);
    if k >= n {
      QuotientOfNext(k, n);
      assert |zones[1..]| * n == |zones| * n - n;
      ListedAllAt(g, disk, zones[1..], k - n);
    } else {
      QuotientOfSmall(k, n);
    }
  }

  // ----- the reader -----

  class Reader {
    const g: Geometry
    const disk: Disk
    var curfil: Inode
    var indir: seq<nat>
    var dindir: seq<nat>
    var aIndir: nat
    var aDindir: nat

    /** A kept block is the disk's; address 0 stands for none. */
    ghost predicate Valid()
      reads this
    {
      && WellFormed(g, disk, curfil)
      && (aIndir != 0 ==> indir == disk(aIndir))
      && (aDindir != 0 ==> dindir == disk(aDindir))
    }

    constructor (g: Geometry, disk: Disk, f: Inode)
      requires WellFormed(g, disk, f)
      ensures Valid() && this.g == g && this.disk == disk && curfil == f
    {
      this.g, this.disk, curfil := g, disk, f;
      indir, dindir, aIndir, aDindir := [], [], 0, 0;
    }

    /** Makes another file the current one and forgets the kept blocks. */
    method Stat(f: Inode)
      requires Valid() && WellFormed(g, disk, f)
      modifies this
      ensures Valid() && curfil == f && aIndir == aDindir == 0
    {
      curfil := f;
      aIndir, aDindir := 0, 0;
    }

    method Vir2Abs(virblk: nat) returns (z: int)
      requires Valid()
      modifies this
      ensures Valid() && curfil == old(curfil)
      ensures z == BlockOf(g, disk, curfil, virblk)
    {
      hide ZoneTable, EntryOf, Mapped;
      if virblk * g.blockSize >= curfil.size {
        return -1;
      }
      var zone := virblk / g.perZone;
      var zoneIndex := virblk % g.perZone;
      EntryFrom(g, disk, curfil, virblk, zone);
      if zone < g.directs {
        return curfil.zones[zone] * g.perZone + zoneIndex;
      }
      zone := zone - g.directs;
      var indZone;
      if zone < g.indirects {
        indZone := curfil.zones[g.directs];
      } else {
        indZone := curfil.zones[g.directs + 1];
        if indZone == 0 {
          return 0;
        }
        var d := indZone * g.perZone;
        Positive(indZone, g.perZone);
        if aDindir != d {
          dindir := disk(d);
          aDindir := d;
        }
        zone := zone - g.indirects;
        DoubleIndex(g.indirects, zone);
        indZone := dindir[zone / g.indirects];
        zone := zone % g.indirects;
      }
      if indZone == 0 {
        return 0;
      }
      var s := indZone * g.perZone;
      Positive(indZone, g.perZone);
      if aIndir != s {
        indir := disk(s);
        aIndir := s;
      }
      z := indir[zone] * g.perZone + zoneIndex;
    }
  }

  /** Where each zone of the table comes from. */
  lemma TableLookup(g: Geometry, disk: Disk, f: Inode, k: nat)
    requires WellFormed(g, disk, f) && k < g.directs + g.indirects + g.indirects * g.indirects
    ensures k < g.directs ==> ZoneTable(g, disk, f)[k] == Zone(f.zones[k])
    ensures g.directs <= k < g.directs + g.indirects ==>
      ZoneTable(g, disk, f)[k] == FromIndirect(g, disk, f.zones[g.directs], k - g.directs)
    ensures k >= g.directs + g.indirects ==>
      ZoneTable(g, disk, f)[k] == FromDouble(g, disk, f.zones[g.directs + 1], k - g.directs - g.indirects)
  {
    if k >= g.directs + g.indirects {
      var j, d := k - g.directs - g.indirects, f.zones[g.directs + 1];
      QuotientBound(j, g.indirects, g.indirects);
      if d != 0 {
        ListedAllAt(g, disk, disk(d * g.perZone), j);
      }
    }
  }

  lemma EntryFrom(g: Geometry, disk: Disk, f: Inode, b: nat, k: nat)
    requires WellFormed(g, disk, f) && b * g.blockSize < f.size && k == b / g.perZone
    ensures k < g.directs ==> EntryOf(g, disk, f, b) == Zone(f.zones[k])
    ensures g.directs <= k < g.directs + g.indirects ==>
      EntryOf(g, disk, f, b) == FromIndirect(g, disk, f.zones[g.directs], k - g.directs)
    ensures k < g.directs + g.indirects + g.indirects * g.indirects
    ensures k >= g.directs + g.indirects ==>
      EntryOf(g, disk, f, b) == FromDouble(g, disk, f.zones[g.directs + 1], k - g.directs - g.indirects)
  {
    hide ZoneTable, Mapped;
    InTable(g, disk, f, b);
    TableLookup(g, disk, f, k);
  }

  ghost function FromIndirect(g: Geometry, disk: Disk, zone: nat, k: nat): ZoneEntry
    requires |disk(zone * g.perZone)| == g.indirects && k < g.indirects
  {
    if zone == 0 then Missing else Zone(disk(zone * g.perZone)[k])
  }

  ghost function FromDouble(g: Geometry, disk: Disk, zone: nat, j: nat): ZoneEntry
    requires forall b :: |disk(b)| == g.indirects
    requires j < g.indirects * g.indirects
  {
    DoubleIndex(g.indirects, j);
    if zone == 0 then Missing else FromIndirect(g, disk, disk(zone * g.perZone)[j / g.indirects], j % g.indirects)
  }

  lemma DoubleIndex(n: nat, j: nat)
    requires j < n * n
    ensures n > 0 && 0 <= j / n < n && 0 <= j % n < n
  {
    QuotientBound(j, n, n);
    QuotientIsNat(j, n);
  }

  // ----- what a reader of the disk finds -----

  /** A block is the one at `b`'s place in a zone. */
  predicate InZone(g: Geometry, block: int, zone: nat, b: nat)
    requires g.Valid()
  {
    block >= 0 && block / g.perZone == zone && block % g.perZone == b % g.perZone
  }

  /** A block is the first one of a zone. */
  predicate Heads(g: Geometry, block: nat, zone: nat)
    requires g.Valid()
  {
    block / g.perZone == zone && block % g.perZone == 0
  }

  lemma HeadIs(g: Geometry, block: nat, zone: nat)
    requires g.Valid() && Heads(g, block, zone)
    ensures block == zone * g.perZone
  {
  }

  lemma ZoneAnswer(g: Geometry, disk: Disk, f: Inode, b: nat, zone: nat)
    requires WellFormed(g, disk, f) && b * g.blockSize < f.size && EntryOf(g, disk, f, b) == Zone(zone)
    ensures InZone(g, BlockOf(g, disk, f, b), zone, b)
  {
    hide EntryOf;
    ProductIsNat(zone, g.perZone);
    QuotientIsNat(b, g.perZone);
    Quotient(g.perZone, zone, b % g.perZone, zone * g.perZone + b % g.perZone);
  }

  /** A block of a direct zone is the one at its place in that zone. */
  lemma DirectBlock(g: Geometry, disk: Disk, f: Inode, b: nat)
    requires WellFormed(g, disk, f) && b * g.blockSize < f.size
    ensures 0 <= b / g.perZone
    ensures b / g.perZone < g.directs ==> InZone(g, BlockOf(g, disk, f, b), f.zones[b / g.perZone], b)
  {
    hide EntryOf, BlockOf, InZone;
    QuotientIsNat(b, g.perZone);
    EntryFrom(g, disk, f, b, b / g.perZone);
    if b / g.perZone < g.directs {
      ZoneAnswer(g, disk, f, b, f.zones[b / g.perZone]);
    }
  }

  /** Past the direct zones a block is in the zone that entry `k` of the indirect block `i` names; without
      an indirect block the answer is 0. */
  lemma IndirectBlock(g: Geometry, disk: Disk, f: Inode, b: nat, i: nat, k: nat)
    requires WellFormed(g, disk, f) && b * g.blockSize < f.size
    requires b / g.perZone == g.directs + k && k < g.indirects && Heads(g, i, f.zones[g.directs])
    ensures if f.zones[g.directs] == 0 then BlockOf(g, disk, f, b) == 0
      else InZone(g, BlockOf(g, disk, f, b), disk(i)[k], b)
  {
    hide EntryOf, InZone;
    HeadIs(g, i, f.zones[g.directs]);
    EntryFrom(g, disk, f, b, g.directs + k);
    if f.zones[g.directs] != 0 {
      ZoneAnswer(g, disk, f, b, disk(i)[k]);
    }
  }

  /** Past those, a block is in the zone that entry `k` of the indirect block `i` names, which entry `j` of
      the double indirect block `d` names; without one of the two the answer is 0. */
  lemma DoubleBlock(g: Geometry, disk: Disk, f: Inode, b: nat, d: nat, j: nat, i: nat, k: nat)
    requires WellFormed(g, disk, f) && b * g.blockSize < f.size && j < g.indirects && k < g.indirects
    requires b / g.perZone == g.directs + g.indirects + (j * g.indirects + k)
    requires Heads(g, d, f.zones[g.directs + 1]) && Heads(g, i, disk(d)[j])
    ensures if f.zones[g.directs + 1] == 0 || disk(d)[j] == 0 then BlockOf(g, disk, f, b) == 0
      else InZone(g, BlockOf(g, disk, f, b), disk(i)[k], b)
  {
    hide EntryOf, InZone, ZoneTable;
    HeadIs(g, d, f.zones[g.directs + 1]);
    HeadIs(g, i, disk(d)[j]);
    ProductIsNat(j, g.indirects);
    EntryFrom(g, disk, f, b, g.directs + g.indirects + (j * g.indirects + k));
    Quotient(g.indirects, j, k, j * g.indirects + k);
    if f.zones[g.directs + 1] != 0 && disk(d)[j] != 0 {
      ZoneAnswer(g, disk, f, b, disk(i)[k]);
    }
  }

  /** Nothing is stored for the zone: a pointer to it, or to the block that would list it, is 0. */
  predicate Hole(e: ZoneEntry) {
    e.Missing? || e.number == 0
  }

  /** The answer is -1 exactly past the end of the file. It is 0 exactly for those holes that begin
      their zone or lack an indirect block; any other hole of a multi-block zone gets a small
      non-zero block number. */
  lemma AnswersExactly(g: Geometry, disk: Disk, f: Inode, b: nat)
    requires WellFormed(g, disk, f)
    ensures BlockOf(g, disk, f, b) == -1 <==> b * g.blockSize >= f.size
    ensures b * g.blockSize < f.size ==>
      var e := EntryOf(g, disk, f, b);
      BlockOf(g, disk, f, b) == 0 <==> Hole(e) && (e.Missing? || b % g.perZone == 0)
  {
    hide EntryOf;
    if b * g.blockSize < f.size {
      match EntryOf(g, disk, f, b)
      case Missing =>
      case Zone(z) =>
        if z > 0 {
          Positive(z, g.perZone);
        }
    }
  }

  /** With one block per zone 0 means a hole, and only a hole. */
  lemma OneBlockZones(g: Geometry, disk: Disk, f: Inode, b: nat)
    requires WellFormed(g, disk, f) && g.perZone == 1 && b * g.blockSize < f.size
    ensures BlockOf(g, disk, f, b) == 0 <==> Hole(EntryOf(g, disk, f, b))
  {
    AnswersExactly(g, disk, f, b);
    QuotientOfNextOne(b);
  }

  lemma QuotientOfNextOne(b: nat)
    ensures b % 1 == 0
  {
  }
}
