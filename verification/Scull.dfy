/** A memory device: a list of quantum sets, each an array of quanta, that acts as one flat array of bytes. */
module Scull {
  import opened Arithmetic

  type Byte = b: int | 0 <= b < 256

  const SCULL_QUANTUM := 4000
  const SCULL_QSET := 1000

  /** A pointer to a quantum: the block it is in, and what it holds. */
  datatype Slot = Empty | Quantum(at: nat, bytes: seq<Byte>)

  /** A list item: its array of quanta, if it is allocated. */
  datatype Item = NoData(at: nat) | Data(at: nat, table: nat, slots: seq<Slot>)

  // ----- places -----

  /** Item, index in the item's array, and offset in the quantum. */
  datatype Place = Place(item: nat, sPos: nat, qPos: nat)

  function PlaceOf(quantum: nat, qset: nat, pos: nat): Place
    requires quantum > 0 && qset > 0
  {
    Positive(quantum, qset);
    var itemsize := quantum * qset;
    var rest := pos % itemsize;
    Parts(quantum, qset, pos);
    Place(pos / itemsize, rest / quantum, rest % quantum)
  }

  function PosOf(quantum: nat, qset: nat, p: Place): nat {
    (p.item * qset + p.sPos) * quantum + p.qPos
  }

  lemma Parts(quantum: nat, qset: nat, pos: nat)
    requires quantum > 0 && qset > 0 && quantum * qset > 0
    ensures var itemsize := quantum * qset;
      && pos / itemsize == pos / quantum / qset
      && pos % itemsize / quantum == pos / quantum % qset
      && pos % itemsize % quantum == pos % quantum
      && 0 <= pos / itemsize && 0 <= pos % itemsize && 0 <= pos % itemsize / quantum
  {
    var i, s, off := Digits(quantum, qset, pos);
    Recomposed(quantum, qset, i, s, off);
  }

  /** A position written to the mixed base of the array's index and the offset in the quantum. */
  lemma Digits(quantum: nat, qset: nat, pos: nat) returns (i: nat, s: nat, off: nat)
    requires quantum > 0 && qset > 0
    ensures i == pos / quantum / qset && s == pos / quantum % qset < qset && off == pos % quantum < quantum
    ensures pos == quantum * (qset * i + s) + off
  {
    QuotientIsNat(pos, quantum);
    var j := pos / quantum;
    QuotientIsNat(j, qset);
    i, s, off := j / qset, j % qset, pos % quantum;
    Dividend(pos, quantum);
    Dividend(j, qset);
  }

  lemma Dividend(a: nat, n: nat)
    requires n > 0
    ensures a == n * (a / n) + a % n
  {
  }

  lemma NextMultiple(n: nat, q: nat)
    ensures n * (q + 1) == n * q + n
  {
  }

  lemma QuotientAtLeast(n: nat, q: nat, a: nat)
    requires n > 0 && a >= n * q
    ensures a / n >= q
  {
    if a / n < q {
      Dividend(a, n);
      Steps(n, a / n, q);
    }
  }

  lemma Steps(n: nat, i: int, q: int)
    requires i + 1 <= q
    ensures n * q >= n * i + n
  {
    assert n * (q - i - 1) >= 0;
    assert n * (q - i - 1) == n * q - n * i - n;
  }

  lemma Recomposed(quantum: nat, qset: nat, i: nat, s: nat, off: nat)
    requires s < qset && off < quantum && quantum * qset > 0
    ensures var pos := quantum * (qset * i + s) + off;
      && pos / (quantum * qset) == i && pos % (quantum * qset) == quantum * s + off
      && (quantum * s + off) / quantum == s && (quantum * s + off) % quantum == off
  {
    var n := quantum * qset;
    Distributes(quantum, qset, i, s);
    Below(quantum, qset, s, off);
    Quotient(n, i, quantum * s + off, n * i + (quantum * s + off));
    Quotient(quantum, s, off, quantum * s + off);
  }

  lemma Distributes(a: nat, b: nat, i: nat, s: nat)
    ensures a * (b * i + s) == a * b * i + a * s
  {
    assert a * (b * i) == a * b * i;
  }

  lemma Below(a: nat, b: nat, s: nat, off: nat)
    requires s < b && off < a
    ensures 0 <= a * s + off < a * b
  {
    assert a * b == a * s + a * (b - s);
    Multiple(a, b - s);
  }

  /** A position and its place determine each other. */
  lemma PlaceOfPos(quantum: nat, qset: nat, pos: nat)
    requires quantum > 0 && qset > 0
    ensures var p := PlaceOf(quantum, qset, pos);
      && p.sPos < qset && p.qPos < quantum && PosOf(quantum, qset, p) == pos
      && p.item * qset + p.sPos == pos / quantum && p.qPos == pos % quantum
  {
    Positive(quantum, qset);
    Parts(quantum, qset, pos);
    var j := pos / quantum;
    assert j == qset * (j / qset) + j % qset;
    assert pos == quantum * j + pos % quantum;
  }

  lemma PosOfPlace(quantum: nat, qset: nat, p: Place)
    requires p.sPos < qset && p.qPos < quantum
    ensures PlaceOf(quantum, qset, PosOf(quantum, qset, p)) == p
  {
    var pos := PosOf(quantum, qset, p);
    PlaceOfPos(quantum, qset, pos);
    Quotient(quantum, p.item * qset + p.sPos, p.qPos, pos);
    Quotient(qset, p.item, p.sPos, p.item * qset + p.sPos);
    Positive(quantum, qset);
    Parts(quantum, qset, pos);
  }

  // ----- the flat array -----

  predicate ItemWell(item: Item, quantum: int, qset: int) {
    item.Data? ==>
      && |item.slots| == qset
      && forall k :: 0 <= k < qset ==> item.slots[k].Quantum? ==> |item.slots[k].bytes| == quantum
  }

  predicate WellShaped(data: seq<Item>, quantum: int, qset: int) {
    && quantum > 0 && qset > 0
    && forall i :: 0 <= i < |data| ==> ItemWell(data[i], quantum, qset)
  }

  /** Quantum number `j` of the device. */
  function SlotAt(data: seq<Item>, quantum: int, qset: int, j: nat): (r: Slot)
    requires WellShaped(data, quantum, qset)
    ensures r.Quantum? ==> |r.bytes| == quantum
  {
    QuotientIsNat(j, qset);
    if j / qset < |data| && data[j / qset].Data? then
      assert ItemWell(data[j / qset], quantum, qset);
      data[j / qset].slots[j % qset]
    else Empty
  }

  datatype Option<T> = None | Some(value: T)

  /** The byte at a position, if there is memory for it. */
  function ByteAt(data: seq<Item>, quantum: int, qset: int, pos: nat): Option<Byte>
    requires WellShaped(data, quantum, qset)
  {
    QuotientIsNat(pos, quantum);
    match SlotAt(data, quantum, qset, pos / quantum)
    case Empty => None
    case Quantum(_, bytes) => Some(bytes[pos % quantum])
  }

  // ----- changes to the list -----

  /** Appending an item without data changes no byte. */
  lemma LongerList(data: seq<Item>, quantum: nat, qset: nat, item: Item, pos: nat)
    requires WellShaped(data, quantum, qset) && item.NoData?
    ensures WellShaped(data + [item], quantum, qset)
    ensures ByteAt(data + [item], quantum, qset, pos) == ByteAt(data, quantum, qset, pos)
  {
    assert forall i :: 0 <= i < |data| ==> (data + [item])[i] == data[i];
  }

  function EmptyArray(n: nat): (r: seq<Slot>)
    ensures |r| == n && forall k :: 0 <= k < n ==> r[k].Empty?
  {
    seq(n, _ => Empty)
  }

  /** Allocating an item's array changes no byte either. */
  lemma FreshArray(data: seq<Item>, quantum: nat, qset: nat, i: nat, table: nat, pos: nat)
    requires WellShaped(data, quantum, qset) && i < |data| && data[i].NoData?
    ensures var d := data[i := Data(data[i].at, table, EmptyArray(qset))];
      WellShaped(d, quantum, qset) && ByteAt(d, quantum, qset, pos) == ByteAt(data, quantum, qset, pos)
  {
    hide EmptyArray;
    QuotientIsNat(pos, quantum);
    QuotientIsNat(pos / quantum, qset);
  }

  function WithSlot(data: seq<Item>, i: nat, s: nat, slot: Slot): seq<Item>
    requires i < |data| && data[i].Data? && s < |data[i].slots|
  {
    data[i := data[i].(slots := data[i].slots[s := slot])]
  }

  /** Replacing one quantum changes the bytes at its positions and no others. */
  lemma SlotReplaced(data: seq<Item>, quantum: nat, qset: nat, i: nat, s: nat, at: nat, bytes: seq<Byte>, pos: nat)
    requires WellShaped(data, quantum, qset) && i < |data| && data[i].Data? && s < qset && |bytes| == quantum
    ensures |data[i].slots| == qset
    ensures var d := WithSlot(data, i, s, Quantum(at, bytes));
      && WellShaped(d, quantum, qset)
      && ByteAt(d, quantum, qset, pos)
         == if pos / quantum == i * qset + s then Some(bytes[pos % quantum]) else ByteAt(data, quantum, qset, pos)
  {
    QuotientIsNat(pos, quantum);
    var j := pos / quantum;
    QuotientIsNat(j, qset);
    assert ItemWell(data[i], quantum, qset);
    Quotient(qset, i, s, i * qset + s);
    assert j == qset * (j / qset) + j % qset;
  }

  lemma SlotOfPlace(data: seq<Item>, quantum: nat, qset: nat, pos: nat)
    requires WellShaped(data, quantum, qset)
    ensures var p := PlaceOf(quantum, qset, pos);
      && p.sPos < qset && p.qPos < quantum
      && ByteAt(data, quantum, qset, pos)
         == if p.item < |data| && data[p.item].Data? && ItemWell(data[p.item], quantum, qset)
           && data[p.item].slots[p.sPos].Quantum?
            then Some(data[p.item].slots[p.sPos].bytes[p.qPos]) else None
  {
    Positive(quantum, qset);
    Parts(quantum, qset, pos);
    PlaceOfPos(quantum, qset, pos);
  }

  /** More items without data change no byte. */
  lemma {:induction false} LongerBy(data: seq<Item>, quantum: nat, qset: nat, more: seq<Item>, pos: nat)
    requires WellShaped(data, quantum, qset) && forall i :: 0 <= i < |more| ==> more[i].NoData?
    ensures WellShaped(data + more, quantum, qset)
    ensures ByteAt(data + more, quantum, qset, pos) == ByteAt(data, quantum, qset, pos)
    decreases |more|
  {
    hide ByteAt;
    if more == [] {
      assert data + more == data;
    } else {
      var init, last := more[..|more| - 1], more[|more| - 1];
      LongerBy(data, quantum, qset, init, pos);
      LongerList(data + init, quantum, qset, last, pos);
      assert data + more == data + init + [last];
    }
  }

  // ----- blocks of memory -----

  function One(a: nat, b: nat): nat {
    if a == b then 1 else 0
  }

  /** How many of the slot's pointers are to block `a`. */
  function BlockOf(slot: Slot, a: nat): nat {
    if slot.Quantum? then One(slot.at, a) else 0
  }

  function Quanta(slots: seq<Slot>, a: nat): nat {
    if slots == [] then 0 else BlockOf(slots[0], a) + Quanta(slots[1..], a)
  }

  function BlocksOf(item: Item, a: nat): nat {
    One(item.at, a) + if item.Data? then One(item.table, a) + Quanta(item.slots, a) else 0
  }

  /** How many pointers to block `a` a list consists of: to its items, their arrays and their quanta. */
  function Blocks(data: seq<Item>, a: nat): nat {
    if data == [] then 0 else BlocksOf(data[0], a) + Blocks(data[1..], a)
  }

  /** There is one pointer to each block in use, and none to any other. */
  ghost predicate Owned(data: seq<Item>, live: set<nat>) {
    forall a: nat :: Blocks(data, a) == if a in live then 1 else 0
  }

  lemma {:induction false} BlocksAppended(data: seq<Item>, item: Item, a: nat)
    ensures Blocks(data + [item], a) == Blocks(data, a) + BlocksOf(item, a)
  {
    hide BlocksOf;
    if data == [] {
      assert [] + [item] == [item];
    } else {
      assert (data + [item])[1..] == data[1..] + [item];
      BlocksAppended(data[1..], item, a);
    }
  }

  lemma {:induction false} BlocksReplaced(data: seq<Item>, i: nat, item: Item, a: nat)
    requires i < |data|
    ensures Blocks(data[i := item], a) + BlocksOf(data[i], a) == Blocks(data, a) + BlocksOf(item, a)
  {
    hide BlocksOf;
    if i > 0 {
      assert data[i := item][1..] == data[1..][i - 1 := item];
      BlocksReplaced(data[1..], i - 1, item, a);
    } else {
      assert data[i := item][1..] == data[1..];
    }
  }

  lemma {:induction false} QuantaReplaced(slots: seq<Slot>, k: nat, slot: Slot, a: nat)
    requires k < |slots|
    ensures Quanta(slots[k := slot], a) + BlockOf(slots[k], a) == Quanta(slots, a) + BlockOf(slot, a)
  {
    hide BlockOf;
    if k > 0 {
      assert slots[k := slot][1..] == slots[1..][k - 1 := slot];
      QuantaReplaced(slots[1..], k - 1, slot, a);
    } else {
      assert slots[k := slot][1..] == slots[1..];
    }
  }

  lemma {:induction false} NoQuanta(n: nat, a: nat)
    ensures Quanta(EmptyArray(n), a) == 0
  {
    if n > 0 {
      assert EmptyArray(n)[1..] == EmptyArray(n - 1);
      NoQuanta(n - 1, a);
    }
  }

  lemma {:induction false} AboveAll(s: set<nat>) returns (bound: nat)
    ensures forall a :: a in s ==> a < bound
    decreases |s|
  {
    if s == {} {
      bound := 0;
    } else {
      var a :| a in s;
      bound := AboveAll(s - {a});
      assert forall b :: b in s ==> b == a || b in s - {a};
      if bound <= a {
        bound := a + 1;
      }
    }
  }

  // ----- the device -----

  datatype Command = Reset | TellQuantum | QueryQuantum | ShiftQuantum | TellQset | QueryQset | ShiftQset

  /** The geometry that devices take on when they are next emptied; nothing checks it. */
  class Params {
    var quantum: int
    var qset: int

    constructor ()
      ensures quantum == SCULL_QUANTUM && qset == SCULL_QSET
    {
      quantum, qset := SCULL_QUANTUM, SCULL_QSET;
    }

    /** Anyone may bring the first values back, only an administrator sets others; None is a refusal. No
        device changes. */
    method Ioctl(cmd: Command, arg: int, admin: bool) returns (r: Option<int>)
      modifies this
      ensures r.None? <==> !admin && (cmd.TellQuantum? || cmd.ShiftQuantum? || cmd.TellQset? || cmd.ShiftQset?)
      ensures quantum == if cmd.Reset? then SCULL_QUANTUM
        else if r.Some? && (cmd.TellQuantum? || cmd.ShiftQuantum?) then arg else old(quantum)
      ensures qset == if cmd.Reset? then SCULL_QSET else if r.Some? && (cmd.TellQset? || cmd.ShiftQset?) then arg
        else old(qset)
      ensures cmd.QueryQuantum? || (cmd.ShiftQuantum? && r.Some?) ==> r == Some(old(quantum))
      ensures cmd.QueryQset? || (cmd.ShiftQset? && r.Some?) ==> r == Some(old(qset))
    {
      if !admin && (cmd.TellQuantum? || cmd.ShiftQuantum? || cmd.TellQset? || cmd.ShiftQset?) {
        return None;
      }
      r := Some(0);
      match cmd
      case Reset => quantum, qset := SCULL_QUANTUM, SCULL_QSET;
      case TellQuantum => quantum := arg;
      case QueryQuantum => r := Some(quantum);
      case ShiftQuantum =>
        var tmp := quantum;
        quantum := arg;
        r := Some(tmp);
      case TellQset => qset := arg;
      case QueryQset => r := Some(qset);
      case ShiftQset =>
        var tmp := qset;
        qset := arg;
        r := Some(tmp);
    }
  }

  class Device {
    const params: Params
    var data: seq<Item>
    var quantum: int
    var qset: int
    var size: nat
    /** The blocks allocated and not freed, and how many more allocations will succeed. */
    var live: set<nat>
    var memory: nat
    /** The byte last written at each position since the device was last emptied. */
    ghost var written: map<nat, Byte>

    ghost predicate Valid()
      reads this
    {
      Owned(data, live) &&
      if Shaped() then
        && WellShaped(data, quantum, qset)
        && forall p :: p in written ==> p < size && ByteAt(data, quantum, qset, p) == Some(written[p])
      else data == [] && size == 0 && written == map[]
    }

    /** There are places for bytes; without, the device is empty. */
    predicate Shaped()
      reads this
    {
      quantum > 0 && qset > 0
    }

    constructor (params: Params, memory: nat)
      ensures Valid() && this.params == params && size == 0 && written == map[]
      ensures quantum == params.quantum && qset == params.qset
    {
      this.params, this.memory := params, memory;
      data, quantum, qset, size, live := [], params.quantum, params.qset, 0, {};
      written := map[];
    }

    /** A block that is not in use, if there is memory. */
    method Kmalloc() returns (ok: bool, at: nat)
      modifies `live, `memory
      ensures ok == (old(memory) > 0) && (!ok ==> memory == 0)
      ensures if ok then at !in old(live) && live == old(live) + {at} else live == old(live)
    {
      ok, at := memory > 0, 0;
      if ok {
        ghost var bound := AboveAll(live);
        while at in live
          decreases bound - at
        {
          at := at + 1;
        }
        live, memory := live + {at}, memory - 1;
      }
    }

    /** Only a block in use can be freed. */
    method Kfree(at: nat)
      requires at in live
      modifies `live
      ensures live == old(live) - {at}
    {
      live := live - {at};
    }

    /** Frees an item with its array and quanta; what is left is the blocks of the items in `rest`. */
    method FreeItem(item: Item, ghost rest: seq<Item>)
      requires ItemWell(item, quantum, qset) && Owned([item] + rest, live)
      modifies `live
      ensures Owned(rest, live)
    {
      hide Blocks, Owned, Quanta;
      FirstItem(item, rest, live);
      if item.Data? {
        var k := 0;
        assert item.slots[0..] == item.slots;
        while k < qset
          invariant k <= qset
          invariant forall a: nat :: LeftOver(item, k, rest, a) == if a in live then 1 else 0
        {
          assert LeftOver(item, k, rest, if item.slots[k].Quantum? then item.slots[k].at else 0) >= 0;
          NextQuantum(item, k, rest);
          if item.slots[k].Quantum? {
            Kfree(item.slots[k].at);
          }
          k := k + 1;
        }
        NoQuantumLeft(item, rest);
        assert LeftOver(item, qset, rest, item.table) >= 1;
        Kfree(item.table);
      }
      Kfree(item.at);
      OwnedIs(rest, live);
    }

    /** Frees everything, each block once, and takes on the current geometry. */
    method Trim()
      requires Valid()
      modifies this
      ensures Valid() && live == {} && data == [] && size == 0 && written == map[]
      ensures quantum == params.quantum && qset == params.qset
    {
      var i := 0;
      while i < |data|
        invariant i <= |data| && data == old(data) && quantum == old(quantum) && qset == old(qset)
        invariant Owned(data[i..], live)
      {
        assert data[i..] == [data[i]] + data[i + 1..];
        FreeItem(data[i], data[i + 1..]);
        i := i + 1;
      }
      NoneLeft(live);
      size := 0;
      quantum, qset := params.quantum, params.qset;
      data := [];
      written := map[];
    }

    /** Follows the list to item `n`, making it longer where it ends too early. */
    method Follow(n: nat) returns (ok: bool)
      requires Valid() && Shaped()
      modifies `data, `live, `memory
      ensures Valid() && |old(data)| <= |data| && old(data) == data[..|old(data)|]
      ensures forall p :: ByteAt(data, quantum, qset, p) == ByteAt(old(data), quantum, qset, p)
      ensures ok ==> n < |data|
      ensures n < |old(data)| ==> ok && data == old(data)
      ensures !ok ==> memory == 0
    {
      var i := 0;
      ghost var more: seq<Item> := [];
      ok := true;
      assert old(data) + more == data;
      while i <= n && ok
        invariant i <= n + 1 && data == old(data) + more && Owned(data, live)
        invariant forall k :: 0 <= k < |more| ==> more[k].NoData?
        invariant ok ==> i <= |data|
        invariant more != [] ==> |data| <= n + 1
        invariant !ok ==> |data| <= n && memory == 0
        decreases n + 1 - i, ok
      {
        if i == |data| {
          ghost var before := live;
          var at;
          ok, at := Kmalloc();
          if ok {
            AddsItem(data, before, at);
            assert old(data) + (more + [NoData(at)]) == data + [NoData(at)];
            data := data + [NoData(at)];
            more := more + [NoData(at)];
          }
        }
        if ok {
          i := i + 1;
        }
      }
      forall p: nat
        ensures WellShaped(data, quantum, qset)
        ensures ByteAt(data, quantum, qset, p) == ByteAt(old(data), quantum, qset, p)
      {
        LongerBy(old(data), quantum, qset, more, p);
      }
    }

    /** How far a read or write at `pos` goes at most: to the end of the quantum. */
    function Room(pos: nat): (n: nat)
      requires quantum > 0
      reads this
      ensures n > 0
    {
      QuotientIsNat(pos, quantum);
      quantum - pos % quantum
    }

    /** All of the positions a read or write can reach lie in the quantum of the first, and the next one
        is the first of another. */
    lemma RoomIsGreatest(pos: nat, k: nat)
      requires quantum > 0
      ensures (pos + k) / quantum == pos / quantum <==> k < Room(pos)
      ensures (pos + Room(pos)) % quantum == 0
    {
      var q, off := pos / quantum, pos % quantum;
      Dividend(pos, quantum);
      QuotientIsNat(pos, quantum);
      if k < Room(pos) {
        Quotient(quantum, q, off + k, pos + k);
      } else {
        QuotientAtLeast(quantum, q + 1, pos + k);
      }
      NextMultiple(quantum, q);
      Quotient(quantum, q + 1, 0, pos + Room(pos));
    }

    /** Reads from one quantum: nothing at or past the end, and nothing where no memory is. */
    method Read(pos: nat, count: nat) returns (bytes: seq<Byte>)
      requires Valid()
      modifies `data, `live, `memory
      ensures Valid() && (!Shaped() ==> bytes == [])
      ensures Shaped() ==> forall p :: ByteAt(data, quantum, qset, p) == ByteAt(old(data), quantum, qset, p)
      ensures Shaped() ==>
        |bytes| == if pos >= size || ByteAt(old(data), quantum, qset, pos).None? then 0
                   else Min(count, Min(size - pos, Room(pos)))
      ensures Shaped() ==> forall k :: 0 <= k < |bytes| ==> ByteAt(old(data), quantum, qset, pos + k) == Some(bytes[k])
      ensures forall k :: 0 <= k < |bytes| && pos + k in written ==> bytes[k] == written[pos + k]
    {
      hide ItemWell, PlaceOf;
      if pos >= size {
        return [];
      }
      var n := Min(count, size - pos);
      var place := PlaceOf(quantum, qset, pos);
      SlotOfPlace(data, quantum, qset, pos);
      var ok := Follow(place.item);
      SlotOfPlace(data, quantum, qset, pos);
      if !ok || data[place.item].NoData? {
        return [];
      }
      ShapeOf(data, quantum, qset, place.item);
      var slot := data[place.item].slots[place.sPos];
      if slot.Empty? {
        return [];
      }
      PlaceOfPos(quantum, qset, pos);
      n := Min(n, quantum - place.qPos);
      QuantumIsFull(data, quantum, qset, place.item, place.sPos);
      bytes := slot.bytes[place.qPos..place.qPos + n];
      forall k | 0 <= k < n ensures ByteAt(data, quantum, qset, pos + k) == Some(bytes[k]) {
        InQuantum(data, quantum, qset, pos, k);
      }
    }

    /** Writes to one quantum and returns how much; None if memory runs out. Nothing written before
        changes, except at the positions written. `garbage` is what new memory happens to hold. */
    method Write(pos: nat, buf: seq<Byte>, garbage: seq<Byte>) returns (r: Option<nat>)
      requires Valid() && Shaped() && |garbage| == quantum
      modifies this
      ensures Valid() && quantum == old(quantum) && qset == old(qset)
      ensures r.None? ==> memory == 0 && size == old(size) && written == old(written)
      ensures r.None? ==> forall p ::
        ByteAt(data, quantum, qset, p) == ByteAt(old(data), quantum, qset, p)
      ensures r.Some? ==> r.value == Min(|buf|, old(Room(pos)))
      ensures r.Some? ==> size == if old(size) < pos + r.value then pos + r.value else old(size)
      ensures r.Some? ==> written == Written(old(written), pos, buf[..r.value])
      ensures r.Some? ==> forall p: nat :: pos <= p < pos + r.value ==>
        ByteAt(data, quantum, qset, p) == Some(buf[p - pos])
      ensures r.Some? ==> forall p: nat ::
        !(pos <= p < pos + r.value) && (ByteAt(old(data), quantum, qset, p).Some? || p / quantum != pos / quantum) ==>
        ByteAt(data, quantum, qset, p) == ByteAt(old(data), quantum, qset, p)
    {
      hide ItemWell, PlaceOf, Owned, Written, ByteAt;
      var place := PlaceOf(quantum, qset, pos);
      PlaceOfPos(quantum, qset, pos);
      var ok := GetQuantum(pos, place, garbage);
      if !ok {
        return None;
      }
      var n := Min(|buf|, quantum - place.qPos);
      StoreIn(pos, place, buf[..n]);
      if size < pos + n {
        size := pos + n;
      }
      written := Written(written, pos, buf[..n]);
      forall p: nat
        ensures p in written ==> p < size && ByteAt(data, quantum, qset, p) == Some(written[p])
      {
        WrittenAt(old(written), pos, buf[..n], p);
      }
      r := Some(n);
    }

    /** Stores bytes in the quantum of `pos`. */
    method StoreIn(pos: nat, place: Place, s: seq<Byte>)
      requires Valid() && Shaped() && place == PlaceOf(quantum, qset, pos) && pos % quantum + |s| <= quantum
      requires place.item < |data| && data[place.item].Data? && |data[place.item].slots| == qset
      requires place.sPos < qset && data[place.item].slots[place.sPos].Quantum?
      modifies `data
      ensures WellShaped(data, quantum, qset) && Owned(data, live)
      ensures forall p: nat :: ByteAt(data, quantum, qset, p) == if pos <= p < pos + |s| then Some(s[p - pos])
        else ByteAt(old(data), quantum, qset, p)
    {
      hide ItemWell, PlaceOf, Owned, ByteAt;
      PlaceOfPos(quantum, qset, pos);
      ghost var before := data;
      QuantumIsFull(data, quantum, qset, place.item, place.sPos);
      var was := data[place.item].slots[place.sPos].bytes;
      var now := was[..place.qPos] + s + was[place.qPos + |s|..];
      KeepsBlocks(data, place.item, place.sPos, now, live);
      data := WithSlot(data, place.item, place.sPos, data[place.item].slots[place.sPos].(bytes := now));
      forall p: nat
        ensures WellShaped(data, quantum, qset)
        ensures ByteAt(data, quantum, qset, p) == if pos <= p < pos + |s| then Some(s[p - pos])
          else ByteAt(before, quantum, qset, p)
      {
        QuantumWritten(before, quantum, qset, pos, s, p);
      }
      QuantumWritten(before, quantum, qset, pos, s, pos);
    }

    /** Makes sure that there is a quantum for `pos`; a new one holds garbage. */
    method GetQuantum(pos: nat, place: Place, garbage: seq<Byte>) returns (ok: bool)
      requires Valid() && Shaped() && place == PlaceOf(quantum, qset, pos) && |garbage| == quantum
      modifies `data, `live, `memory
      ensures Valid()
      ensures ok ==> place.item < |data| && data[place.item].Data? && |data[place.item].slots| == qset
      ensures ok ==> place.sPos < qset && data[place.item].slots[place.sPos].Quantum?
      ensures !ok ==> memory == 0 && forall p :: ByteAt(data, quantum, qset, p) == ByteAt(old(data), quantum, qset, p)
      ensures forall p: nat :: ByteAt(old(data), quantum, qset, p).Some? || p / quantum != pos / quantum ==>
        ByteAt(data, quantum, qset, p) == ByteAt(old(data), quantum, qset, p)
    {
      hide ItemWell, PlaceOf, Owned, ByteAt;
      PlaceOfPos(quantum, qset, pos);
      ok := Follow(place.item);
      if ok && data[place.item].NoData? {
        ok := GetArray(place.item);
      }
      if !ok {
        return;
      }
      ShapeOf(data, quantum, qset, place.item);
      if data[place.item].slots[place.sPos].Empty? {
        ok := NewQuantum(pos, place, garbage);
      }
    }

    method NewQuantum(pos: nat, place: Place, garbage: seq<Byte>) returns (ok: bool)
      requires Valid() && Shaped() && place == PlaceOf(quantum, qset, pos) && |garbage| == quantum
      requires place.item < |data| && data[place.item].Data? && |data[place.item].slots| == qset
      requires place.sPos < qset && data[place.item].slots[place.sPos].Empty?
      modifies `data, `live, `memory
      ensures Valid()
      ensures ok ==> place.item < |data| && data[place.item].Data? && |data[place.item].slots| == qset
      ensures ok ==> data[place.item].slots[place.sPos].Quantum?
      ensures !ok ==> data == old(data) && memory == 0
      ensures forall p: nat :: ByteAt(old(data), quantum, qset, p).Some? || p / quantum != pos / quantum ==>
        ByteAt(data, quantum, qset, p) == ByteAt(old(data), quantum, qset, p)
    {
      hide ItemWell, PlaceOf, Owned, ByteAt;
      PlaceOfPos(quantum, qset, pos);
      ghost var before, used := data, live;
      var at;
      ok, at := Kmalloc();
      if ok {
        AddsBlock(data, place.item, place.sPos, at, garbage, used);
        data := WithSlot(data, place.item, place.sPos, Quantum(at, garbage));
        SlotReplaced(before, quantum, qset, place.item, place.sPos, at, garbage, pos);
        forall p: nat
          ensures ByteAt(before, quantum, qset, p).Some? || p / quantum != pos / quantum ==>
            ByteAt(data, quantum, qset, p) == ByteAt(before, quantum, qset, p)
        {
          SlotReplaced(before, quantum, qset, place.item, place.sPos, at, garbage, p);
          EmptyQuantum(before, quantum, qset, pos, p);
        }
      }
    }

    /** Allocates an item's array. */
    method GetArray(i: nat) returns (ok: bool)
      requires Valid() && Shaped() && i < |data| && data[i].NoData?
      modifies `data, `live, `memory
      ensures Valid() && |data| == |old(data)| && (if ok then data[i].Data? else memory == 0)
      ensures forall p :: ByteAt(data, quantum, qset, p) == ByteAt(old(data), quantum, qset, p)
    {
      ghost var before, used := data, live;
      var at;
      ok, at := Kmalloc();
      if ok {
        AddsArray(data, i, at, qset, used);
        data := data[i := Data(data[i].at, at, EmptyArray(qset))];
        forall p: nat
          ensures WellShaped(data, quantum, qset)
          ensures ByteAt(data, quantum, qset, p) == ByteAt(before, quantum, qset, p)
        {
          FreshArray(before, quantum, qset, i, at, p);
        }
      }
    }
  }

  /** The pointers that are left when an item's first `k` quanta are freed. */
  function LeftOver(item: Item, k: nat, rest: seq<Item>, a: nat): nat
    requires item.Data? && k <= |item.slots|
  {
    One(item.at, a) + One(item.table, a) + Quanta(item.slots[k..], a) + Blocks(rest, a)
  }

  lemma NextQuantum(item: Item, k: nat, rest: seq<Item>)
    requires item.Data? && k < |item.slots|
    ensures forall a: nat ::
      LeftOver(item, k, rest, a) == LeftOver(item, k + 1, rest, a) + BlockOf(item.slots[k], a)
  {
    hide Blocks, BlockOf, One;
    assert item.slots[k..][1..] == item.slots[k + 1..];
  }

  lemma NoQuantumLeft(item: Item, rest: seq<Item>)
    requires item.Data?
    ensures forall a: nat ::
      LeftOver(item, |item.slots|, rest, a) == One(item.at, a) + One(item.table, a) + Blocks(rest, a)
  {
    hide Blocks, One;
    assert item.slots[|item.slots|..] == [];
  }

  lemma FirstItem(item: Item, rest: seq<Item>, live: set<nat>)
    requires Owned([item] + rest, live)
    ensures item.Data? ==> item.slots[0..] == item.slots
    ensures forall a: nat ::
      (if item.Data? then LeftOver(item, 0, rest, a) else One(item.at, a) + Blocks(rest, a))
      == if a in live then 1 else 0
  {
    hide Quanta, One;
    assert item.Data? ==> item.slots[0..] == item.slots;
    assert ([item] + rest)[1..] == rest;
    forall a: nat ensures Blocks([item] + rest, a) == BlocksOf(item, a) + Blocks(rest, a) {
    }
  }

  lemma OwnedIs(data: seq<Item>, live: set<nat>)
    ensures Owned(data, live) <==> forall a: nat :: Blocks(data, a) == if a in live then 1 else 0
  {
  }

  lemma NoneLeft(live: set<nat>)
    requires Owned([], live)
    ensures live == {}
  {
    forall a: nat ensures a !in live {
      assert Blocks([], a) == 0;
    }
  }

  lemma AddsItem(data: seq<Item>, live: set<nat>, at: nat)
    requires Owned(data, live) && at !in live
    ensures Owned(data + [NoData(at)], live + {at})
  {
    hide Blocks;
    forall a: nat ensures Blocks(data + [NoData(at)], a) == if a in live + {at} then 1 else 0 {
      BlocksAppended(data, NoData(at), a);
    }
  }

  lemma AddsArray(data: seq<Item>, i: nat, table: nat, n: nat, live: set<nat>)
    requires i < |data| && data[i].NoData? && Owned(data, live) && table !in live
    ensures Owned(data[i := Data(data[i].at, table, EmptyArray(n))], live + {table})
  {
    hide Blocks;
    var item := Data(data[i].at, table, EmptyArray(n));
    forall a: nat ensures Blocks(data[i := item], a) == if a in live + {table} then 1 else 0 {
      NoQuanta(n, a);
      BlocksReplaced(data, i, item, a);
    }
  }

  lemma AddsBlock(data: seq<Item>, i: nat, s: nat, at: nat, bytes: seq<Byte>, live: set<nat>)
    requires i < |data| && data[i].Data? && s < |data[i].slots| && data[i].slots[s].Empty?
    requires Owned(data, live) && at !in live
    ensures Owned(WithSlot(data, i, s, Quantum(at, bytes)), live + {at})
  {
    hide Blocks, Quanta;
    var slot := Quantum(at, bytes);
    forall a: nat ensures Blocks(WithSlot(data, i, s, slot), a) == if a in live + {at} then 1 else 0 {
      QuantaReplaced(data[i].slots, s, slot, a);
      BlocksReplaced(data, i, data[i].(slots := data[i].slots[s := slot]), a);
    }
  }

  /** Where the quantum of `pos` is missing, no position in it has a byte. */
  lemma EmptyQuantum(data: seq<Item>, quantum: nat, qset: nat, pos: nat, p: nat)
    requires WellShaped(data, quantum, qset)
    requires var place := PlaceOf(quantum, qset, pos);
      place.item < |data| && data[place.item].Data? && place.sPos < |data[place.item].slots| == qset
        && data[place.item].slots[place.sPos].Empty?
    ensures p / quantum == pos / quantum ==> ByteAt(data, quantum, qset, p).None?
  {
    SlotOfPlace(data, quantum, qset, pos);
  }

  /** `w` once the bytes of `s` are written from `pos` on. */
  ghost function Written(w: map<nat, Byte>, pos: nat, s: seq<Byte>): map<nat, Byte> {
    if s == [] then w else Written(w, pos, s[..|s| - 1])[pos + |s| - 1 := s[|s| - 1]]
  }

  lemma {:induction false} WrittenAt(w: map<nat, Byte>, pos: nat, s: seq<Byte>, p: nat)
    ensures p in Written(w, pos, s) <==> p in w || pos <= p < pos + |s|
    ensures p in Written(w, pos, s) ==> Written(w, pos, s)[p] == if pos <= p < pos + |s| then s[p - pos] else w[p]
    decreases |s|
  {
    if s != [] {
      WrittenAt(w, pos, s[..|s| - 1], p);
    }
  }

  lemma KeepsBlocks(data: seq<Item>, i: nat, s: nat, bytes: seq<Byte>, live: set<nat>)
    requires i < |data| && data[i].Data? && s < |data[i].slots| && data[i].slots[s].Quantum? && Owned(data, live)
    ensures Owned(WithSlot(data, i, s, data[i].slots[s].(bytes := bytes)), live)
  {
    hide Blocks, Quanta;
    var slot := data[i].slots[s].(bytes := bytes);
    forall a: nat ensures Blocks(WithSlot(data, i, s, slot), a) == if a in live then 1 else 0 {
      QuantaReplaced(data[i].slots, s, slot, a);
      BlocksReplaced(data, i, data[i].(slots := data[i].slots[s := slot]), a);
    }
  }

  /** Writing into the quantum of `pos` changes the written positions only. */
  lemma QuantumWritten(data: seq<Item>, quantum: nat, qset: nat, pos: nat, s: seq<Byte>, p: nat)
    requires WellShaped(data, quantum, qset) && pos % quantum + |s| <= quantum
    requires var place := PlaceOf(quantum, qset, pos);
      place.item < |data| && data[place.item].Data? && place.sPos < |data[place.item].slots| == qset
        && data[place.item].slots[place.sPos].Quantum?
    ensures var place := PlaceOf(quantum, qset, pos); var slot := data[place.item].slots[place.sPos];
      && place.qPos == pos % quantum && |slot.bytes| == quantum
      && var now := slot.(bytes := slot.bytes[..place.qPos] + s + slot.bytes[place.qPos + |s|..]);
         var d := WithSlot(data, place.item, place.sPos, now);
         WellShaped(d, quantum, qset)
         && ByteAt(d, quantum, qset, p) == if pos <= p < pos + |s| then Some(s[p - pos])
           else ByteAt(data, quantum, qset, p)
  {
    hide ItemWell, PlaceOf;
    var place := PlaceOf(quantum, qset, pos);
    PlaceOfPos(quantum, qset, pos);
    QuantumIsFull(data, quantum, qset, place.item, place.sPos);
    var at, was := data[place.item].slots[place.sPos].at, data[place.item].slots[place.sPos].bytes;
    var now := was[..place.qPos] + s + was[place.qPos + |s|..];
    SlotReplaced(data, quantum, qset, place.item, place.sPos, at, now, p);
    SlotReplaced(data, quantum, qset, place.item, place.sPos, at, was, p);
    SameSlot(data, place.item, place.sPos);
    QuotientIsNat(p, quantum);
    SameQuantum(quantum, pos, p, |s|);
  }

  lemma SameSlot(data: seq<Item>, i: nat, s: nat)
    requires i < |data| && data[i].Data? && s < |data[i].slots| && data[i].slots[s].Quantum?
    ensures WithSlot(data, i, s, data[i].slots[s]) == data
  {
    assert data[i].slots[s := data[i].slots[s]] == data[i].slots;
  }

  /** A stretch that stays in one quantum. */
  lemma SameQuantum(quantum: nat, pos: nat, p: nat, n: nat)
    requires quantum > 0 && pos % quantum + n <= quantum
    ensures pos <= p < pos + n ==> p / quantum == pos / quantum
    ensures p / quantum == pos / quantum ==> p - pos == p % quantum - pos % quantum
  {
    assert pos == quantum * (pos / quantum) + pos % quantum;
    assert p == quantum * (p / quantum) + p % quantum;
    if pos <= p < pos + n {
      Quotient(quantum, pos / quantum, pos % quantum + p - pos, p);
    }
  }

  function Min(a: nat, b: nat): nat {
    if a < b then a else b
  }

  lemma ShapeOf(data: seq<Item>, quantum: nat, qset: nat, i: nat)
    requires WellShaped(data, quantum, qset) && i < |data|
    ensures ItemWell(data[i], quantum, qset) && (data[i].Data? ==> |data[i].slots| == qset)
  {
  }

  lemma QuantumIsFull(data: seq<Item>, quantum: nat, qset: nat, i: nat, s: nat)
    requires WellShaped(data, quantum, qset) && i < |data| && data[i].Data? && s < |data[i].slots|
      && data[i].slots[s].Quantum?
    ensures |data[i].slots[s].bytes| == quantum
  {
    assert ItemWell(data[i], quantum, qset);
  }

  /** Positions up to the end of a quantum are offsets in it. */
  lemma InQuantum(data: seq<Item>, quantum: nat, qset: nat, pos: nat, k: nat)
    requires WellShaped(data, quantum, qset) && pos % quantum + k < quantum
    ensures (pos + k) / quantum == pos / quantum && (pos + k) % quantum == pos % quantum + k
    ensures var p := PlaceOf(quantum, qset, pos);
      ByteAt(data, quantum, qset, pos + k)
      == if p.item < |data| && data[p.item].Data? && p.sPos < |data[p.item].slots|
        && data[p.item].slots[p.sPos].Quantum?
            && |data[p.item].slots[p.sPos].bytes| == quantum && p.qPos == pos % quantum
         then Some(data[p.item].slots[p.sPos].bytes[p.qPos + k]) else None
  {
    QuotientIsNat(pos, quantum);
    assert pos == quantum * (pos / quantum) + pos % quantum;
    Quotient(quantum, pos / quantum, pos % quantum + k, pos + k);
    Positive(quantum, qset);
    Parts(quantum, qset, pos);
    Parts(quantum, qset, pos + k);
  }
}
