/** The linker: collects the code of a module and of everything it imports, and points every listed
    call at the final address of what it names. */
module Linking {
  import opened Machine
  import opened Source
  import opened Encoding

  datatype SymbolOffset = SymbolOffset(name: string, offset: int)
  datatype Fixup = Fixup(mod: string, name: string, offset: int)
  datatype ObjectModule = ObjectModule(symbols: seq<SymbolOffset>, fixups: seq<Fixup>, code: seq<Int32>)

  type Disk = map<string, ObjectModule>

  /** The object files a compiler leaves behind: imported modules exist and call sites lie within
      the module's code. */
  ghost predicate WellFormed(disk: Disk) {
    forall m, k :: m in disk && 0 <= k < |disk[m].fixups| ==>
      var f := disk[m].fixups[k];
      f.mod in disk && 1 <= f.offset <= |disk[m].code|
  }

  const HEADER: Int32 := 1

  /** BSR -1, the instruction that stops the machine. */
  const EXIT: Int32 := Encode(Instr(Bsr, 0, 0, -1))

  // ----- patching -----

  /** Keeps the opcode field of a word and replaces the rest. */
  function FixCommand(w: Int32, value: int): Int32 {
    Wrap(Bits(w) / P26 * P26 + value)
  }

  /** Every symbol of that name is tried in turn; the last one stays. */
  function Patch(w: Int32, symbols: seq<SymbolOffset>, name: string, base: int): Int32 {
    if symbols == [] then w
    else
      var n := |symbols| - 1;
      var rest := Patch(w, symbols[..n], name, base);
      if symbols[n].name == name then FixCommand(rest, symbols[n].offset + base - 1) else rest
  }

  /** The code of a module after its first `k` fix-ups. */
  ghost function Linked(disk: Disk, placed: map<string, nat>, m: string, k: nat): (r: seq<Int32>)
    requires WellFormed(disk) && m in disk && k <= |disk[m].fixups|
    requires forall i :: 0 <= i < k ==> disk[m].fixups[i].mod in placed
    ensures |r| == |disk[m].code|
  {
    if k == 0 then disk[m].code
    else
      var f := disk[m].fixups[k - 1];
      var rest := Linked(disk, placed, m, k - 1);
      rest[f.offset - 1 := Patch(rest[f.offset - 1], disk[f.mod].symbols, f.name, placed[f.mod])]
  }

  // ----- placing -----

  function Sizes(disk: Disk, order: seq<string>): (r: nat)
    requires forall i :: 0 <= i < |order| ==> order[i] in disk
  {
    if order == [] then 0
    else Sizes(disk, order[..|order| - 1]) + |disk[order[|order| - 1]].code|
  }

  /** The header word comes first; the exit instruction follows the main module. */
  ghost function Start(disk: Disk, order: seq<string>, i: nat): nat
    requires i <= |order| && forall k :: 0 <= k < |order| ==> order[k] in disk
  {
    (if i == 0 then 1 else 2) + Sizes(disk, order[..i])
  }

  /** Modules lie one after the other in loading order, each once. */
  ghost predicate Placed(disk: Disk, order: seq<string>, placed: map<string, nat>, total: nat) {
    && order != []
    && (forall i :: 0 <= i < |order| ==> order[i] in disk)
    && (forall i, j :: 0 <= i < j < |order| ==> order[i] != order[j])
    && (forall m :: m in placed <==> m in order)
    && (forall i :: 0 <= i < |order| ==> placed[order[i]] == Start(disk, order, i))
    && total == Start(disk, order, |order|)
  }

  lemma {:induction false} SizesGrow(disk: Disk, order: seq<string>, i: nat, j: nat)
    requires i < j <= |order| && forall k :: 0 <= k < |order| ==> order[k] in disk
    ensures Sizes(disk, order[..i]) + |disk[order[i]].code| <= Sizes(disk, order[..j])
    decreases j
  {
    assert order[..j][..j - 1] == order[..j - 1];
    if i + 1 < j {
      SizesGrow(disk, order, i, j - 1);
    }
  }

  /** A module's words, in the linked program. */
  ghost predicate Fits(disk: Disk, placed: map<string, nat>, total: nat, m: string) {
    m in placed && m in disk && placed[m] >= 1 && placed[m] + |disk[m].code| <= total
  }

  ghost predicate Apart(disk: Disk, placed: map<string, nat>, m: string, n: string)
    requires m in placed && m in disk && n in placed && n in disk
  {
    placed[m] + |disk[m].code| <= placed[n] || placed[n] + |disk[n].code| <= placed[m]
  }

  lemma PlacedFits(disk: Disk, order: seq<string>, placed: map<string, nat>, total: nat, m: string)
    requires Placed(disk, order, placed, total) && m in placed
    ensures Fits(disk, placed, total, m)
  {
    var i :| 0 <= i < |order| && order[i] == m;
    SizesGrow(disk, order, i, |order|);
    assert order[..|order|] == order;
  }

  lemma PlacedApart(disk: Disk, order: seq<string>, placed: map<string, nat>, total: nat, m: string, n: string)
    requires Placed(disk, order, placed, total) && m in placed && n in placed && m != n
    ensures m in disk && n in disk && Apart(disk, placed, m, n)
  {
    var i :| 0 <= i < |order| && order[i] == m;
    var j :| 0 <= j < |order| && order[j] == n;
    if i < j {
      SizesGrow(disk, order, i, j);
    } else {
      SizesGrow(disk, order, j, i);
    }
  }

  function Segment(words: seq<Int32>, start: nat, n: nat): seq<Int32>
    requires start + n <= |words|
  {
    words[start..start + n]
  }

  /** The module's words in the program are its linked code after `k` fix-ups. */
  ghost predicate Fixed(disk: Disk, placed: map<string, nat>, words: seq<Int32>, m: string, k: nat) {
    && WellFormed(disk) && Fits(disk, placed, |words|, m) && k <= |disk[m].fixups|
    && (forall i :: 0 <= i < k ==> disk[m].fixups[i].mod in placed)
    && Segment(words, placed[m], |disk[m].code|) == Linked(disk, placed, m, k)
  }

  /** Later placements do not change what is linked already. */
  lemma {:induction false} LinkedStays(disk: Disk, placed: map<string, nat>, placed': map<string, nat>, m: string,
      k: nat)
    requires WellFormed(disk) && m in disk && k <= |disk[m].fixups|
    requires forall i :: 0 <= i < k ==> disk[m].fixups[i].mod in placed
    requires Grows(placed, placed')
    ensures Linked(disk, placed, m, k) == Linked(disk, placed', m, k)
  {
    if k > 0 {
      LinkedStays(disk, placed, placed', m, k - 1);
    }
  }

  ghost predicate Grows(placed: map<string, nat>, placed': map<string, nat>) {
    forall m :: m in placed ==> m in placed' && placed'[m] == placed[m]
  }

  /** Modules other than `m` that were there before keep their words. */
  ghost predicate Undisturbed(disk: Disk, placed: map<string, nat>, words: seq<Int32>, words': seq<Int32>, m: string) {
    |words| <= |words'|
    && forall x :: x in placed && x != m && Fits(disk, placed, |words|, x) ==>
      Segment(words', placed[x], |disk[x].code|) == Segment(words, placed[x], |disk[x].code|)
  }

  /** Every module loaded since `placed` was recorded is completely linked. */
  ghost predicate NewLinked(disk: Disk, placed: map<string, nat>, placed': map<string, nat>, words: seq<Int32>) {
    forall x :: x in placed' && x !in placed ==> x in disk && Fixed(disk, placed', words, x, |disk[x].fixups|)
  }

  /** Every loaded module but the first is imported by one loaded before it. */
  ghost predicate Imported(disk: Disk, order: seq<string>) {
    forall j :: 1 <= j < |order| ==> ImportedBefore(disk, order, j)
  }

  lemma StartMore(disk: Disk, order: seq<string>, m: string)
    requires order != [] && m in disk && forall i :: 0 <= i < |order| ==> order[i] in disk
    ensures forall i :: 0 <= i <= |order| ==> Start(disk, order + [m], i) == Start(disk, order, i)
    ensures Start(disk, order + [m], |order| + 1) == Start(disk, order, |order|) + |disk[m].code|
  {
    var more := order + [m];
    forall i | 0 <= i <= |order| ensures Start(disk, more, i) == Start(disk, order, i) {
      assert more[..i] == order[..i];
    }
    assert more[..|more|] == more && more[..|order|] == order && order[..|order|] == order;
  }

  lemma PlacedMore(disk: Disk, order: seq<string>, placed: map<string, nat>, total: nat, m: string)
    requires Placed(disk, order, placed, total) && m in disk && m !in placed
    ensures Placed(disk, order + [m], placed[m := total], total + |disk[m].code|)
  {
    hide Start;
    StartMore(disk, order, m);
  }

  ghost predicate ImportedBefore(disk: Disk, order: seq<string>, j: nat)
    requires j < |order|
  {
    exists i, k :: 0 <= i < j && order[i] in disk && 0 <= k < |disk[order[i]].fixups|
      && disk[order[i]].fixups[k].mod == order[j]
  }

  lemma ImportedMore(disk: Disk, order: seq<string>, placed: map<string, nat>, total: nat, importer: string, k: nat,
      m: string)
    requires Imported(disk, order) && Placed(disk, order, placed, total) && importer in placed && importer in disk
    requires k < |disk[importer].fixups| && disk[importer].fixups[k].mod == m
    ensures Imported(disk, order + [m])
  {
    var more := order + [m];
    forall j | 1 <= j < |more| ensures ImportedBefore(disk, more, j) {
      if j < |order| {
        assert ImportedBefore(disk, order, j);
        var i, k' :| 0 <= i < j && order[i] in disk && 0 <= k' < |disk[order[i]].fixups|
          && disk[order[i]].fixups[k'].mod == order[j];
        assert more[i] == order[i];
      } else {
        var i :| 0 <= i < |order| && order[i] == importer;
        assert more[i] == importer;
      }
    }
  }

  /** A module that is left alone stays as linked as it was. */
  lemma SegmentKept(disk: Disk, placed: map<string, nat>, placed': map<string, nat>, words: seq<Int32>,
      words': seq<Int32>, m: string, k: nat)
    requires Fixed(disk, placed, words, m, k) && Grows(placed, placed') && |words| <= |words'|
    requires Segment(words', placed[m], |disk[m].code|) == Segment(words, placed[m], |disk[m].code|)
    ensures Fixed(disk, placed', words', m, k)
  {
    LinkedStays(disk, placed, placed', m, k);
  }

  lemma UndisturbedOn(disk: Disk, was: map<string, nat>, mid: map<string, nat>, words: seq<Int32>, words1: seq<Int32>,
                      words2: seq<Int32>, x: string)
    requires Grows(was, mid) && Undisturbed(disk, was, words, words1, x) && Undisturbed(disk, mid, words1, words2, x)
    ensures Undisturbed(disk, was, words, words2, x)
  {
  }

  lemma UndisturbedFrom(disk: Disk, before: map<string, nat>, was: map<string, nat>, words: seq<Int32>,
      words0: seq<Int32>, words': seq<Int32>, x: string, m: string)
    requires Grows(before, was) && x !in was
    requires Undisturbed(disk, before, words, words0, m) && Undisturbed(disk, was, words0, words', x)
    ensures Undisturbed(disk, before, words, words', m)
  {
  }

  lemma LinkedSince(disk: Disk, before: map<string, nat>, was: map<string, nat>, mid: map<string, nat>,
                    placed: map<string, nat>, words: seq<Int32>, words': seq<Int32>, x: string)
    requires Grows(before, was) && Grows(was, placed) && x !in was && x in disk
    requires mid.Keys == was.Keys + {x}
    requires NewLinked(disk, before, was, words) && Undisturbed(disk, was, words, words', x)
    requires NewLinked(disk, mid, placed, words') && Fixed(disk, placed, words', x, |disk[x].fixups|)
    ensures NewLinked(disk, before, placed, words')
  {
    forall y | y in placed && y !in before
      ensures y in disk && Fixed(disk, placed, words', y, |disk[y].fixups|)
    {
      if y in was {
        StillFixed(disk, was, placed, words, words', x, y, |disk[y].fixups|);
      } else if y != x {
        assert y !in mid;
      }
    }
  }

  lemma StillFixed(disk: Disk, placed: map<string, nat>, placed': map<string, nat>, words: seq<Int32>,
      words': seq<Int32>, x: string, m: string, k: nat)
    requires Fixed(disk, placed, words, m, k) && Grows(placed, placed') && m != x
    requires Undisturbed(disk, placed, words, words', x)
    ensures Fixed(disk, placed', words', m, k)
  {
    SegmentKept(disk, placed, placed', words, words', m, k);
  }

  /** The header word and, behind the main module, the exit instruction. */
  ghost predicate Marked(disk: Disk, order: seq<string>, words: seq<Int32>) {
    && order != [] && order[0] in disk && 1 + |disk[order[0]].code| < |words|
    && words[0] == HEADER && words[1 + |disk[order[0]].code|] == EXIT
  }

  lemma MarkedMore(disk: Disk, order: seq<string>, words: seq<Int32>, m: string)
    requires Marked(disk, order, words) && m in disk
    ensures Marked(disk, order + [m], words + disk[m].code)
  {
  }

  class BinaryFile {
    const disk: Disk
    var instructions: seq<Int32>
    var placed: map<string, nat>
    ghost var order: seq<string>

    ghost predicate Valid()
      reads this
    {
      && WellFormed(disk)
      && Placed(disk, order, placed, |instructions|)
      && Imported(disk, order)
      && Marked(disk, order, instructions)
    }

    /** Places the main module and the exit instruction behind the header word. */
    constructor (disk: Disk, main: string)
      requires WellFormed(disk) && main in disk
      ensures this.disk == disk && Valid() && order == [main]
      ensures instructions == [HEADER] + disk[main].code + [EXIT]
    {
      this.disk := disk;
      instructions := [HEADER] + disk[main].code + [EXIT];
      placed := map[main := 1];
      order := [main];
      new;
      assert order[..0] == [] && order[..1] == order;
    }

    method AddCode(m: string, ghost importer: string, ghost k: nat)
      requires Valid() && m in disk && m !in placed
      requires importer in placed && importer in disk && k < |disk[importer].fixups|
        && disk[importer].fixups[k].mod == m
      modifies this
      ensures Valid() && order == old(order) + [m]
      ensures placed == old(placed)[m := |old(instructions)|]
      ensures instructions == old(instructions) + disk[m].code
    {
      hide Placed, Imported, Marked;
      PlacedMore(disk, order, placed, |instructions|, m);
      MarkedMore(disk, order, instructions, m);
      ImportedMore(disk, order, placed, |instructions|, importer, k, m);
      placed := placed[m := |instructions|];
      instructions := instructions + disk[m].code;
      order := order + [m];
    }

    /** Applies the fix-ups of a placed module, loading and fixing what it imports on the way. Every
        module loaded meanwhile ends up linked; modules loaded before keep their words. */
    method FixAddressing(m: string)
      requires Valid() && Fixed(disk, placed, instructions, m, 0)
      modifies this
      ensures Valid() && old(order) <= order && Grows(old(placed), placed)
      ensures m in disk && Fixed(disk, placed, instructions, m, |disk[m].fixups|)
      ensures NewLinked(disk, old(placed), placed, instructions)
      ensures Undisturbed(disk, old(placed), old(instructions), instructions, m)
      decreases disk.Keys - placed.Keys, 2
    {
      hide Placed, Linked, Imported, Segment;
      ghost var before, words := placed, instructions;
      var k := 0;
      while k < |disk[m].fixups|
        invariant Valid() && old(order) <= order && Grows(before, placed)
        invariant 0 <= k <= |disk[m].fixups| && Fixed(disk, placed, instructions, m, k)
        invariant NewLinked(disk, before, placed, instructions)
        invariant Undisturbed(disk, before, words, instructions, m)
      {
        FixOneEntry(m, k, before, words);
        k := k + 1;
      }
    }

    method FixOneEntry(m: string, k: nat, ghost before: map<string, nat>, ghost words: seq<Int32>)
      requires Valid() && Fixed(disk, placed, instructions, m, k) && k < |disk[m].fixups|
      requires m in before && Grows(before, placed)
      requires NewLinked(disk, before, placed, instructions)
      requires Undisturbed(disk, before, words, instructions, m)
      modifies this
      ensures Valid() && old(order) <= order && Grows(old(placed), placed)
      ensures Fixed(disk, placed, instructions, m, k + 1)
      ensures NewLinked(disk, before, placed, instructions)
      ensures Undisturbed(disk, before, words, instructions, m)
      decreases disk.Keys - placed.Keys, 1
    {
      hide Placed, Linked, Imported, Segment, NewLinked, Undisturbed, Marked;
      var f := disk[m].fixups[k];
      if f.mod !in placed {
        Load(m, k, before, words);
      }
      PatchCall(m, k, before, words);
    }

    /** Loads the module that fix-up `k` of `m` names, and links it. */
    method Load(m: string, k: nat, ghost before: map<string, nat>, ghost words: seq<Int32>)
      requires Valid() && Fixed(disk, placed, instructions, m, k) && k < |disk[m].fixups|
      requires disk[m].fixups[k].mod !in placed && m in before && Grows(before, placed)
      requires NewLinked(disk, before, placed, instructions)
      requires Undisturbed(disk, before, words, instructions, m)
      modifies this
      ensures Valid() && old(order) <= order && Grows(old(placed), placed)
      ensures disk[m].fixups[k].mod in placed && Fixed(disk, placed, instructions, m, k)
      ensures NewLinked(disk, before, placed, instructions)
      ensures Undisturbed(disk, before, words, instructions, m)
      decreases disk.Keys - placed.Keys, 0
    {
      hide Placed, Linked, Imported, Segment;
      var x := disk[m].fixups[k].mod;
      ghost var was, words0 := placed, instructions;
      PlacedHolds(disk, order, placed, |instructions|);
      AddCode(x, m, k);
      PlacedHolds(disk, order, placed, |instructions|);
      Appended(disk, was, placed, words0, instructions, x);
      ghost var mid, words1 := placed, instructions;
      FixAddressing(x);
      UndisturbedOn(disk, was, mid, words0, words1, instructions, x);
      StillFixed(disk, was, placed, words0, instructions, x, m, k);
      LinkedSince(disk, before, was, mid, placed, words0, instructions, x);
      UndisturbedFrom(disk, before, was, words, words0, instructions, x, m);
    }

    method PatchCall(m: string, k: nat, ghost before: map<string, nat>, ghost words: seq<Int32>)
      requires Valid() && Fixed(disk, placed, instructions, m, k) && k < |disk[m].fixups|
      requires disk[m].fixups[k].mod in placed && m in before && Grows(before, placed)
      requires NewLinked(disk, before, placed, instructions)
      requires Undisturbed(disk, before, words, instructions, m)
      modifies this`instructions
      ensures Valid() && Fixed(disk, placed, instructions, m, k + 1)
      ensures NewLinked(disk, before, placed, instructions)
      ensures Undisturbed(disk, before, words, instructions, m)
    {
      hide Placed, Linked, NewLinked, Undisturbed, Imported, Segment;
      var f := disk[m].fixups[k];
      var symbols := disk[f.mod].symbols;
      var at := placed[m] + f.offset - 1;
      ghost var old' := instructions;
      var j := 0;
      while j < |symbols|
        invariant 0 <= j <= |symbols|
        invariant instructions == old'[at := Patch(old'[at], symbols[..j], f.name, placed[f.mod])]
      {
        assert symbols[..j + 1][..j] == symbols[..j];
        if symbols[j].name == f.name {
          instructions := instructions[at := FixCommand(instructions[at], symbols[j].offset + placed[f.mod] - 1)];
        }
        j := j + 1;
      }
      assert symbols[..j] == symbols;
      AwayFromMarks(disk, order, placed, |old'|, m, disk[m].fixups[k].offset);
      OneWordPatched(disk, order, placed, old', instructions, m, k, before, words);
    }
  }

  lemma AwayFromMarks(disk: Disk, order: seq<string>, placed: map<string, nat>, total: nat, m: string, offset: int)
    requires Placed(disk, order, placed, total) && m in placed && m in disk && 1 <= offset <= |disk[m].code|
    ensures placed[m] + offset - 1 != 0 && placed[m] + offset - 1 != 1 + |disk[order[0]].code|
  {
    var i :| 0 <= i < |order| && order[i] == m;
    assert order[..0] == [];
    if i > 0 {
      SizesGrow(disk, order, 0, i);
    }
  }

  lemma PlacedHolds(disk: Disk, order: seq<string>, placed: map<string, nat>, total: nat)
    requires Placed(disk, order, placed, total)
    ensures forall m :: m in placed ==> Fits(disk, placed, total, m)
  {
    forall m | m in placed ensures Fits(disk, placed, total, m) {
      PlacedFits(disk, order, placed, total, m);
    }
  }

  /** Patching one call site of `m` completes its next fix-up and touches no other module. */
  lemma OneWordPatched(disk: Disk, order: seq<string>, placed: map<string, nat>, old': seq<Int32>, now: seq<Int32>,
                       m: string, k: nat, before: map<string, nat>, words: seq<Int32>)
    requires WellFormed(disk) && Placed(disk, order, placed, |old'|)
    requires Fixed(disk, placed, old', m, k) && k < |disk[m].fixups| && disk[m].fixups[k].mod in placed
    requires Grows(before, placed) && NewLinked(disk, before, placed, old') && Undisturbed(disk, before, words, old', m)
    requires m in before
    requires var f := disk[m].fixups[k];
      var at := placed[m] + f.offset - 1;
      && 0 <= at < |old'|
      && now == old'[at := Patch(old'[at], disk[f.mod].symbols, f.name, placed[f.mod])]
    ensures Fixed(disk, placed, now, m, k + 1)
    ensures NewLinked(disk, before, placed, now) && Undisturbed(disk, before, words, now, m)
  {
    hide Placed, Linked;
    forall x | x in placed && x != m && Fits(disk, placed, |old'|, x)
      ensures Segment(now, placed[x], |disk[x].code|) == Segment(old', placed[x], |disk[x].code|)
    {
      PlacedApart(disk, order, placed, |old'|, m, x);
    }
    NextFixup(disk, placed, old', now, m, k);
    forall x | x in placed && x !in before ensures x in disk && Fixed(disk, placed, now, x, |disk[x].fixups|) {
      SegmentKept(disk, placed, placed, old', now, x, |disk[x].fixups|);
    }
  }

  lemma NextFixup(disk: Disk, placed: map<string, nat>, old': seq<Int32>, now: seq<Int32>, m: string, k: nat)
    requires Fixed(disk, placed, old', m, k) && k < |disk[m].fixups| && disk[m].fixups[k].mod in placed
    requires var f := disk[m].fixups[k];
      var at := placed[m] + f.offset - 1;
      && 0 <= at < |old'|
      && now == old'[at := Patch(old'[at], disk[f.mod].symbols, f.name, placed[f.mod])]
    ensures Fixed(disk, placed, now, m, k + 1)
  {
    var f := disk[m].fixups[k];
    var was := Segment(old', placed[m], |disk[m].code|);
    assert was[f.offset - 1] == old'[placed[m] + f.offset - 1];
    assert Segment(now, placed[m], |disk[m].code|)
        == was[f.offset - 1 := Patch(was[f.offset - 1], disk[f.mod].symbols, f.name, placed[f.mod])];
  }

  lemma Appended(disk: Disk, was: map<string, nat>, placed: map<string, nat>, words: seq<Int32>, words': seq<Int32>,
      x: string)
    requires WellFormed(disk) && x in disk && x !in was && placed == was[x := |words|]
    requires words' == words + disk[x].code && Fits(disk, placed, |words'|, x)
    ensures Fixed(disk, placed, words', x, 0) && Grows(was, placed)
    ensures Undisturbed(disk, was, words, words', x)
  {
  }

  /** Links a program. It terminates for cyclic imports too, places every loaded module once and
      without gaps, and leaves each module's words as its fix-ups say. */
  method Link(disk: Disk, main: string) returns (b: BinaryFile)
    requires WellFormed(disk) && main in disk
    ensures fresh(b) && b.disk == disk && b.order != [] && b.order[0] == main
    ensures Placed(disk, b.order, b.placed, |b.instructions|) && Imported(disk, b.order)
      && Marked(disk, b.order, b.instructions)
    ensures forall m :: m in b.placed ==> m in disk && Fixed(disk, b.placed, b.instructions, m, |disk[m].fixups|)
  {
    b := new BinaryFile(disk, main);
    PlacedHolds(disk, b.order, b.placed, |b.instructions|);
    ghost var was := b.placed;
    assert b.placed[main] == 1;
    assert Segment(b.instructions, 1, |disk[main].code|) == disk[main].code;
    b.FixAddressing(main);
    forall m | m in b.placed ensures m in disk && Fixed(disk, b.placed, b.instructions, m, |disk[m].fixups|) {
      if m in was {
        assert m == main;
      }
    }
  }

  // ----- what the linked words say -----

  lemma FixedField(w: Int32, value: int)
    requires 0 <= value < P26
    ensures Bits(FixCommand(w, value)) == Bits(w) / P26 * P26 + value
    ensures Bits(FixCommand(w, value)) / P26 == Bits(w) / P26 && Bits(FixCommand(w, value)) % P26 == value
  {
  }

  /** All addresses of the module's symbols fit the address field. */
  ghost predicate Addressable(symbols: seq<SymbolOffset>, base: int) {
    forall j :: 0 <= j < |symbols| ==> 0 <= symbols[j].offset + base - 1 < P25
  }

  /** `j` is the entry for the name (the last one, should there be several). */
  ghost predicate Names(symbols: seq<SymbolOffset>, name: string, j: nat) {
    j < |symbols| && symbols[j].name == name && forall i :: j < i < |symbols| ==> symbols[i].name != name
  }

  lemma {:induction false} PatchKeepsOp(w: Int32, symbols: seq<SymbolOffset>, name: string, base: int)
    requires Addressable(symbols, base)
    ensures Bits(Patch(w, symbols, name, base)) / P26 == Bits(w) / P26
  {
    if symbols != [] {
      var n := |symbols| - 1;
      PatchKeepsOp(w, symbols[..n], name, base);
      FixedField(Patch(w, symbols[..n], name, base), symbols[n].offset + base - 1);
    }
  }

  lemma {:induction false} PatchPoints(w: Int32, symbols: seq<SymbolOffset>, name: string, base: int, j: nat)
    requires Addressable(symbols, base) && Names(symbols, name, j)
    ensures var r := Bits(Patch(w, symbols, name, base));
      r / P26 == Bits(w) / P26 && r % P26 == symbols[j].offset + base - 1
  {
    var n := |symbols| - 1;
    if j == n {
      PatchKeepsOp(w, symbols[..n], name, base);
      FixedField(Patch(w, symbols[..n], name, base), symbols[n].offset + base - 1);
    } else {
      PatchPoints(w, symbols[..n], name, base, j);
    }
  }

  lemma {:induction false} UnlistedWord(disk: Disk, placed: map<string, nat>, m: string, k: nat, i: nat)
    requires WellFormed(disk) && m in disk && k <= |disk[m].fixups| && i < |disk[m].code|
    requires forall e :: 0 <= e < k ==> disk[m].fixups[e].mod in placed
    requires forall e :: 0 <= e < k ==> disk[m].fixups[e].offset != i + 1
    ensures Linked(disk, placed, m, k)[i] == disk[m].code[i]
  {
    if k > 0 {
      UnlistedWord(disk, placed, m, k - 1, i);
    }
  }

  ghost predicate AllAddressable(disk: Disk, placed: map<string, nat>) {
    forall m :: m in placed && m in disk ==> Addressable(disk[m].symbols, placed[m])
  }

  lemma {:induction false} LinkedKeepsOp(disk: Disk, placed: map<string, nat>, m: string, k: nat, i: nat)
    requires WellFormed(disk) && m in disk && k <= |disk[m].fixups| && i < |disk[m].code|
    requires forall e :: 0 <= e < k ==> disk[m].fixups[e].mod in placed
    requires AllAddressable(disk, placed)
    ensures Bits(Linked(disk, placed, m, k)[i]) / P26 == Bits(disk[m].code[i]) / P26
  {
    if k > 0 {
      var f := disk[m].fixups[k - 1];
      LinkedKeepsOp(disk, placed, m, k - 1, i);
      PatchKeepsOp(Linked(disk, placed, m, k - 1)[i], disk[f.mod].symbols, f.name, placed[f.mod]);
    }
  }

  lemma {:induction false} ListedWord(disk: Disk, placed: map<string, nat>, m: string, k: nat, e: nat, j: nat)
    requires WellFormed(disk) && m in disk && e < k <= |disk[m].fixups|
    requires forall e' :: 0 <= e' < k ==> disk[m].fixups[e'].mod in placed
    requires AllAddressable(disk, placed)
    requires forall e' :: e < e' < k ==> disk[m].fixups[e'].offset != disk[m].fixups[e].offset
    requires var f := disk[m].fixups[e];
      Names(disk[f.mod].symbols, f.name, j)
    ensures var f := disk[m].fixups[e];
      var u := Bits(Linked(disk, placed, m, k)[f.offset - 1]);
      && u / P26 == Bits(disk[m].code[f.offset - 1]) / P26
      && u % P26 == disk[f.mod].symbols[j].offset + placed[f.mod] - 1
  {
    var f := disk[m].fixups[e];
    if k == e + 1 {
      LinkedKeepsOp(disk, placed, m, e, f.offset - 1);
      PatchPoints(Linked(disk, placed, m, e)[f.offset - 1], disk[f.mod].symbols, f.name, placed[f.mod], j);
    } else {
      ListedWord(disk, placed, m, k - 1, e, j);
    }
  }

  /** The word at a listed call site of a linked module decodes to a call of the final address of the
      symbol it names, if a call stood there. */
  lemma CallsPointHome(disk: Disk, placed: map<string, nat>, words: seq<Int32>, m: string, e: nat, j: nat)
    requires m in disk && Fixed(disk, placed, words, m, |disk[m].fixups|) && AllAddressable(disk, placed)
    requires e < |disk[m].fixups|
    requires forall e' :: e < e' < |disk[m].fixups| ==> disk[m].fixups[e'].offset != disk[m].fixups[e].offset
    requires var f := disk[m].fixups[e];
      && Names(disk[f.mod].symbols, f.name, j)
      && OpOf(Bits(disk[m].code[f.offset - 1]) / P26) == Some(Bsr)
    ensures var f := disk[m].fixups[e];
      Decode(words[placed[m] + f.offset - 1])
      == Some(Instr(Bsr, 0, 0, placed[f.mod] + disk[f.mod].symbols[j].offset - 1))
  {
    var f := disk[m].fixups[e];
    var n := |disk[m].code|;
    ListedWord(disk, placed, m, |disk[m].fixups|, e, j);
    assert Segment(words, placed[m], n)[f.offset - 1] == words[placed[m] + f.offset - 1];
    var u := Bits(words[placed[m] + f.offset - 1]);
    assert Addressable(disk[f.mod].symbols, placed[f.mod]);
    assert u % P26 < P25;
    assert u / P25 % 2 == 0 && u % P25 == u % P26;
  }

  /** Every other word of a linked module is as the compiler left it. */
  lemma OthersUnchanged(disk: Disk, placed: map<string, nat>, words: seq<Int32>, m: string, i: nat)
    requires m in disk && Fixed(disk, placed, words, m, |disk[m].fixups|) && i < |disk[m].code|
    requires forall e :: 0 <= e < |disk[m].fixups| ==> disk[m].fixups[e].offset != i + 1
    ensures words[placed[m] + i] == disk[m].code[i]
  {
    UnlistedWord(disk, placed, m, |disk[m].fixups|, i);
    assert Segment(words, placed[m], |disk[m].code|)[i] == words[placed[m] + i];
  }
}
