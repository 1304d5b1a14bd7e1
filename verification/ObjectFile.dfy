/** The object file format: writing a module and scanning it back. */
module ObjectFiles {
  import opened Machine
  import opened Source
  import opened Encoding
  import FixupPath

  type Byte = x: int | 0 <= x < 256

  /** A row of the symbol table or of the fix-up table. */
  datatype Entry = Entry(name: string, value: Int32)

  // ----- words -----

  /** Big-endian, as RandomAccessFile.writeInt has it. */
  function WordBytes(w: Int32): (r: seq<Byte>)
    ensures |r| == 4
  {
    var u := Bits(w);
    [u / 0x100_0000, u / 0x1_0000 % 0x100, u / 0x100 % 0x100, u % 0x100]
  }

  function BytesWord(a: Byte, b: Byte, c: Byte, d: Byte): Int32 {
    Wrap(a * 0x100_0000 + b * 0x1_0000 + c * 0x100 + d)
  }

  lemma WordRoundTrip(w: Int32)
    ensures var r := WordBytes(w);
      BytesWord(r[0], r[1], r[2], r[3]) == w
  {
    var u := Bits(w);
    assert u / 0x1_0000 == u / 0x100_0000 * 0x100 + u / 0x1_0000 % 0x100;
    assert u / 0x100 == u / 0x1_0000 * 0x100 + u / 0x100 % 0x100;
    assert u == u / 0x100 * 0x100 + u % 0x100;
  }

  /** The highest byte comes first, and the number is a two's complement one. */
  lemma HighestFirst(w: Int32)
    ensures var r := WordBytes(w); var b0: int, b1: int, b2: int, b3: int := r[0], r[1], r[2], r[3];
      b0 * 0x100_0000 + b1 * 0x1_0000 + b2 * 0x100 + b3 == if w >= 0 then w else w + 0x1_0000_0000
  {
    var u := Bits(w);
    assert u / 0x1_0000 == u / 0x100_0000 * 0x100 + u / 0x1_0000 % 0x100;
    assert u / 0x100 == u / 0x1_0000 * 0x100 + u / 0x100 % 0x100;
    assert u == u / 0x100 * 0x100 + u % 0x100;
  }

  lemma BytesRoundTrip(a: Byte, b: Byte, c: Byte, d: Byte)
    ensures WordBytes(BytesWord(a, b, c, d)) == [a, b, c, d]
  {
    var u := a * 0x100_0000 + b * 0x1_0000 + c * 0x100 + d;
    BitsOfWrap(u);
    Bytes(a, b, c, d);
  }

  lemma Bytes(a: Byte, b: Byte, c: Byte, d: Byte)
    ensures var u := a * 0x100_0000 + b * 0x1_0000 + c * 0x100 + d;
      u / 0x100_0000 == a && u / 0x1_0000 % 0x100 == b && u / 0x100 % 0x100 == c && u % 0x100 == d
  {
    var u: int := a * 0x100_0000 + b * 0x1_0000 + c * 0x100 + d;
    assert u / 0x100 == a * 0x1_0000 + b * 0x100 + c;
    assert u / 0x1_0000 == a * 0x100 + b;
  }

  // ----- tables -----

  /** Names the format can carry: ASCII without the delimiter. */
  predicate Plain(name: string) {
    forall i :: 0 <= i < |name| ==> name[i] as int < 128 && name[i] != '='
  }

  predicate PlainTable(entries: seq<Entry>) {
    forall i :: 0 <= i < |entries| ==> Plain(entries[i].name)
  }

  /** Zeros that fill the last word. */
  function Padding(n: nat): (p: nat)
    ensures p < 4 && (n + p) % 4 == 0
  {
    if n % 4 == 0 then 0 else 4 - n % 4
  }

  function Ascii(s: string): (r: seq<Byte>)
    requires forall i :: 0 <= i < |s| ==> s[i] as int < 128
    ensures |r| == |s|
  {
    seq(|s|, i requires 0 <= i < |s| => s[i] as int)
  }

  function Zeros(n: nat): (r: string)
    ensures |r| == n
  {
    seq(n, _ => '0')
  }

  function Padded(name: string): (r: string)
    ensures |r| % 4 == 0 && |name| < |r|
  {
    name + "=" + Zeros(Padding(|name| + 1))
  }

  lemma PaddedIsAscii(name: string)
    requires Plain(name)
    ensures forall i :: 0 <= i < |Padded(name)| ==> Padded(name)[i] as int < 128
  {
  }

  lemma AsciiStep(s: string, i: nat)
    requires i + 4 <= |s| && forall k :: 0 <= k < |s| ==> s[k] as int < 128
    ensures Ascii(s)[..i + 4] == Ascii(s)[..i] + [s[i] as int, s[i + 1] as int, s[i + 2] as int, s[i + 3] as int]
  {
  }

  lemma NameAhead(bytes: seq<Byte>, start: nat, name: string, tail: seq<Byte>)
    requires start <= |bytes| && Plain(name)
    requires bytes[start..] == Ascii(Padded(name)) + tail
    ensures start + |Padded(name)| <= |bytes| && bytes[start + |Padded(name)|..] == tail
    ensures |Padded(name)| == |name| + 1 + Padding(|name| + 1)
    ensures forall k {:trigger name[k]} :: 0 <= k < |name| ==> bytes[start + k] == name[k] as int && name[k] != '='
    ensures bytes[start + |name|] == '=' as int
  {
    var rest := bytes[start..];
    assert forall k :: 0 <= k < |rest| ==> rest[k] == bytes[start + k];
    assert forall k :: 0 <= k < |name| ==> rest[k] == name[k] as int;
    assert rest[|name|] == '=' as int;
    assert bytes[start + |Padded(name)|..] == rest[|Padded(name)|..];
  }

  function EntryBytes(e: Entry): (r: seq<Byte>)
    requires Plain(e.name)
    ensures |r| == |Padded(e.name)| + 4 && |r| % 4 == 0
  {
    Ascii(Padded(e.name)) + WordBytes(e.value)
  }

  lemma WholeWords(a: nat, b: nat)
    requires a % 4 == 0 && b % 4 == 0
    ensures (a + b) % 4 == 0
  {
  }

  /** A row is the name, a '=', as many '0' as fill the last word, and the value. */
  lemma RowLayout(e: Entry)
    requires Plain(e.name)
    ensures var r, n := EntryBytes(e), |e.name|;
      && |r| % 4 == 0 && n + 5 <= |r| <= n + 8
      && (forall k :: 0 <= k < n ==> r[k] == e.name[k] as int) && r[n] == 61
      && (forall k :: n < k < |r| - 4 ==> r[k] == 48)
      && r[|r| - 4..] == WordBytes(e.value)
  {
  }

  function TableBytes(entries: seq<Entry>): (r: seq<Byte>)
    requires PlainTable(entries)
    ensures |r| % 4 == 0
  {
    if entries == [] then []
    else
      WholeWords(|EntryBytes(entries[0])|, |TableBytes(entries[1..])|);
      EntryBytes(entries[0]) + TableBytes(entries[1..])
  }

  lemma {:induction false} TableAppends(entries: seq<Entry>, e: Entry)
    requires PlainTable(entries) && Plain(e.name)
    ensures TableBytes(entries + [e]) == TableBytes(entries) + EntryBytes(e)
  {
    if entries == [] {
      assert TableBytes([e]) == EntryBytes(e) + TableBytes([]);
    } else {
      assert (entries + [e])[1..] == entries[1..] + [e];
      TableAppends(entries[1..], e);
    }
  }

  lemma TableRow(entries: seq<Entry>, k: nat, tail: seq<Byte>)
    requires k < |entries| && PlainTable(entries)
    ensures Plain(entries[k].name)
    ensures TableBytes(entries[k..]) + tail == EntryBytes(entries[k]) + (TableBytes(entries[k + 1..]) + tail)
    ensures |TableBytes(entries[k..])| == |EntryBytes(entries[k])| + |TableBytes(entries[k + 1..])|
  {
    assert entries[k..][1..] == entries[k + 1..];
  }

  lemma NoBytesNoRows(entries: seq<Entry>)
    requires PlainTable(entries) && TableBytes(entries) == []
    ensures entries == []
  {
  }

  function CodeBytes(code: seq<Int32>): (r: seq<Byte>)
    ensures |r| == 4 * |code|
  {
    if code == [] then [] else WordBytes(code[0]) + CodeBytes(code[1..])
  }

  lemma {:induction false} CodeAppends(code: seq<Int32>, w: Int32)
    ensures CodeBytes(code + [w]) == CodeBytes(code) + WordBytes(w)
  {
    if code == [] {
      assert CodeBytes([w]) == WordBytes(w) + CodeBytes([]);
    } else {
      assert (code + [w])[1..] == code[1..] + [w];
      CodeAppends(code[1..], w);
    }
  }

  datatype Contents = Contents(mainCall: Int32, symbols: seq<Entry>, fixups: seq<Entry>, code: seq<Int32>)

  /** What a scan finds: the fix-up table is missing if one of its paths is refused, and then the code is not
      looked for. */
  datatype Scanned = Scanned(mainCall: Int32, symbols: seq<Entry>, fixups: FixupPath.Option<seq<FixupPath.FixUp>>,
                             code: seq<Int32>)

  function Rows(entries: seq<Entry>): (r: seq<(string, int)>)
    ensures |r| == |entries|
  {
    seq(|entries|, i requires 0 <= i < |entries| => (entries[i].name, entries[i].value))
  }

  lemma SplitNext(rows: seq<(string, int)>, k: nat, table: seq<FixupPath.FixUp>)
    requires k < |rows|
    ensures rows[k..][1..] == rows[k + 1..]
    ensures match FixupPath.SplitPath(rows[k].0)
      case None => FixupPath.SplitAll(rows[k..]).None?
      case Some(p) =>
        Found(table, FixupPath.SplitAll(rows[k..]))
        == Found(table + [FixupPath.FixUp(p.0, p.1, rows[k].1)], FixupPath.SplitAll(rows[k + 1..]))
  {
    hide FixupPath.SplitPath;
    match FixupPath.SplitPath(rows[k].0)
    case None =>
    case Some(p) =>
      match FixupPath.SplitAll(rows[k + 1..])
      case None =>
      case Some(rest) =>
        var f := [FixupPath.FixUp(p.0, p.1, rows[k].1)];
        assert table + (f + rest) == table + f + rest;
  }

  /** What is found in front, and what the rest of the table gives. */
  function Found(table: seq<FixupPath.FixUp>, rest: FixupPath.Option<seq<FixupPath.FixUp>>)
    : FixupPath.Option<seq<FixupPath.FixUp>>
  {
    match rest
    case None => FixupPath.None
    case Some(r) => FixupPath.Some(table + r)
  }

  lemma FoundAll(table: seq<FixupPath.FixUp>)
    ensures Found(table, FixupPath.SplitAll([])) == FixupPath.Some(table)
  {
    assert table + [] == table;
  }

  lemma FoundNothing(rest: FixupPath.Option<seq<FixupPath.FixUp>>)
    ensures Found([], rest) == rest
  {
    match rest
    case None =>
    case Some(r) => assert [] + r == r;
  }

  /** A table of rows 'module.name' with offsets comes back as its fix-ups, or is refused for an empty name. */
  lemma RowsComeBack(fixups: seq<FixupPath.FixUp>, entries: seq<Entry>)
    requires FixupPath.Dotless(fixups) && |entries| == |fixups|
    requires forall i :: 0 <= i < |fixups| ==>
      entries[i].name == fixups[i].mod + "." + fixups[i].name && entries[i].value == fixups[i].offset
    ensures FixupPath.SplitAll(Rows(entries))
      == if FixupPath.Named(fixups) then FixupPath.Some(fixups) else FixupPath.None
  {
    FixupPath.FixUpsComeBack(fixups);
    assert Rows(entries) == FixupPath.Joined(fixups);
  }

  lemma FoundNone(table: seq<FixupPath.FixUp>, rest: FixupPath.Option<seq<FixupPath.FixUp>>)
    requires rest.None?
    ensures Found(table, rest) == FixupPath.None
  {
  }

  ghost predicate Storable(c: Contents) {
    && PlainTable(c.symbols) && PlainTable(c.fixups)
    && |TableBytes(c.symbols)| < 0x8000_0000 && |TableBytes(c.fixups)| < 0x8000_0000
  }

  ghost function FileBytes(c: Contents): seq<Byte>
    requires Storable(c)
  {
    WordBytes(0) + WordBytes(c.mainCall)
    + WordBytes(|TableBytes(c.symbols)| / 4) + TableBytes(c.symbols)
    + WordBytes(|TableBytes(c.fixups)| / 4) + TableBytes(c.fixups)
    + CodeBytes(c.code)
  }

  lemma ZeroWord()
    ensures WordBytes(0) == [0, 0, 0, 0]
  {
  }

  /** A zero, the call of the main method, and both tables behind their lengths in words; the code is the rest. */
  lemma FileLayout(c: Contents)
    requires Storable(c)
    ensures var f, s, x := FileBytes(c), |TableBytes(c.symbols)|, |TableBytes(c.fixups)|;
      && |f| == 16 + s + x + 4 * |c.code|
      && f[..4] == [0, 0, 0, 0] && f[4..8] == WordBytes(c.mainCall)
      && s % 4 == 0 && f[8..12] == WordBytes(s / 4) && f[12..12 + s] == TableBytes(c.symbols)
      && x % 4 == 0 && f[12 + s..16 + s] == WordBytes(x / 4) && f[16 + s..16 + s + x] == TableBytes(c.fixups)
      && f[16 + s + x..] == CodeBytes(c.code)
  {
    hide TableBytes, CodeBytes, WordBytes, PlainTable;
    ZeroWord();
  }

  lemma Nest(a: seq<Byte>, b: seq<Byte>, c: seq<Byte>, d: seq<Byte>, e: seq<Byte>, f: seq<Byte>, g: seq<Byte>)
    ensures a + b + c + d + e + f + g == a + (b + (c + (d + (e + (f + g)))))
  {
    assert a + b + c + d + e + f + g == a + (b + c + d + e + f + g);
    assert b + c + d + e + f + g == b + (c + d + e + f + g);
    assert c + d + e + f + g == c + (d + e + f + g);
    assert d + e + f + g == d + (e + f + g);
  }

  /** The number of words a table will take, computed before it is written. */
  method TableLength(entries: seq<Entry>) returns (size: nat)
    requires PlainTable(entries)
    ensures size * 4 == |TableBytes(entries)|
  {
    size := 0;
    var i := 0;
    while i < |entries|
      invariant 0 <= i <= |entries|
      invariant size * 4 == |TableBytes(entries[..i])|
    {
      var count := |entries[i].name + "="|;
      size := size + if count % 4 == 0 then count / 4 + 1 else count / 4 + 2;
      assert entries[..i + 1] == entries[..i] + [entries[i]];
      TableAppends(entries[..i], entries[i]);
      i := i + 1;
    }
    assert entries[..i] == entries;
  }

  class ObjectFile {
    var bytes: seq<Byte>
    var pos: nat

    constructor (bytes: seq<Byte>)
      ensures this.bytes == bytes && pos == 0
    {
      this.bytes := bytes;
      pos := 0;
    }

    ghost predicate AtEnd()
      reads this
    {
      pos == |bytes|
    }

    // ----- writing -----

    method WriteInt(w: Int32)
      requires AtEnd()
      modifies this
      ensures AtEnd() && bytes == old(bytes) + WordBytes(w)
    {
      bytes := bytes + WordBytes(w);
      pos := pos + 4;
    }

    method WriteTable(entries: seq<Entry>)
      requires AtEnd() && PlainTable(entries)
      modifies this
      ensures AtEnd() && bytes == old(bytes) + TableBytes(entries)
    {
      hide Padded, Ascii, WordBytes, Plain;
      var i := 0;
      while i < |entries|
        invariant 0 <= i <= |entries| && AtEnd()
        invariant bytes == old(bytes) + TableBytes(entries[..i])
      {
        assert entries[..i + 1] == entries[..i] + [entries[i]];
        TableAppends(entries[..i], entries[i]);
        WriteName(entries[i].name);
        WriteInt(entries[i].value);
        i := i + 1;
      }
      assert entries[..i] == entries;
    }

    /** Packs four characters at a time into a word. */
    method WriteName(name: string)
      requires AtEnd() && Plain(name)
      modifies this
      ensures AtEnd() && bytes == old(bytes) + Ascii(Padded(name))
    {
      hide Padded, Ascii, Plain, WordBytes, BytesWord;
      PaddedIsAscii(name);
      var elem := Padded(name);
      var i := 0;
      while i < |elem|
        invariant 0 <= i <= |elem| && i % 4 == 0 && AtEnd()
        invariant bytes == old(bytes) + Ascii(elem)[..i]
      {
        var a, b, c, d := elem[i] as int, elem[i + 1] as int, elem[i + 2] as int, elem[i + 3] as int;
        BytesRoundTrip(a, b, c, d);
        WriteInt(BytesWord(a, b, c, d));
        AsciiStep(elem, i);
        i := i + 4;
      }
      assert Ascii(elem)[..i] == Ascii(elem);
    }

    method WriteObjectFile(c: Contents)
      requires bytes == [] && AtEnd() && Storable(c)
      modifies this
      ensures bytes == FileBytes(c)
    {
      hide WordBytes, TableBytes, PlainTable;
      WriteInt(0);
      WriteInt(c.mainCall);
      var symbolWords := TableLength(c.symbols);
      WriteInt(symbolWords);
      WriteTable(c.symbols);
      var fixupWords := TableLength(c.fixups);
      WriteInt(fixupWords);
      WriteTable(c.fixups);
      WriteOpCode(c.code);
    }

    method WriteOpCode(code: seq<Int32>)
      requires AtEnd()
      modifies this
      ensures AtEnd() && bytes == old(bytes) + CodeBytes(code)
    {
      hide WordBytes, CodeBytes;
      var i := 0;
      assert CodeBytes(code[..0]) == [];
      while i < |code|
        invariant 0 <= i <= |code| && AtEnd()
        invariant bytes == old(bytes) + CodeBytes(code[..i])
      {
        assert code[..i + 1] == code[..i] + [code[i]];
        CodeAppends(code[..i], code[i]);
        WriteInt(code[i]);
        i := i + 1;
      }
      assert code[..i] == code;
    }

    // ----- reading -----

    /** What is still to be read. */
    ghost function Rest(): seq<Byte>
      requires pos <= |bytes|
      reads this
    {
      bytes[pos..]
    }

    method ReadNextWord() returns (r: Option<Int32>)
      requires pos <= |bytes|
      modifies this`pos
      ensures pos <= |bytes|
      ensures r.None? <==> old(|Rest()|) < 4
      ensures r.None? ==> pos == old(pos)
      ensures r.Some? ==> pos == old(pos) + 4 && old(Rest()) == WordBytes(r.value) + Rest()
    {
      if |bytes| < pos + 4 {
        return None;
      }
      var a, b, c, d := bytes[pos], bytes[pos + 1], bytes[pos + 2], bytes[pos + 3];
      BytesRoundTrip(a, b, c, d);
      assert bytes[pos..] == [a, b, c, d] + bytes[pos + 4..];
      pos := pos + 4;
      return Some(BytesWord(a, b, c, d));
    }

    /** Reads a name up to its delimiter and on to the next word. */
    method ReadStringFromFile(ghost name: string, ghost tail: seq<Byte>) returns (value: string)
      requires pos <= |bytes| && pos % 4 == 0
      requires Plain(name) && Rest() == Ascii(Padded(name)) + tail
      modifies this`pos
      ensures value == name && pos <= |bytes| && pos % 4 == 0 && Rest() == tail
    {
      hide Padded, Ascii, Plain;
      ghost var start := pos;
      NameAhead(bytes, start, name, tail);
      var delimiter := '=' as int;
      value := "";
      var bytesRead := 0;
      var currentByte := bytes[pos];
      pos := pos + 1;
      while currentByte != delimiter
        invariant 0 <= bytesRead <= |name| && pos == start + bytesRead + 1 <= |bytes|
        invariant currentByte == bytes[start + bytesRead]
        invariant value == name[..bytesRead]
        invariant bytesRead < |name| ==> name[bytesRead] != '=' && currentByte == name[bytesRead] as int
        decreases |name| - bytesRead
      {
        bytesRead := bytesRead + 1;
        value := value + [currentByte as char];
        currentByte := bytes[pos];
        pos := pos + 1;
      }
      assert name[..bytesRead] == name;
      bytesRead := bytesRead + 1;
      var bytesToRead := bytesRead % 4;
      if bytesToRead > 0 {
        bytesToRead := 4 - bytesToRead;
      }
      pos := pos + bytesToRead;
    }

    method ReadRow(ghost e: Entry, ghost tail: seq<Byte>) returns (row: Entry)
      requires pos <= |bytes| && pos % 4 == 0 && Plain(e.name) && Rest() == EntryBytes(e) + tail
      modifies this`pos
      ensures row == e && pos <= |bytes| && pos % 4 == 0 && Rest() == tail
    {
      hide Padded, WordBytes;
      PaddedIsAscii(e.name);
      assert Rest() == Ascii(Padded(e.name)) + (WordBytes(e.value) + tail);
      var name := ReadStringFromFile(e.name, WordBytes(e.value) + tail);
      var value := ReadWord(e.value, tail);
      row := Entry(name, value);
    }

    /** Reads rows until `size` words are used up. */
    method ReadTable(size: nat, ghost entries: seq<Entry>, ghost tail: seq<Byte>) returns (table: seq<Entry>)
      requires pos <= |bytes| && pos % 4 == 0 && PlainTable(entries)
      requires size * 4 == |TableBytes(entries)| && Rest() == TableBytes(entries) + tail
      modifies this`pos
      ensures table == entries && pos <= |bytes| && pos % 4 == 0 && Rest() == tail
    {
      hide EntryBytes, Padded, Ascii, Plain;
      var tableOffset := pos / 4;
      table := [];
      ghost var k := 0;
      assert entries[0..] == entries;
      while pos / 4 < tableOffset + size
        invariant pos <= |bytes| && pos % 4 == 0
        invariant 0 <= k <= |entries| && table == entries[..k]
        invariant Rest() == TableBytes(entries[k..]) + tail
        invariant pos + |TableBytes(entries[k..])| == 4 * (tableOffset + size)
        decreases |entries| - k
      {
        TableRow(entries, k, tail);
        var row := ReadRow(entries[k], TableBytes(entries[k + 1..]) + tail);
        table := table + [row];
        k := k + 1;
      }
      NoBytesNoRows(entries[k..]);
      assert entries[..k] == entries;
    }

    /** Reads rows and takes their paths apart until `size` words are used up, or a path is refused. */
    method ReadFixupTable(size: nat, ghost entries: seq<Entry>, ghost tail: seq<Byte>)
      returns (table: FixupPath.Option<seq<FixupPath.FixUp>>)
      requires pos <= |bytes| && pos % 4 == 0 && PlainTable(entries)
      requires size * 4 == |TableBytes(entries)| && Rest() == TableBytes(entries) + tail
      modifies this`pos
      ensures table == FixupPath.SplitAll(Rows(entries)) && pos <= |bytes| && pos % 4 == 0
      ensures table.Some? ==> Rest() == tail
    {
      hide EntryBytes, Padded, Ascii, Plain, FixupPath.SplitPath, FixupPath.SplitAll, Found;
      var tableOffset := pos / 4;
      ghost var k, rows := 0, Rows(entries);
      var found: seq<FixupPath.FixUp> := [];
      assert entries[0..] == entries && rows[0..] == rows;
      FoundNothing(FixupPath.SplitAll(rows));
      while pos / 4 < tableOffset + size
        invariant pos <= |bytes| && pos % 4 == 0
        invariant 0 <= k <= |entries|
        invariant Found(found, FixupPath.SplitAll(rows[k..])) == FixupPath.SplitAll(rows)
        invariant Rest() == TableBytes(entries[k..]) + tail
        invariant pos + |TableBytes(entries[k..])| == 4 * (tableOffset + size)
        decreases |entries| - k
      {
        TableRow(entries, k, tail);
        SplitNext(rows, k, found);
        var row := ReadRow(entries[k], TableBytes(entries[k + 1..]) + tail);
        var path := FixupPath.SplitPath(row.name);
        if path.None? {
          FoundNone(found, FixupPath.SplitAll(rows[k..]));
          return FixupPath.None;
        }
        found := found + [FixupPath.FixUp(path.value.0, path.value.1, row.value)];
        k := k + 1;
      }
      NoBytesNoRows(entries[k..]);
      assert rows[k..] == [];
      FoundAll(found);
      table := FixupPath.Some(found);
    }

    method ReadWord(ghost w: Int32, ghost tail: seq<Byte>) returns (r: Int32)
      requires pos <= |bytes| && Rest() == WordBytes(w) + tail
      modifies this`pos
      ensures r == w && pos == old(pos) + 4 <= |bytes| && Rest() == tail
    {
      var word := ReadNextWord();
      r := word.value;
      assert Rest() == (WordBytes(w) + tail)[4..];
      assert WordBytes(r) == (WordBytes(w) + tail)[..4];
      WordRoundTrip(r);
      WordRoundTrip(w);
    }

    /** Scanning a written file gives back everything that was written: the call of main, both tables in
        order, and the code; unless a path in the fix-up table does not consist of two pieces. */
    method ScanFile(ghost c: Contents) returns (r: Option<Scanned>)
      requires Storable(c) && bytes == FileBytes(c) && pos == 0
      modifies this`pos
      ensures var fixups := FixupPath.SplitAll(Rows(c.fixups));
        r == Some(Scanned(c.mainCall, c.symbols, fixups, if fixups.Some? then c.code else []))
    {
      hide WordBytes, TableBytes, CodeBytes, FixupPath.SplitAll;
      Nest(WordBytes(0), WordBytes(c.mainCall), WordBytes(|TableBytes(c.symbols)| / 4), TableBytes(c.symbols),
           WordBytes(|TableBytes(c.fixups)| / 4), TableBytes(c.fixups), CodeBytes(c.code));
      ghost var rest6 := CodeBytes(c.code);
      ghost var rest5 := TableBytes(c.fixups) + rest6;
      ghost var rest4 := WordBytes(|TableBytes(c.fixups)| / 4) + rest5;
      ghost var rest3 := TableBytes(c.symbols) + rest4;
      ghost var rest2 := WordBytes(|TableBytes(c.symbols)| / 4) + rest3;
      ghost var rest1 := WordBytes(c.mainCall) + rest2;
      assert Rest() == WordBytes(0) + rest1;
      var magicWord := ReadWord(0, rest1);
      if magicWord != 0 {
        return None;
      }
      var mainCall := ReadWord(c.mainCall, rest2);
      var symbolWords := ReadWord(|TableBytes(c.symbols)| / 4, rest3);
      var symbols := ReadTable(symbolWords, c.symbols, rest4);
      var fixupWords := ReadWord(|TableBytes(c.fixups)| / 4, rest5);
      var fixups := ReadFixupTable(fixupWords, c.fixups, rest6);
      if fixups.None? {
        return Some(Scanned(mainCall, symbols, fixups, []));
      }
      var code := GetOpCode(c.code);
      r := Some(Scanned(mainCall, symbols, fixups, code));
    }

    /** The rest of the file, word by word. */
    method GetOpCode(ghost code: seq<Int32>) returns (r: seq<Int32>)
      requires pos <= |bytes| && Rest() == CodeBytes(code)
      modifies this`pos
      ensures r == code
    {
      r := [];
      ghost var k := 0;
      assert code[0..] == code;
      while true
        invariant pos <= |bytes| && 0 <= k <= |code| && r == code[..k]
        invariant Rest() == CodeBytes(code[k..])
        decreases |bytes| - pos
      {
        ghost var before := Rest();
        var w := ReadNextWord();
        if w.None? {
          break;
        }
        assert code[k..][1..] == code[k + 1..];
        assert before == WordBytes(code[k]) + CodeBytes(code[k + 1..]);
        assert before[..4] == WordBytes(w.value) && before[..4] == WordBytes(code[k]);
        WordRoundTrip(w.value);
        WordRoundTrip(code[k]);
        assert before[4..] == CodeBytes(code[k + 1..]);
        r := r + [w.value];
        k := k + 1;
      }
      assert code[..k] == code;
    }
  }
}
