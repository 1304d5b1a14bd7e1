/** The scanner's window on its input file, and the UTF-8 decoder that reads through it. */
module ScannerBuffer {
  type Byte = b: int | 0 <= b < 256

  const EOF := 65536
  const MAX_BUFFER_LENGTH := 64 * 1024

  /** The byte at a position of the file, or EOF past its end. */
  function At(bytes: seq<Byte>, p: nat): int {
    if p < |bytes| then bytes[p] else EOF
  }

  /** Where reading goes on. */
  function Onward(bytes: seq<Byte>, p: nat): nat {
    if p < |bytes| then p + 1 else p
  }

  function Clamp(bytes: seq<Byte>, p: int): nat {
    if p < 0 then 0 else if p > |bytes| then |bytes| else p
  }

  /** The place in the file that is nearest to the one asked for. */
  lemma ClampIsNearest(bytes: seq<Byte>, p: int, q: nat)
    requires q <= |bytes|
    ensures Clamp(bytes, p) <= |bytes| && Distance(Clamp(bytes, p), p) <= Distance(q, p)
  {
  }

  function Distance(a: int, b: int): nat {
    if a < b then b - a else a - b
  }

  /** What a file system call for up to `n` bytes at `p` may return: at least one byte, unless it is
      at the end. */
  predicate Delivers(bytes: seq<Byte>, p: nat, n: nat, got: int) {
    if p >= |bytes| then got == (if n == 0 then 0 else -1)
    else if n == 0 then got == 0
    else 1 <= got <= n && p + got <= |bytes|
  }

  class Buffer {
    const bytes: seq<Byte>
    /** How many bytes each call of the file system delivers. */
    const call: (nat, nat) -> int
    const buf: array<Byte>
    var bufStart: nat
    var bufLen: int
    var pos: nat
    var open: bool

    ghost predicate Valid()
      reads this, buf
    {
      && (forall p, n :: Delivers(bytes, p, n, call(p, n)))
      && buf.Length == (if |bytes| > MAX_BUFFER_LENGTH then MAX_BUFFER_LENGTH else |bytes|)
      && bufLen <= buf.Length && bufStart + pos <= |bytes| && (pos <= bufLen || pos == 0)
      && (bufLen > 0 ==> bufStart + bufLen <= |bytes| && buf[..bufLen] == bytes[bufStart..bufStart + bufLen])
      && (!open ==> bufStart == 0 && bufLen == |bytes|)
    }

    function GetPos(): nat
      reads this
    {
      pos + bufStart
    }

    constructor (bytes: seq<Byte>, call: (nat, nat) -> int)
      requires forall p, n :: Delivers(bytes, p, n, call(p, n))
      ensures Valid() && GetPos() == 0 && this.bytes == bytes && fresh(buf)
    {
      this.bytes, this.call := bytes, call;
      buf := new Byte[if |bytes| > MAX_BUFFER_LENGTH then MAX_BUFFER_LENGTH else |bytes|](_ => 0);
      bufStart, bufLen, pos, open := 0, 0, 0, true;
      new;
      Fill(0);
      if bufLen == |bytes| {
        open := false;
      }
    }

    /** Swaps in the part of the file that begins at `value`. */
    method Fill(value: nat)
      requires forall p, n :: Delivers(bytes, p, n, call(p, n))
      requires buf.Length == (if |bytes| > MAX_BUFFER_LENGTH then MAX_BUFFER_LENGTH else |bytes|)
      requires open && value <= |bytes|
      modifies this, buf
      ensures Valid() && GetPos() == value && open && bufStart == value && pos == 0
      ensures value < |bytes| ==> bufLen > 0
    {
      bufLen := call(value, buf.Length);
      assert Delivers(bytes, value, buf.Length, bufLen);
      forall k | 0 <= k < bufLen {
        buf[k] := bytes[value + k];
      }
      bufStart, pos := value, 0;
    }

    method SetPos(p: int)
      requires Valid()
      modifies this, buf
      ensures Valid() && GetPos() == Clamp(bytes, p)
      ensures GetPos() < |bytes| ==> pos < bufLen
    {
      var value := if p < 0 then 0 else if p > |bytes| then |bytes| else p;
      if bufStart <= value < bufStart + bufLen {
        pos := value - bufStart;
      } else if open {
        Fill(value);
      } else {
        pos := |bytes| - bufStart;
      }
    }

    /** The next byte, which is then passed; EOF at the end, where reading stays. */
    method Read() returns (ch: int)
      requires Valid()
      modifies this, buf
      ensures Valid() && ch == At(bytes, old(GetPos())) && GetPos() == Onward(bytes, old(GetPos()))
    {
      if pos < bufLen {
        assert buf[..bufLen][pos] == bytes[bufStart + pos];
        ch := buf[pos];
        pos := pos + 1;
      } else if GetPos() < |bytes| {
        SetPos(GetPos());
        assert buf[..bufLen][pos] == bytes[bufStart + pos];
        ch := buf[pos];
        pos := pos + 1;
      } else {
        ch := EOF;
      }
    }

    method Peek() returns (ch: int)
      requires Valid()
      modifies this, buf
      ensures Valid() && ch == At(bytes, old(GetPos())) && GetPos() == old(GetPos())
    {
      var curPos := GetPos();
      ch := Read();
      SetPos(curPos);
    }

    /** The bytes from `beg` to `end` as characters, NUL past the end of the file; the position is kept. */
    method GetString(beg: int, end: int) returns (s: seq<int>)
      requires Valid() && beg <= end
      modifies this, buf
      ensures Valid() && GetPos() == old(GetPos()) && |s| == end - beg
      ensures forall i :: 0 <= i < |s| ==> s[i] == At(bytes, Clamp(bytes, beg) + i) % 0x1_0000
    {
      var oldPos := GetPos();
      SetPos(beg);
      s := [];
      ghost var from := GetPos();
      while |s| < end - beg
        invariant Valid() && |s| <= end - beg
        invariant GetPos() == if from + |s| < |bytes| then from + |s| else |bytes|
        invariant forall i :: 0 <= i < |s| ==> s[i] == At(bytes, from + i) % 0x1_0000
      {
        var ch := Read();
        s := s + [ch % 0x1_0000];
      }
      SetPos(oldPos);
    }
  }

  // ----- UTF-8 -----

  /** A byte that does not begin a character: 10xxxxxx. */
  predicate Continues(ch: int) {
    128 <= ch < 192
  }

  /** The bytes of a code point, as section 3 of RFC 3629 lays them out. */
  function Encode(cp: nat): seq<Byte>
    requires cp < 0x20_0000
  {
    if cp < 0x80 then [cp]
    else if cp < 0x800 then [0xC0 + cp / 0x40, 0x80 + cp % 0x40]
    else if cp < 0x1_0000 then [0xE0 + cp / 0x1000, 0x80 + cp / 0x40 % 0x40, 0x80 + cp % 0x40]
    else [0xF0 + cp / 0x4_0000, 0x80 + cp / 0x1000 % 0x40, 0x80 + cp / 0x40 % 0x40, 0x80 + cp % 0x40]
  }

  function EncodeAll(cps: seq<nat>): seq<Byte>
    requires forall i :: 0 <= i < |cps| ==> cps[i] < 0x20_0000
  {
    if cps == [] then [] else Encode(cps[0]) + EncodeAll(cps[1..])
  }

  /** The first position from `p` on that begins a character, or the end. */
  function CharStart(bytes: seq<Byte>, p: nat): (r: nat)
    ensures r >= p && !Continues(At(bytes, r))
    decreases |bytes| - p
  {
    if p < |bytes| && Continues(bytes[p]) then CharStart(bytes, p + 1) else p
  }

  function Low(ch: int): int {
    ch % 0x40
  }

  /** The character read at `p`, and where reading goes on; a character cut off by the end of the file is
      filled up with what EOF leaves in the low bits. */
  function Decode(bytes: seq<Byte>, p: nat): (int, nat) {
    var q := CharStart(bytes, p);
    var c0 := At(bytes, q);
    var q1 := Onward(bytes, q);
    if c0 < 128 || c0 == EOF then (c0, q1)
    else
      var c1, q2 := Low(At(bytes, q1)), Onward(bytes, q1);
      if c0 < 0xE0 then (c0 % 0x20 * 0x40 + c1, q2)
      else
        var c2, q3 := Low(At(bytes, q2)), Onward(bytes, q2);
        if c0 < 0xF0 then ((c0 % 0x10 * 0x40 + c1) * 0x40 + c2, q3)
        else
          var c3 := Low(At(bytes, q3));
          (((c0 % 8 * 0x40 + c1) * 0x40 + c2) * 0x40 + c3, Onward(bytes, q3))
  }

  class UTF8Buffer {
    const b: Buffer

    constructor (b: Buffer)
      ensures this.b == b
    {
      this.b := b;
    }

    /** Passes bytes that continue a character; the result is the first that does not. */
    method ReadStart() returns (ch: int)
      requires b.Valid()
      modifies b, b.buf
      ensures b.Valid()
      ensures var q := CharStart(b.bytes, old(b.GetPos())); ch == At(b.bytes, q) && b.GetPos() == Onward(b.bytes, q)
    {
      ghost var q := b.GetPos();
      ch := b.Read();
      while ch >= 128 && ch / 0x40 % 4 != 3 && ch != EOF
        invariant b.Valid() && CharStart(b.bytes, q) == CharStart(b.bytes, old(b.GetPos()))
        invariant ch == At(b.bytes, q) && b.GetPos() == Onward(b.bytes, q)
        decreases |b.bytes| - q
      {
        q := b.GetPos();
        ch := b.Read();
      }
    }

    /** The six low bits of the next byte. */
    method ReadLow() returns (c: int)
      requires b.Valid()
      modifies b, b.buf
      ensures b.Valid() && c == Low(At(b.bytes, old(b.GetPos()))) && b.GetPos() == Onward(b.bytes, old(b.GetPos()))
    {
      var ch := b.Read();
      c := ch % 0x40;
    }

    /** Reads a character of one to four bytes. */
    method Read() returns (ch: int)
      requires b.Valid()
      modifies b, b.buf
      ensures b.Valid() && (ch, b.GetPos()) == Decode(b.bytes, old(b.GetPos()))
    {
      hide At, Onward, Low, CharStart;
      ch := ReadStart();
      StartByte(b.bytes, old(b.GetPos()));
      if ch < 128 || ch == EOF {
        return;
      }
      if ch / 0x10 % 0x10 == 0xF {
        var c1 := ch % 8;
        var c2 := ReadLow();
        var c3 := ReadLow();
        var c4 := ReadLow();
        ch := ((c1 * 0x40 + c2) * 0x40 + c3) * 0x40 + c4;
      } else if ch / 0x20 % 8 == 7 {
        var c1 := ch % 0x10;
        var c2 := ReadLow();
        var c3 := ReadLow();
        ch := (c1 * 0x40 + c2) * 0x40 + c3;
      } else {
        var c1 := ch % 0x20;
        var c2 := ReadLow();
        ch := c1 * 0x40 + c2;
      }
    }
  }

  lemma StartByte(bytes: seq<Byte>, p: nat)
    ensures var ch := At(bytes, CharStart(bytes, p)); ch == EOF || 0 <= ch < 128 || 192 <= ch < 256
  {
  }

  // ----- decoding undoes encoding -----

  lemma AtJoined(a: seq<Byte>, s: seq<Byte>, rest: seq<Byte>, k: nat)
    requires k < |s|
    ensures At(a + s + rest, |a| + k) == s[k] && Onward(a + s + rest, |a| + k) == |a| + k + 1
  {
  }

  lemma TwoBytes(cp: nat)
    requires 0x80 <= cp < 0x800
    ensures var s := Encode(cp); |s| == 2 && 0xC0 <= s[0] < 0xE0 && s[0] % 0x20 * 0x40 + Low(s[1]) == cp
  {
  }

  lemma ThreeBytes(cp: nat)
    requires 0x800 <= cp < 0x1_0000
    ensures var s := Encode(cp);
      |s| == 3 && 0xE0 <= s[0] < 0xF0 && (s[0] % 0x10 * 0x40 + Low(s[1])) * 0x40 + Low(s[2]) == cp
  {
    assert cp / 0x40 / 0x40 == cp / 0x1000;
  }

  lemma FourBytes(cp: nat)
    requires 0x1_0000 <= cp < 0x20_0000
    ensures var s := Encode(cp);
      |s| == 4 && 0xF0 <= s[0] && ((s[0] % 8 * 0x40 + Low(s[1])) * 0x40 + Low(s[2])) * 0x40 + Low(s[3]) == cp
  {
    hide Low;
    var x, d := cp / 0x40, cp % 0x40;
    var y, c := x / 0x40, x % 0x40;
    Digits(y / 0x40, y % 0x40, c, d);
    LowOf(y % 0x40);
    LowOf(c);
    LowOf(d);
    assert cp == 0x40 * x + d && x == 0x40 * y + c && y == 0x40 * (y / 0x40) + y % 0x40;
  }

  lemma LowOf(b: nat)
    requires b < 0x40
    ensures Low(0x80 + b) == b
  {
  }

  lemma Digits(a: nat, b: nat, c: nat, d: nat)
    requires b < 0x40 && c < 0x40 && d < 0x40
    ensures var n := 0x40 * (0x40 * (0x40 * a + b) + c) + d;
      n / 0x4_0000 == a && n / 0x1000 % 0x40 == b && n / 0x40 % 0x40 == c && n % 0x40 == d
  {
    var n := 0x40 * (0x40 * (0x40 * a + b) + c) + d;
    assert n / 0x40 == 0x40 * (0x40 * a + b) + c;
    assert n / 0x1000 == 0x40 * a + b;
  }

  /** One character comes back, wherever it is in a file. */
  lemma DecodeEncoded(a: seq<Byte>, cp: nat, rest: seq<Byte>)
    requires cp < 0x20_0000
    ensures Decode(a + Encode(cp) + rest, |a|) == (cp, |a| + |Encode(cp)|)
  {
    hide At, Onward, CharStart, Low, Encode;
    var s, bytes := Encode(cp), a + Encode(cp) + rest;
    if cp < 0x80 {
      OneByte(cp);
    } else if cp < 0x800 {
      TwoBytes(cp);
      AtJoined(a, s, rest, 1);
    } else if cp < 0x1_0000 {
      ThreeBytes(cp);
      AtJoined(a, s, rest, 1);
      AtJoined(a, s, rest, 2);
    } else {
      FourBytes(cp);
      AtJoined(a, s, rest, 1);
      AtJoined(a, s, rest, 2);
      AtJoined(a, s, rest, 3);
    }
    AtJoined(a, s, rest, 0);
    StartHere(bytes, |a|);
  }

  lemma {:induction false} PassesContinuations(bytes: seq<Byte>, p: nat, q: nat)
    requires p <= q <= |bytes| && forall i :: p <= i < q ==> Continues(bytes[i])
    ensures CharStart(bytes, p) == CharStart(bytes, q)
    decreases q - p
  {
    if p < q {
      PassesContinuations(bytes, p + 1, q);
    }
  }

  lemma ContinuesEncoded(cp: nat, i: nat)
    requires cp < 0x20_0000 && 0 < i < |Encode(cp)|
    ensures Continues(Encode(cp)[i])
  {
  }

  /** From anywhere inside a character reading goes on with the one that follows. */
  lemma Resumes(a: seq<Byte>, cp: nat, k: nat, next: nat, rest: seq<Byte>)
    requires cp < 0x20_0000 && next < 0x20_0000 && 0 < k < |Encode(cp)|
    ensures Decode(a + Encode(cp) + Encode(next) + rest, |a| + k)
      == (next, |a| + |Encode(cp)| + |Encode(next)|)
  {
    hide Encode, Continues, Low, At;
    var s, bytes := Encode(cp), a + Encode(cp) + Encode(next) + rest;
    forall i | |a| + k <= i < |a| + |s| ensures Continues(bytes[i]) {
      ContinuesEncoded(cp, i - |a|);
    }
    PassesContinuations(bytes, |a| + k, |a| + |s|);
    DecodeEncoded(a + s, next, rest);
  }

  lemma OneByte(cp: nat)
    requires cp < 0x80
    ensures Encode(cp) == [cp]
  {
  }

  lemma StartHere(bytes: seq<Byte>, p: nat)
    requires !Continues(At(bytes, p))
    ensures CharStart(bytes, p) == p
  {
  }

  /** The first `n` characters from `p` on. */
  function DecodeMany(bytes: seq<Byte>, p: nat, n: nat): seq<int>
    decreases n
  {
    if n == 0 then [] else [Decode(bytes, p).0] + DecodeMany(bytes, Decode(bytes, p).1, n - 1)
  }

  lemma Joined(a: seq<Byte>, b: seq<Byte>, c: seq<Byte>)
    ensures a + (b + c) == a + b + c
  {
  }

  /** Every sequence of code points comes back. */
  lemma {:induction false} DecodeAllEncoded(a: seq<Byte>, cps: seq<nat>)
    requires forall i :: 0 <= i < |cps| ==> cps[i] < 0x20_0000
    ensures DecodeMany(a + EncodeAll(cps), |a|, |cps|) == cps
    decreases |cps|
  {
    hide Decode, Encode;
    if cps != [] {
      var s, rest := Encode(cps[0]), EncodeAll(cps[1..]);
      DecodeEncoded(a, cps[0], rest);
      Joined(a, s, rest);
      DecodeAllEncoded(a + s, cps[1..]);
    }
  }

  /** A code point is taken for the end of the file just if it is U+10000, the first that takes four
      bytes; up to U+FFFF none is. */
  lemma TakenForEnd(a: seq<Byte>, cp: nat, rest: seq<Byte>)
    requires cp < 0x20_0000
    ensures Decode(a + Encode(cp) + rest, |a|).0 == EOF <==> cp == 0x1_0000
  {
    hide Decode, Encode;
    DecodeEncoded(a, cp, rest);
  }

  /** Reads `n` characters. */
  method ReadChars(u: UTF8Buffer, n: nat) returns (cs: seq<int>)
    requires u.b.Valid()
    modifies u.b, u.b.buf
    ensures u.b.Valid() && cs == DecodeMany(u.b.bytes, old(u.b.GetPos()), n)
  {
    hide Decode;
    cs := [];
    while |cs| < n
      invariant u.b.Valid() && |cs| <= n
      invariant DecodeMany(u.b.bytes, old(u.b.GetPos()), n) == cs + DecodeMany(u.b.bytes, u.b.GetPos(), n - |cs|)
    {
      ghost var p := u.b.GetPos();
      var ch := u.Read();
      assert cs + ([ch] + DecodeMany(u.b.bytes, u.b.GetPos(), n - |cs| - 1))
        == cs + [ch] + DecodeMany(u.b.bytes, u.b.GetPos(), n - |cs| - 1);
      cs := cs + [ch];
    }
    assert cs + [] == cs;
  }
}
