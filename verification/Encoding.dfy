/** Packing instructions into 32-bit words, and the machine's unpacking of them. */
module Encoding {
  import opened Machine
  import opened Source
  import opened Arithmetic

  function ArithCode(arith: Arith): nat {
    match arith
    case Add => 0
    case Sub => 1
    case Mul => 2
    case Div => 3
    case Mod => 4
  }

  function OpCode(op: Op): (n: nat)
    ensures n < 64
  {
    match op
    case AluI(arith) => ArithCode(arith)
    case Ldw => 13
    case Pop => 15
    case Stw => 16
    case Psh => 18
    case Branch(rel) =>
      (match rel
       case Eq => 19
       case Ne => 20
       case Lt => 21
       case Ge => 22
       case Gt => 23
       case Le => 24)
    case Alu(arith) => 30 + ArithCode(arith)
    case Cmp => 35
    case Prni => 43
    case Bsr => 50
    case Ret => 51
  }

  function OpOf(n: nat): Option<Op> {
    if n == 0 then Some(AluI(Add))
    else if n == 1 then Some(AluI(Sub))
    else if n == 2 then Some(AluI(Mul))
    else if n == 3 then Some(AluI(Div))
    else if n == 4 then Some(AluI(Mod))
    else if n == 13 then Some(Ldw)
    else if n == 15 then Some(Pop)
    else if n == 16 then Some(Stw)
    else if n == 18 then Some(Psh)
    else if n == 19 then Some(Branch(Eq))
    else if n == 20 then Some(Branch(Ne))
    else if n == 21 then Some(Branch(Lt))
    else if n == 22 then Some(Branch(Ge))
    else if n == 23 then Some(Branch(Gt))
    else if n == 24 then Some(Branch(Le))
    else if n == 30 then Some(Alu(Add))
    else if n == 31 then Some(Alu(Sub))
    else if n == 32 then Some(Alu(Mul))
    else if n == 33 then Some(Alu(Div))
    else if n == 34 then Some(Alu(Mod))
    else if n == 35 then Some(Cmp)
    else if n == 43 then Some(Prni)
    else if n == 50 then Some(Bsr)
    else if n == 51 then Some(Ret)
    else None
  }

  const P5 := 0x20
  const P15 := 0x8000
  const P16 := 0x1_0000
  const P21 := 0x20_0000
  const P25 := 0x200_0000
  const P26 := 0x400_0000
  const P32 := 0x1_0000_0000

  /** The bits of a word, as an unsigned number. */
  function Bits(w: Int32): nat {
    if w < 0 then w + P32 else w
  }

  /** The sum of the shifted fields; fields that do not fit run into their neighbours. */
  function Encode(i: Instr): Int32 {
    var op := OpCode(i.op);
    var sign := if i.c < 0 then 1 else 0;
    if op < 29 then Wrap(op * P26 + i.a * P21 + i.b * P16 + sign * P15 + Magnitude(i.c))
    else if op < 49 then Wrap(op * P26 + i.a * P21 + i.b * P16 + i.c)
    else Wrap(op * P26 + sign * P25 + Magnitude(i.c))
  }

  function Signed(negative: bool, magnitude: int): int {
    if negative then -magnitude else magnitude
  }

  function Decode(w: Int32): Option<Instr> {
    var u := Bits(w);
    var op := u / P26;
    match OpOf(op)
    case None => None
    case Some(o) =>
      Some(if op <= 29 then Instr(o, u / P21 % P5, u / P16 % P5, Signed(u / P15 % 2 == 1, u % P15))
           else if op <= 49 then Instr(o, u / P21 % P5, u / P16 % P5, u % P5)
           else Instr(o, 0, 0, Signed(u / P25 % 2 == 1, u % P25)))
  }

  /** The ranges of the three instruction formats. */
  predicate Encodable(i: Instr) {
    var op := OpCode(i.op);
    if op < 29 then i.a < P5 && i.b < P5 && Magnitude(i.c) < P15
    else if op < 49 then i.a < P5 && i.b < P5 && 0 <= i.c < P5
    else i.a == 0 && i.b == 0 && Magnitude(i.c) < P25
  }

  lemma OpCodesInvert(op: Op)
    ensures OpOf(OpCode(op)) == Some(op) && OpCode(op) != 29 && OpCode(op) != 49
  {
  }

  lemma BitsOfWrap(n: int)
    requires 0 <= n < P32
    ensures Bits(Wrap(n)) == n
  {
  }

  lemma UnpackFormat1(op: nat, a: nat, b: nat, sign: nat, c: nat)
    requires a < P5 && b < P5 && sign < 2 && c < P15
    ensures var u := op * P26 + a * P21 + b * P16 + sign * P15 + c;
      u / P26 == op && u / P21 % P5 == a && u / P16 % P5 == b && u / P15 % 2 == sign && u % P15 == c
  {
    var u := op * P26 + a * P21 + b * P16 + sign * P15 + c;
    Quotient(P26, op, a * P21 + b * P16 + sign * P15 + c, u);
    Quotient(P21, op * P5 + a, b * P16 + sign * P15 + c, u);
    Quotient(P16, (op * P5 + a) * P5 + b, sign * P15 + c, u);
    Quotient(P15, ((op * P5 + a) * P5 + b) * 2 + sign, c, u);
    Quotient(P5, op, a, op * P5 + a);
    Quotient(P5, op * P5 + a, b, (op * P5 + a) * P5 + b);
    Quotient(2, (op * P5 + a) * P5 + b, sign, ((op * P5 + a) * P5 + b) * 2 + sign);
  }

  lemma UnpackFormat2(op: nat, a: nat, b: nat, c: nat)
    requires a < P5 && b < P5 && c < P5
    ensures var u := op * P26 + a * P21 + b * P16 + c;
      u / P26 == op && u / P21 % P5 == a && u / P16 % P5 == b && u % P5 == c
  {
    UnpackFormat1(op, a, b, 0, c);
    Quotient(P5, op * P21 + a * P16 + b * 0x800, c, op * P26 + a * P21 + b * P16 + c);
  }

  lemma UnpackFormat3(op: nat, sign: nat, c: nat)
    requires sign < 2 && c < P25
    ensures var u := op * P26 + sign * P25 + c;
      u / P26 == op && u / P25 % 2 == sign && u % P25 == c
  {
    var u := op * P26 + sign * P25 + c;
    Quotient(P26, op, sign * P25 + c, u);
    Quotient(P25, op * 2 + sign, c, u);
    Quotient(2, op, sign, op * 2 + sign);
  }

  /** An instruction that fits has its fields where the machine's manual has them: the operation in the
      six highest bits; two registers of five bits each, and either sixteen bits of sign and magnitude or a
      third register; or, for a call, 26 bits of sign and magnitude. */
  lemma FieldsStand(i: Instr)
    requires Encodable(i)
    ensures var u, op, s := Bits(Encode(i)), OpCode(i.op), if i.c < 0 then 1 else 0;
      if op < 29 then u == op * 0x400_0000 + i.a * 0x20_0000 + i.b * 0x1_0000 + s * 0x8000 + Magnitude(i.c)
      else if op < 49 then u == op * 0x400_0000 + i.a * 0x20_0000 + i.b * 0x1_0000 + i.c
      else u == op * 0x400_0000 + s * 0x200_0000 + Magnitude(i.c)
  {
    hide OpCode, Wrap, Bits;
    var op, s := OpCode(i.op), if i.c < 0 then 1 else 0;
    if op < 29 {
      BitsOfWrap(op * P26 + i.a * P21 + i.b * P16 + s * P15 + Magnitude(i.c));
    } else if op < 49 {
      BitsOfWrap(op * P26 + i.a * P21 + i.b * P16 + i.c);
    } else {
      BitsOfWrap(op * P26 + s * P25 + Magnitude(i.c));
    }
  }

  /** A word decodes to the instruction it was made from exactly when every operand fits its field. */
  lemma EncodesExactly(i: Instr)
    ensures Decode(Encode(i)) == Some(i) <==> Encodable(i)
  {
    var op := OpCode(i.op);
    OpCodesInvert(i.op);
    if Encodable(i) {
      var sign := if i.c < 0 then 1 else 0;
      if op < 29 {
        UnpackFormat1(op, i.a, i.b, sign, Magnitude(i.c));
        BitsOfWrap(op * P26 + i.a * P21 + i.b * P16 + sign * P15 + Magnitude(i.c));
      } else if op < 49 {
        UnpackFormat2(op, i.a, i.b, i.c);
        BitsOfWrap(op * P26 + i.a * P21 + i.b * P16 + i.c);
      } else {
        UnpackFormat3(op, sign, Magnitude(i.c));
        BitsOfWrap(op * P26 + sign * P25 + Magnitude(i.c));
      }
    } else if Decode(Encode(i)).Some? {
      DecodedIsEncodable(Encode(i));
    }
  }

  /** Whatever word it reads, the machine sees operands within the field widths. */
  lemma DecodedIsEncodable(w: Int32)
    requires Decode(w).Some?
    ensures Encodable(Decode(w).value)
  {
    var op := Bits(w) / P26;
    assert OpCode(OpOf(op).value) == op;
  }
}
