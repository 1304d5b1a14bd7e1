/** The virtual machine that runs compiled programs: 32 registers, 4097 memory words, 32-bit
    wrap-around arithmetic, and a program counter that counts instructions from 1. */
module Machine {

  type Int32 = x: int | -0x8000_0000 <= x <= 0x7fff_ffff

  /** Java's int arithmetic: the result modulo 2^32, read as a signed number. */
  function Wrap(x: int): Int32 {
    (x + 0x8000_0000) % 0x1_0000_0000 - 0x8000_0000
  }

  /** Java's integer division, which truncates toward zero. */
  function Truncate(a: int, b: int): int
    requires b != 0
  {
    if (a >= 0) == (b > 0) then (if a >= 0 then a / b else (-a) / (-b))
    else if a >= 0 then -(a / (-b)) else -((-a) / b)
  }

  datatype Arith = Add | Sub | Mul | Div | Mod

  /** The value an arithmetic instruction leaves in a target register that already holds `a`. The
      machine reports a zero divisor and leaves the target alone. */
  function Apply(op: Arith, a: Int32, b: Int32): Int32 {
    match op
    case Add => Wrap(a + b)
    case Sub => Wrap(a - b)
    case Mul => Wrap(a * b)
    case Div => if b == 0 then a else Wrap(Truncate(a, b))
    case Mod => if b == 0 then a else Wrap(a - b * Truncate(a, b))
  }

  /** A number's distance from zero. */
  function Magnitude(a: int): nat {
    if a < 0 then -a else a
  }

  /** Quotient and remainder of a division that truncates: together they make up the dividend, and the remainder
      is smaller than the divisor and on the dividend's side of zero. */
  predicate Divides(a: int, b: int, q: int, r: int) {
    a == b * q + r && Magnitude(r) < Magnitude(b) && (r == 0 || (r > 0 <==> a > 0))
  }

  /** DIV and MOD are that quotient and that remainder, except for the one quotient of 32 bits that is too large:
      it wraps around to the dividend. */
  lemma DivisionLaw(a: Int32, b: Int32)
    requires b != 0
    ensures a != -0x8000_0000 || b != -1 ==> Divides(a, b, Apply(Div, a, b), Apply(Mod, a, b))
    ensures a == -0x8000_0000 && b == -1 ==> Apply(Div, a, b) == a && Apply(Mod, a, b) == 0
  {
    var q := Truncate(a, b);
    TruncateDivides(a, b);
    TruncateFits(a, b, q, a - b * q);
  }

  lemma SignedProduct(x: int, y: int)
    ensures -x * -y == x * y && -x * y == -(x * y) && x * -y == -(x * y)
  {
  }

  lemma Nonnegative(x: nat, y: nat)
    ensures x * y >= 0
  {
  }

  lemma MagnitudeOfProduct(x: int, y: int)
    ensures Magnitude(x * y) == Magnitude(x) * Magnitude(y)
  {
    SignedProduct(x, y);
    Nonnegative(Magnitude(x), Magnitude(y));
  }

  lemma TruncateIs(a: int, b: int)
    requires b != 0
    ensures var d := Magnitude(a) / Magnitude(b); Truncate(a, b) == if (a >= 0) == (b > 0) then d else -d
  {
  }

  lemma FromMagnitudes(a: int, b: int, q: int, p: int, m: int)
    requires Magnitude(a) == p + m && 0 <= p && 0 <= m < Magnitude(b) && b * q == if a >= 0 then p else -p
    ensures Divides(a, b, q, a - b * q)
  {
  }

  lemma DivisionOfNat(x: nat, y: nat)
    requires y > 0
    ensures x == y * (x / y) + x % y && 0 <= x % y < y && 0 <= x / y
  {
  }

  lemma TruncateDivides(a: int, b: int)
    requires b != 0
    ensures Divides(a, b, Truncate(a, b), a - b * Truncate(a, b))
  {
    hide Truncate, Divides;
    var x, y := Magnitude(a), Magnitude(b);
    DivisionOfNat(x, y);
    var d := x / y;
    SignedProduct(y, d);
    Nonnegative(y, d);
    TruncateIs(a, b);
    FromMagnitudes(a, b, Truncate(a, b), y * d, x % y);
  }

  lemma TruncateFits(a: Int32, b: Int32, q: int, r: int)
    requires b != 0 && Divides(a, b, q, r)
    ensures Wrap(r) == r && (a != -0x8000_0000 || b != -1 ==> Wrap(q) == q)
    ensures a == -0x8000_0000 && b == -1 ==> q == 0x8000_0000 && r == 0
  {
    if Magnitude(b) > 1 {
      SmallQuotient(a, b, q, r);
      FitsWhen(q, r);
    } else {
      UnitQuotient(a, b, q, r);
      FitsWhen(0, r);
    }
  }

  lemma UnitQuotient(a: int, b: int, q: int, r: int)
    requires Magnitude(b) == 1 && Divides(a, b, q, r)
    ensures r == 0 && q == if b == 1 then a else -a
  {
  }

  lemma FitsWhen(q: int, r: int)
    requires Magnitude(q) <= 0x4000_0000 && Magnitude(r) <= 0x8000_0000
    ensures Wrap(q) == q && (r != 0x8000_0000 ==> Wrap(r) == r)
  {
  }

  lemma SmallQuotient(a: Int32, b: Int32, q: int, r: int)
    requires Magnitude(b) > 1 && Divides(a, b, q, r)
    ensures Magnitude(q) <= 0x4000_0000
  {
    var y, k := Magnitude(b), Magnitude(q);
    MagnitudeOfProduct(b, q);
    AtLeastTwice(y, k);
  }

  lemma AtLeastTwice(y: nat, k: nat)
    requires y >= 2
    ensures k > 0 ==> y * k >= 2 * (k - 1) + y
  {
    if k > 0 {
      Nonnegative(y - 2, k - 1);
      assert y * k == (y - 2) * (k - 1) + 2 * (k - 1) + y;
    }
  }

  lemma NoSmallMultiple(b: int, d: int)
    requires d != 0
    ensures Magnitude(b * d) >= Magnitude(b)
  {
    MagnitudeOfProduct(b, d);
    var y, k := Magnitude(b), Magnitude(d);
    Nonnegative(y, k - 1);
    assert y * k == y * (k - 1) + y;
  }

  lemma Distribute(b: int, q: int, q': int)
    ensures b * (q - q') == b * q - b * q'
  {
  }

  /** No other quotient and remainder would do. */
  lemma DivisionIsUnique(a: int, b: int, q: int, r: int, q': int, r': int)
    requires b != 0 && Divides(a, b, q, r) && Divides(a, b, q', r')
    ensures q == q' && r == r'
  {
    Distribute(b, q, q');
    if q != q' {
      NoSmallMultiple(b, q - q');
    }
  }

  /** Two numbers that 32 bits cannot tell apart. */
  predicate Congruent(a: int, b: int) {
    (a - b) % 0x1_0000_0000 == 0
  }

  /** The other operations are right up to multiples of 2 to the power 32. */
  lemma WrapLaw(a: Int32, b: Int32)
    ensures Congruent(Apply(Add, a, b), a + b)
    ensures Congruent(Apply(Sub, a, b), a - b)
    ensures Congruent(Apply(Mul, a, b), a * b)
    ensures Congruent(Difference(a, b), a - b)
    ensures Apply(Div, a, 0) == Apply(Mod, a, 0) == a
  {
    hide Wrap, Congruent;
    WrapIsCongruent(a + b);
    WrapIsCongruent(a - b);
    WrapIsCongruent(a * b);
  }

  lemma WrapIsCongruent(x: int)
    ensures Congruent(Wrap(x), x)
  {
    var k := (x + 0x8000_0000) / 0x1_0000_0000;
    assert Wrap(x) - x == -k * 0x1_0000_0000;
  }

  /** What CMP leaves: the sign a following branch tests, wrong once the difference overflows. */
  function Difference(a: int, b: int): Int32 {
    Wrap(a - b)
  }

  datatype Rel = Eq | Ne | Lt | Ge | Gt | Le

  predicate Holds(rel: Rel, a: int, b: int) {
    match rel
    case Eq => a == b
    case Ne => a != b
    case Lt => a < b
    case Ge => a >= b
    case Gt => a > b
    case Le => a <= b
  }

  function Invert(rel: Rel): Rel {
    match rel
    case Eq => Ne
    case Ne => Eq
    case Lt => Ge
    case Ge => Lt
    case Gt => Le
    case Le => Gt
  }

  /** The six relations of a number to a greater one, to itself, and to a smaller one. */
  lemma OrderLaw(rel: Rel, a: int, n: nat)
    requires n > 0
    ensures Holds(rel, a, a + n) <==> rel in {Lt, Le, Ne}
    ensures Holds(rel, a, a) <==> rel in {Eq, Le, Ge}
    ensures Holds(rel, a, a - n) <==> rel in {Gt, Ge, Ne}
    ensures forall b :: Holds(Invert(rel), a, b) <==> !Holds(rel, a, b)
  {
  }

  /** The instructions the code generator emits, before they are packed into words. `Alu` is the
      register form and `AluI` the immediate form; the other operands are a, b and c throughout. */
  datatype Op =
    | Alu(arith: Arith)
    | AluI(arith: Arith)
    | Cmp
    | Branch(rel: Rel)
    | Ldw
    | Stw
    | Psh
    | Pop
    | Prni
    | Bsr
    | Ret

  datatype Instr = Instr(op: Op, a: nat, b: nat, c: int)

  const LNK := 31
  const SP := 30
  const FP := 29
  const REGISTERS := 32
  const MEMORY := 4097

  /** `fault` records an access outside the register file or the memory, where the Java program
      dies of an exception; `out` is what PRNI printed; `compared` lists the operand pairs of the
      CMP instructions executed so far. */
  datatype State = State(pc: int, regs: seq<Int32>, mem: seq<Int32>, out: seq<Int32>,
                         compared: seq<(Int32, Int32)>, fault: bool)
  {
    predicate Ok() {
      !fault && |regs| == REGISTERS && |mem| == MEMORY
    }
  }

  predicate Mapped(address: int) {
    0 <= address < MEMORY
  }

  /** A taken branch saves the return address in the link register; -1 means stop. */
  function Jump(s: State, target: int): State
    requires s.Ok()
  {
    if target == -1 then s.(pc := 0)
    else s.(pc := target, regs := s.regs[LNK := Wrap(s.pc + 1)])
  }

  function Execute(i: Instr, s: State): State
    requires s.Ok() && i.a < REGISTERS && i.b < REGISTERS
  {
    match i.op
    case Alu(arith) =>
      if !(0 <= i.c < REGISTERS) then s.(fault := true)
      else if arith in {Div, Mod} && s.regs[i.c] == 0 then s.(pc := s.pc + 1)
      else s.(pc := s.pc + 1, regs := s.regs[i.a := Apply(arith, s.regs[i.b], s.regs[i.c])])
    case AluI(arith) =>
      if arith in {Div, Mod} && Wrap(i.c) == 0 then s.(pc := s.pc + 1)
      else s.(pc := s.pc + 1, regs := s.regs[i.a := Apply(arith, s.regs[i.b], Wrap(i.c))])
    case Cmp =>
      if !(0 <= i.c < REGISTERS) then s.(fault := true)
      else
        var left: Int32, right: Int32 := s.regs[i.b], s.regs[i.c];
        s.(pc := s.pc + 1, regs := s.regs[i.a := Difference(left, right)],
           compared := s.compared + [(left, right)])
    case Branch(rel) =>
      if Holds(rel, s.regs[i.a], 0) then Jump(s, i.c) else s.(pc := s.pc + 1)
    case Ldw =>
      var address := Wrap(s.regs[i.b] + i.c);
      if !Mapped(address) then s.(fault := true)
      else s.(pc := s.pc + 1, regs := s.regs[i.a := s.mem[address]])
    case Stw =>
      var address := Wrap(s.regs[i.b] + i.c);
      if !Mapped(address) then s.(fault := true)
      else s.(pc := s.pc + 1, mem := s.mem[address := s.regs[i.a]])
    case Psh =>
      var address := Wrap(s.regs[i.b] - i.c);
      if !Mapped(address) then s.(fault := true)
      else
        var regs := s.regs[i.b := address];
        s.(pc := s.pc + 1, regs := regs, mem := s.mem[address := regs[i.a]])
    case Pop =>
      if !Mapped(s.regs[i.b]) then s.(fault := true)
      else
        var regs := s.regs[i.a := s.mem[s.regs[i.b]]];
        s.(pc := s.pc + 1, regs := regs[i.b := Wrap(regs[i.b] + i.c)])
    case Prni =>
      if !(0 <= i.c < REGISTERS) then s.(fault := true)
      else s.(pc := s.pc + 1, out := s.out + [s.regs[i.c]])
    case Bsr => Jump(s, i.c)
    case Ret =>
      if !(0 <= i.c < REGISTERS) then s.(fault := true)
      else s.(pc := s.regs[i.c])
  }

  /** What is pushed is popped again, and the pointer is back where it was; a pointer that is pushed itself is
      pushed as it then stands, and one that is popped itself moves on from there. */
  lemma PushAndPop(s: State, a: nat, b: nat, d: nat, n: int)
    requires s.Ok() && a < REGISTERS && b < REGISTERS && d < REGISTERS && Mapped(Wrap(s.regs[b] - n))
    ensures Execute(Instr(Psh, a, b, n), s).Ok()
    ensures var place := Wrap(s.regs[b] - n); var pushed := if a == b then place else s.regs[a];
      var t := Execute(Instr(Pop, d, b, n), Execute(Instr(Psh, a, b, n), s));
      && t.Ok() && t.pc == s.pc + 2 && t.out == s.out && t.compared == s.compared
      && (if d != b then t.regs[d] == pushed && t.regs[b] == s.regs[b] else t.regs[b] == Wrap(pushed + n))
      && (forall i :: 0 <= i < REGISTERS && i != d && i != b ==> t.regs[i] == s.regs[i])
      && t.mem[place] == pushed && (forall i :: 0 <= i < MEMORY && i != place ==> t.mem[i] == s.mem[i])
  {
    hide Apply, Wrap, Jump;
    WrapBack(s.regs[b], n);
  }

  lemma WrapBack(a: Int32, n: int)
    ensures Wrap(Wrap(a - n) + n) == a
  {
  }

  /** One turn of the machine's loop; it stands still once the program counter leaves the code. */
  function Step(code: seq<Instr>, s: State): State {
    if !s.Ok() || !(1 <= s.pc <= |code|) then s
    else
      var i := code[s.pc - 1];
      if i.a < REGISTERS && i.b < REGISTERS then Execute(i, s) else s.(fault := true)
  }

  function Run(code: seq<Instr>, s: State, n: nat): State
    decreases n
  {
    if n == 0 then s else Run(code, Step(code, s), n - 1)
  }

  /** A jump to -1 stops the machine for good. After any other, as long as register 31 is as the jump left it, a
      return goes on behind the jump. */
  lemma {:induction false} StopsOrReturns(code: seq<Instr>, s: State, target: int, n: nat, later: State)
    requires s.Ok() && later.Ok() && -0x8000_0000 <= s.pc < 0x7fff_ffff
    ensures target == -1 ==> Run(code, Jump(s, target), n) == Jump(s, target)
    ensures target != -1 ==>
      var t := Jump(s, target);
      && t == s.(pc := target, regs := t.regs) && (forall i :: 0 <= i < LNK ==> t.regs[i] == s.regs[i])
      && (later.regs[LNK] == t.regs[LNK] ==> Execute(Instr(Ret, 0, 0, LNK), later).pc == s.pc + 1)
  {
    if target == -1 && n > 0 {
      StopsOrReturns(code, s, target, n - 1, later);
    }
  }

  ghost predicate Reaches(code: seq<Instr>, s: State, t: State) {
    exists n: nat :: Run(code, s, n) == t
  }

  lemma {:induction false} RunAdds(code: seq<Instr>, s: State, m: nat, n: nat)
    ensures Run(code, s, m + n) == Run(code, Run(code, s, m), n)
    decreases m
  {
    if m != 0 {
      RunAdds(code, Step(code, s), m - 1, n);
    }
  }

  lemma ReachesTransitive(code: seq<Instr>, s: State, t: State, u: State)
    requires Reaches(code, s, t) && Reaches(code, t, u)
    ensures Reaches(code, s, u)
  {
    var m: nat :| Run(code, s, m) == t;
    var n: nat :| Run(code, t, n) == u;
    RunAdds(code, s, m, n);
  }

  /** The fragment `part` stands in `code` at the instruction address `pc`. */
  ghost predicate At(code: seq<Instr>, pc: int, part: seq<Instr>) {
    1 <= pc && pc - 1 + |part| <= |code| && code[pc - 1..pc - 1 + |part|] == part
  }

  lemma AtSplit(code: seq<Instr>, pc: int, left: seq<Instr>, right: seq<Instr>)
    requires At(code, pc, left + right)
    ensures At(code, pc, left) && At(code, pc + |left|, right)
  {
    var both := code[pc - 1..pc - 1 + |left + right|];
    assert both[..|left|] == left && both[|left|..] == right;
  }

  lemma StepAt(code: seq<Instr>, i: Instr, s: State)
    requires s.Ok() && At(code, s.pc, [i]) && i.a < REGISTERS && i.b < REGISTERS
    ensures Step(code, s) == Execute(i, s)
    ensures Reaches(code, s, Execute(i, s))
  {
    assert code[s.pc - 1] == code[s.pc - 1..s.pc][0];
    assert Run(code, s, 1) == Run(code, Step(code, s), 0);
  }
}
