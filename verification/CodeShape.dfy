/** What the code generator emits, as functions of the source: the instruction lists its methods
    are proved to produce, and the same conditions in the textbook form where every operand is
    given its two jump targets beforehand. */
module CodeShape {
  import opened Machine
  import opened Source

  // ----- arithmetic -----

  /** The compiler folds constants itself and dies of an ArithmeticException on a zero divisor. */
  predicate Foldable(e: Expr) {
    match e
    case Var(_) => true
    case Num(_) => true
    case Bin(op, l, r) =>
      && Foldable(l) && Foldable(r)
      && (op in {Div, Mod} && ItemOf(l).ImmItem? ==> ItemOf(r) != ImmItem(0))
  }

  function Cost(item: Item): nat {
    if item.RegItem? then 1 else 0
  }

  function Base(c: Cell): nat {
    if c.global then 0 else FP
  }

  function Displacement(c: Cell): int {
    if c.global then -c.offset else c.offset
  }

  function LoadWord(c: Cell, target: nat): Instr {
    Instr(Ldw, target, Base(c), Displacement(c))
  }

  function StoreWord(c: Cell, source: nat): Instr {
    Instr(Stw, source, Base(c), Displacement(c))
  }

  /** Immediate operation with the register operand first; a subtraction from a constant is a
      negation followed by an addition. */
  function Reversed(op: Arith, n: Int32, target: nat): seq<Instr> {
    if op == Sub then [Instr(Alu(Sub), target, 0, target), Instr(AluI(Add), target, target, n)]
    else [Instr(AluI(op), target, target, n)]
  }

  /** Combines two pending operands into register top + 1. */
  function Join(op: Arith, l: Item, r: Item, top: nat): seq<Instr> {
    var t := top + 1;
    var both := Instr(Alu(op), t, t, top + 2);
    match (l, r)
    case (ImmItem(_), ImmItem(_)) => []
    case (RegItem, RegItem) => [both]
    case (VarItem(x), VarItem(y)) => [LoadWord(x, t), LoadWord(y, top + 2), both]
    case (VarItem(x), RegItem) => [LoadWord(x, top + 2), both]
    case (RegItem, VarItem(y)) => [LoadWord(y, top + 2), both]
    case (RegItem, ImmItem(n)) => [Instr(AluI(op), t, t, n)]
    case (ImmItem(n), RegItem) => Reversed(op, n, t)
    case (VarItem(x), ImmItem(n)) => [LoadWord(x, t), Instr(AluI(op), t, t, n)]
    case (ImmItem(n), VarItem(y)) => [LoadWord(y, t)] + Reversed(op, n, t)
  }

  function Pending(e: Expr, top: nat): seq<Instr> {
    match e
    case Var(_) => []
    case Num(_) => []
    case Bin(op, l, r) =>
      Pending(l, top) + Pending(r, top + Cost(ItemOf(l))) + Join(op, ItemOf(l), ItemOf(r), top)
  }

  lemma BinShape(op: Arith, l: Expr, r: Expr, top: nat)
    ensures var top' := top + Cost(ItemOf(l));
      && Pending(Bin(op, l, r), top) == Pending(l, top) + Pending(r, top') + Join(op, ItemOf(l), ItemOf(r), top)
      && top' <= top + 1 && (ItemOf(l).RegItem? ==> top' == top + 1)
    ensures FP == 29
  {
  }

  lemma LeafShape(e: Expr, top: nat)
    requires !e.Bin?
    ensures Pending(e, top) == [] && !ItemOf(e).RegItem?
  {
  }

  function Fetch(item: Item, top: nat): seq<Instr> {
    match item
    case VarItem(c) => [LoadWord(c, top + 1)]
    case ImmItem(n) => [Instr(AluI(Add), top + 1, 0, n)]
    case RegItem => []
  }

  /** Evaluates `e` into register top + 1. */
  function Load(e: Expr, top: nat): seq<Instr> {
    Pending(e, top) + Fetch(ItemOf(e), top)
  }

  /** Registers above `top` that `Load` writes. */
  function Need(e: Expr): nat {
    match e
    case Var(_) => 1
    case Num(_) => 1
    case Bin(_, l, r) => if Need(l) > Need(r) + 1 then Need(l) else Need(r) + 1
  }

  // ----- conditions with chained jumps -----

  /** Placeholders for jump targets that are not known yet. */
  const FALSE_JUMP := -100
  const TRUE_JUMP := -1000

  function RedirectOne(i: Instr, placeholder: int, target: int): Instr {
    if i.op.Branch? && i.c == placeholder then i.(c := target) else i
  }

  function Redirect(code: seq<Instr>, placeholder: int, target: int): (r: seq<Instr>)
    ensures |r| == |code|
  {
    if code == [] then []
    else Redirect(code[..|code| - 1], placeholder, target) + [RedirectOne(code[|code| - 1], placeholder, target)]
  }

  function FlipOne(i: Instr, target: int): Instr {
    match i.op
    case Branch(rel) => i.(op := Branch(Invert(rel)), c := target)
    case _ => i
  }

  /** What meeting an operator does to the operand before it: && lets its true jumps fall to the
      next operand, || lets all its false jumps but the last do so and turns the last around. */
  function Settle(op: BoolOp, code: seq<Instr>, target: int): (r: seq<Instr>)
    ensures |r| == |code|
  {
    match op
    case And => Redirect(code, TRUE_JUMP, target)
    case Or =>
      if code == [] then []
      else Redirect(code[..|code| - 1], FALSE_JUMP, target) + [FlipOne(code[|code| - 1], TRUE_JUMP)]
  }

  /** Leaves the difference of the two values in register top + 1, for a branch to test. */
  function CompareCode(l: Expr, r: Expr, top: nat): seq<Instr> {
    Load(l, top) + Load(r, top + 1) + [Instr(Cmp, top + 1, top + 1, top + 2)]
  }

  function OperandSize(o: Operand, top: nat): nat {
    match o
    case Compare(_, l, r) => |CompareCode(l, r, top)| + 1
    case Paren(c) => CondSize(c, top)
  }

  function CondSize(c: Cond, top: nat): nat {
    OperandSize(c.o, top) + if c.Link? then CondSize(c.rest, top) else 0
  }

  function OperandCode(o: Operand, pc: int, top: nat): (r: seq<Instr>)
    ensures |r| == OperandSize(o, top)
    ensures r != [] && r[|r| - 1].op.Branch? && r[|r| - 1].c == FALSE_JUMP
    decreases o, 0
  {
    match o
    case Compare(rel, l, r) =>
      CompareCode(l, r, top) + [Instr(Branch(Invert(rel)), top + 1, 0, FALSE_JUMP)]
    case Paren(c) => CondCode(c, pc, top)
  }

  function CondCode(c: Cond, pc: int, top: nat): (r: seq<Instr>)
    ensures |r| == CondSize(c, top)
    ensures r != [] && r[|r| - 1].op.Branch? && r[|r| - 1].c == FALSE_JUMP
    decreases c, 1
  {
    match c
    case One(o) => OperandCode(o, pc, top)
    case Link(o, op, rest) =>
      var next := pc + OperandSize(o, top);
      Settle(op, OperandCode(o, pc, top), next) + CondCode(rest, next, top)
  }

  function Resolve(code: seq<Instr>, ifFalse: int, ifTrue: int): (r: seq<Instr>)
    ensures |r| == |code|
  {
    Redirect(Redirect(code, FALSE_JUMP, ifFalse), TRUE_JUMP, ifTrue)
  }

  // ----- the same conditions with targets passed down -----

  /** `flip` asks for code that jumps when the condition holds and falls through otherwise. */
  function OperandJumps(o: Operand, pc: int, top: nat, ifFalse: int, ifTrue: int, flip: bool): (r: seq<Instr>)
    ensures |r| == OperandSize(o, top)
    decreases o, 0
  {
    match o
    case Compare(rel, l, r) =>
      CompareCode(l, r, top)
      + [if flip then Instr(Branch(rel), top + 1, 0, ifTrue)
         else Instr(Branch(Invert(rel)), top + 1, 0, ifFalse)]
    case Paren(c) => CondJumps(c, pc, top, ifFalse, ifTrue, flip)
  }

  function CondJumps(c: Cond, pc: int, top: nat, ifFalse: int, ifTrue: int, flip: bool): (r: seq<Instr>)
    ensures |r| == CondSize(c, top)
    decreases c, 1
  {
    match c
    case One(o) => OperandJumps(o, pc, top, ifFalse, ifTrue, flip)
    case Link(o, op, rest) =>
      FirstJumps(o, op, pc, top, ifFalse, ifTrue)
      + CondJumps(rest, pc + OperandSize(o, top), top, ifFalse, ifTrue, flip)
  }

  /** An operand that an operator follows. */
  function FirstJumps(o: Operand, op: BoolOp, pc: int, top: nat, ifFalse: int, ifTrue: int): (r: seq<Instr>)
    ensures |r| == OperandSize(o, top)
    decreases o, 1
  {
    var next := pc + OperandSize(o, top);
    match op
    case And => OperandJumps(o, pc, top, ifFalse, next, false)
    case Or => OperandJumps(o, pc, top, next, ifTrue, true)
  }

  // ----- statements -----

  /** A print keeps the register its value was loaded into. */
  function TopAfter(s: Stmt, top: nat): nat {
    match s
    case Skip => top
    case Assign(_, _) => top
    case Seq(a, b) => TopAfter(b, TopAfter(a, top))
    case Print(_) => top + 1
    case If(_, thn) => TopAfter(thn, top)
    case IfElse(_, thn, els) => TopAfter(els, TopAfter(thn, top))
    case While(_, body) => TopAfter(body, top)
  }

  predicate NoPrint(s: Stmt) {
    match s
    case Skip => true
    case Assign(_, _) => true
    case Print(_) => false
    case Seq(a, b) => NoPrint(a) && NoPrint(b)
    case If(_, thn) => NoPrint(thn)
    case IfElse(_, thn, els) => NoPrint(thn) && NoPrint(els)
    case While(_, body) => NoPrint(body)
  }

  /** The register counter is back where it was exactly after a statement without a print; it never
      comes back lower. */
  lemma {:induction false} Balanced(s: Stmt, top: nat)
    ensures TopAfter(s, top) == top <==> NoPrint(s)
    ensures TopAfter(s, top) >= top
  {
    match s
    case Skip =>
    case Assign(_, _) =>
    case Print(_) =>
    case Seq(a, b) =>
      Balanced(a, top);
      Balanced(b, TopAfter(a, top));
    case If(_, thn) => Balanced(thn, top);
    case IfElse(_, thn, els) =>
      Balanced(thn, top);
      Balanced(els, TopAfter(thn, top));
    case While(_, body) => Balanced(body, top);
  }

  function StmtCode(s: Stmt, pc: int, top: nat): seq<Instr> {
    match s
    case Skip => []
    case Seq(a, b) =>
      var first := StmtCode(a, pc, top);
      first + StmtCode(b, pc + |first|, TopAfter(a, top))
    case Assign(c, e) => Load(e, top) + [StoreWord(c, top + 1)]
    case Print(e) => Load(e, top) + [Instr(Prni, 0, 0, top + 1)]
    case If(c, thn) =>
      var cond := CondCode(c, pc, top);
      var body := StmtCode(thn, pc + |cond|, top);
      Resolve(cond, pc + |cond| + |body|, pc + |cond|) + body
    case IfElse(c, thn, els) =>
      var cond := CondCode(c, pc, top);
      var body := StmtCode(thn, pc + |cond|, top);
      var elsePc := pc + |cond| + |body| + 1;
      var other := StmtCode(els, elsePc, TopAfter(thn, top));
      Resolve(cond, elsePc, pc + |cond|) + body + [Instr(Branch(Eq), 0, 0, elsePc + |other|)] + other
    case While(c, body) =>
      var cond := CondCode(c, pc, top);
      var loop := StmtCode(body, pc + |cond|, top);
      Resolve(cond, pc + |cond| + |loop| + 1, pc + |cond|) + loop + [Instr(Branch(Eq), 0, 0, pc)]
  }

  lemma TopShape(c: Cond, thn: Stmt, els: Stmt, top: nat)
    ensures TopAfter(If(c, thn), top) == TopAfter(While(c, thn), top) == TopAfter(thn, top)
    ensures TopAfter(IfElse(c, thn, els), top) == TopAfter(els, TopAfter(thn, top))
  {
  }

  /** The code of statements without a condition. */
  lemma PlainShape(s: Stmt, pc: int, top: nat)
    ensures match s
      case Skip => StmtCode(s, pc, top) == [] && TopAfter(s, top) == top
      case Assign(c, e) => StmtCode(s, pc, top) == Load(e, top) + [StoreWord(c, top + 1)] && TopAfter(s, top) == top
      case Print(e) => StmtCode(s, pc, top) == Load(e, top) + [Instr(Prni, 0, 0, top + 1)]
        && TopAfter(s, top) == top + 1
      case Seq(a, b) =>
        var first := StmtCode(a, pc, top);
        && StmtCode(s, pc, top) == first + StmtCode(b, pc + |first|, TopAfter(a, top))
        && TopAfter(s, top) == TopAfter(b, TopAfter(a, top))
      case _ => true
  {
    hide Load, Resolve, CondCode, CondSize;
  }

  lemma IfShape(c: Cond, thn: Stmt, pc: int, top: nat)
    ensures var bodyPc := pc + CondSize(c, top);
      var body := StmtCode(thn, bodyPc, top);
      StmtCode(If(c, thn), pc, top) == Resolve(CondCode(c, pc, top), bodyPc + |body|, bodyPc) + body
  {
    hide Resolve, CondCode, CondSize;
  }

  lemma IfElseShape(c: Cond, thn: Stmt, els: Stmt, pc: int, top: nat)
    ensures var bodyPc := pc + CondSize(c, top);
      var body := StmtCode(thn, bodyPc, top);
      var elsePc := bodyPc + |body| + 1;
      var other := StmtCode(els, elsePc, TopAfter(thn, top));
      StmtCode(IfElse(c, thn, els), pc, top)
      == Resolve(CondCode(c, pc, top), elsePc, bodyPc) + body + [Instr(Branch(Eq), 0, 0, elsePc + |other|)] + other
  {
    hide Resolve, CondCode, CondSize, TopAfter;
  }

  lemma WhileShape(c: Cond, body: Stmt, pc: int, top: nat)
    ensures var bodyPc := pc + CondSize(c, top);
      var loop := StmtCode(body, bodyPc, top);
      StmtCode(While(c, body), pc, top)
      == Resolve(CondCode(c, pc, top), bodyPc + |loop| + 1, bodyPc) + loop + [Instr(Branch(Eq), 0, 0, pc)]
  {
    hide Resolve, CondCode, CondSize;
  }

  /** Every register written lies below the frame pointer; the compiler does not check this. */
  predicate CondFits(c: Cond, top: nat) {
    OperandFits(c.o, top) && (c.Link? ==> CondFits(c.rest, top))
  }

  predicate OperandFits(o: Operand, top: nat) {
    match o
    case Compare(_, l, r) => top + Need(l) < FP && top + 1 + Need(r) < FP
    case Paren(c) => CondFits(c, top)
  }

  predicate StmtFits(s: Stmt, top: nat) {
    match s
    case Skip => true
    case Seq(a, b) => StmtFits(a, top) && StmtFits(b, TopAfter(a, top))
    case Assign(_, e) => top + Need(e) < FP
    case Print(e) => top + Need(e) < FP
    case If(c, thn) => CondFits(c, top) && StmtFits(thn, top)
    case IfElse(c, thn, els) => CondFits(c, top) && StmtFits(thn, top) && StmtFits(els, TopAfter(thn, top))
    case While(c, body) => CondFits(c, top) && StmtFits(body, top)
  }

  // ----- chained jumps are the jumps passed down -----

  ghost predicate BranchFree(code: seq<Instr>) {
    forall k :: 0 <= k < |code| ==> !code[k].op.Branch?
  }

  lemma {:induction false} PendingIsBranchFree(e: Expr, top: nat)
    ensures BranchFree(Pending(e, top))
  {
    if e.Bin? {
      PendingIsBranchFree(e.l, top);
      PendingIsBranchFree(e.r, top + Cost(ItemOf(e.l)));
    }
  }

  lemma CompareIsBranchFree(l: Expr, r: Expr, top: nat)
    ensures BranchFree(CompareCode(l, r, top))
  {
    PendingIsBranchFree(l, top);
    PendingIsBranchFree(r, top + 1);
  }

  predicate Placed(target: int) {
    target != FALSE_JUMP && target != TRUE_JUMP
  }

  lemma {:induction false} RedirectAppends(a: seq<Instr>, b: seq<Instr>, placeholder: int, target: int)
    ensures Redirect(a + b, placeholder, target) == Redirect(a, placeholder, target) + Redirect(b, placeholder, target)
  {
    if b == [] {
      assert a + b == a;
    } else {
      var init := b[..|b| - 1];
      assert (a + b)[..|a + b| - 1] == a + init;
      RedirectAppends(a, init, placeholder, target);
    }
  }

  lemma ResolveAppends(a: seq<Instr>, b: seq<Instr>, ifFalse: int, ifTrue: int)
    ensures Resolve(a + b, ifFalse, ifTrue) == Resolve(a, ifFalse, ifTrue) + Resolve(b, ifFalse, ifTrue)
  {
    RedirectAppends(a, b, FALSE_JUMP, ifFalse);
    RedirectAppends(Redirect(a, FALSE_JUMP, ifFalse), Redirect(b, FALSE_JUMP, ifFalse), TRUE_JUMP, ifTrue);
  }

  /** All jumps given their targets; with `flip`, the last one turned around to leave when the
      condition holds. */
  function Final(code: seq<Instr>, ifFalse: int, ifTrue: int, flip: bool): seq<Instr>
    requires code != []
  {
    if flip then Resolve(code[..|code| - 1], ifFalse, ifTrue) + [FlipOne(code[|code| - 1], ifTrue)]
    else Resolve(code, ifFalse, ifTrue)
  }

  lemma FinalAppends(a: seq<Instr>, b: seq<Instr>, ifFalse: int, ifTrue: int, flip: bool)
    requires b != []
    ensures Final(a + b, ifFalse, ifTrue, flip) == Resolve(a, ifFalse, ifTrue) + Final(b, ifFalse, ifTrue, flip)
  {
    if flip {
      var init := b[..|b| - 1];
      assert (a + b)[..|a + b| - 1] == a + init;
      ResolveAppends(a, init, ifFalse, ifTrue);
    } else {
      ResolveAppends(a, b, ifFalse, ifTrue);
    }
  }

  lemma {:induction false} SettledAnd(code: seq<Instr>, next: int, ifFalse: int, ifTrue: int)
    requires Placed(next) && Placed(ifFalse) && Placed(ifTrue)
    ensures Resolve(Redirect(code, TRUE_JUMP, next), ifFalse, ifTrue) == Resolve(code, ifFalse, next)
  {
    if code != [] {
      SettledAnd(code[..|code| - 1], next, ifFalse, ifTrue);
    }
  }

  lemma {:induction false} SettledFalse(code: seq<Instr>, next: int, ifFalse: int, ifTrue: int)
    requires Placed(next) && Placed(ifFalse) && Placed(ifTrue)
    ensures Resolve(Redirect(code, FALSE_JUMP, next), ifFalse, ifTrue) == Resolve(code, next, ifTrue)
  {
    if code != [] {
      SettledFalse(code[..|code| - 1], next, ifFalse, ifTrue);
    }
  }

  lemma SettledOr(code: seq<Instr>, next: int, ifFalse: int, ifTrue: int)
    requires code != [] && code[|code| - 1].op.Branch?
    requires Placed(next) && Placed(ifFalse) && Placed(ifTrue)
    ensures Resolve(Settle(Or, code, next), ifFalse, ifTrue) == Final(code, next, ifTrue, true)
  {
    hide Resolve, Redirect, FlipOne, Placed;
    var init, last := code[..|code| - 1], [FlipOne(code[|code| - 1], TRUE_JUMP)];
    SettledFalse(init, next, ifFalse, ifTrue);
    ResolveAppends(Redirect(init, FALSE_JUMP, next), last, ifFalse, ifTrue);
    TurnedResolves(code[|code| - 1], ifFalse, ifTrue);
  }

  lemma ResolvesOne(i: Instr, ifFalse: int, ifTrue: int)
    ensures Resolve([i], ifFalse, ifTrue) == [RedirectOne(RedirectOne(i, FALSE_JUMP, ifFalse), TRUE_JUMP, ifTrue)]
  {
    hide RedirectOne;
    assert Redirect([i], FALSE_JUMP, ifFalse) == [RedirectOne(i, FALSE_JUMP, ifFalse)];
  }

  lemma TurnedResolves(i: Instr, ifFalse: int, ifTrue: int)
    requires i.op.Branch?
    ensures Resolve([FlipOne(i, TRUE_JUMP)], ifFalse, ifTrue) == [FlipOne(i, ifTrue)]
  {
    hide Resolve;
    ResolvesOne(FlipOne(i, TRUE_JUMP), ifFalse, ifTrue);
  }

  lemma {:induction false} StraightCodeStays(code: seq<Instr>, ifFalse: int, ifTrue: int)
    requires BranchFree(code)
    ensures Resolve(code, ifFalse, ifTrue) == code
  {
    if code != [] {
      StraightCodeStays(code[..|code| - 1], ifFalse, ifTrue);
    }
  }

  lemma NothingResolves(ifFalse: int, ifTrue: int)
    ensures Resolve([], ifFalse, ifTrue) == []
  {
  }

  lemma LastJump(straight: seq<Instr>, jump: Instr, ifFalse: int, ifTrue: int, flip: bool)
    requires BranchFree(straight) && jump.op.Branch? && jump.c == FALSE_JUMP
    requires Placed(ifFalse) && Placed(ifTrue)
    ensures Final(straight + [jump], ifFalse, ifTrue, flip)
         == straight + [if flip then FlipOne(jump, ifTrue) else jump.(c := ifFalse)]
  {
    hide Redirect;
    StraightCodeStays(straight, ifFalse, ifTrue);
    FinalAppends(straight, [jump], ifFalse, ifTrue, flip);
    ResolvesOne(jump, ifFalse, ifTrue);
    NothingResolves(ifFalse, ifTrue);
  }

  lemma {:induction false} OperandTargets(o: Operand, pc: int, top: nat, ifFalse: int, ifTrue: int, flip: bool)
    requires pc >= 1 && Placed(ifFalse) && Placed(ifTrue)
    ensures Final(OperandCode(o, pc, top), ifFalse, ifTrue, flip) == OperandJumps(o, pc, top, ifFalse, ifTrue, flip)
    decreases o, 0
  {
    match o
    case Compare(rel, l, r) =>
      CompareIsBranchFree(l, r, top);
      LastJump(CompareCode(l, r, top), Instr(Branch(Invert(rel)), top + 1, 0, FALSE_JUMP), ifFalse, ifTrue, flip);
    case Paren(c) => PatchedJumpsAreTargets(c, pc, top, ifFalse, ifTrue, flip);
  }

  lemma {:induction false} SettledTargets(o: Operand, op: BoolOp, pc: int, top: nat, ifFalse: int, ifTrue: int)
    requires pc >= 1 && Placed(ifFalse) && Placed(ifTrue)
    ensures Resolve(Settle(op, OperandCode(o, pc, top), pc + OperandSize(o, top)), ifFalse, ifTrue)
         == FirstJumps(o, op, pc, top, ifFalse, ifTrue)
    decreases o, 1
  {
    var first := OperandCode(o, pc, top);
    var next := pc + OperandSize(o, top);
    match op
    case And =>
      SettledAnd(first, next, ifFalse, ifTrue);
      OperandTargets(o, pc, top, ifFalse, next, false);
    case Or =>
      SettledOr(first, next, ifFalse, ifTrue);
      OperandTargets(o, pc, top, next, ifTrue, true);
  }

  /** Emitting placeholders and patching them at the operators, at the end of the condition and,
      within parentheses, at the operators outside gives the same code as knowing every target in
      advance. */
  lemma {:induction false} PatchedJumpsAreTargets(c: Cond, pc: int, top: nat, ifFalse: int, ifTrue: int, flip: bool)
    requires pc >= 1 && Placed(ifFalse) && Placed(ifTrue)
    ensures Final(CondCode(c, pc, top), ifFalse, ifTrue, flip) == CondJumps(c, pc, top, ifFalse, ifTrue, flip)
    decreases c, 1
  {
    hide Final, Resolve, Settle, OperandCode, OperandJumps, FirstJumps, OperandSize, CondSize, CompareCode, Placed;
    match c
    case One(o) => OperandTargets(o, pc, top, ifFalse, ifTrue, flip);
    case Link(o, op, rest) =>
      var next := pc + OperandSize(o, top);
      var a, b := Settle(op, OperandCode(o, pc, top), next), CondCode(rest, next, top);
      var a', b' := FirstJumps(o, op, pc, top, ifFalse, ifTrue), CondJumps(rest, next, top, ifFalse, ifTrue, flip);
      assert Resolve(a, ifFalse, ifTrue) == a' by {
        SettledTargets(o, op, pc, top, ifFalse, ifTrue);
      }
      assert Final(b, ifFalse, ifTrue, flip) == b' by {
        PatchedJumpsAreTargets(rest, next, top, ifFalse, ifTrue, flip);
      }
      assert Final(a + b, ifFalse, ifTrue, flip) == a' + b' by {
        FinalAppends(a, b, ifFalse, ifTrue, flip);
      }
      assert CondCode(c, pc, top) == a + b;
      assert CondJumps(c, pc, top, ifFalse, ifTrue, flip) == a' + b';
  }

  /** No placeholder survives. */
  lemma {:induction false} NoPlaceholderLeft(code: seq<Instr>, ifFalse: int, ifTrue: int)
    requires Placed(ifFalse) && Placed(ifTrue)
    ensures forall i :: i in Resolve(code, ifFalse, ifTrue) && i.op.Branch? ==> Placed(i.c)
  {
    if code != [] {
      NoPlaceholderLeft(code[..|code| - 1], ifFalse, ifTrue);
    }
  }
}
