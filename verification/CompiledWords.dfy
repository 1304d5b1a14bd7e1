/** Which programs survive being packed into words. */
module CompiledWords {
  import opened Machine
  import opened Source
  import opened CodeShape
  import opened Encoding

  // ----- the words of a program -----

  function Words(code: seq<Instr>): seq<Int32> {
    seq(|code|, i requires 0 <= i < |code| => Encode(code[i]))
  }

  /** What the machine makes of the words, unless one is no instruction. */
  function Unpacked(words: seq<Int32>): (r: Source.Option<seq<Instr>>)
    ensures r.Some? ==> |r.value| == |words| && forall i :: 0 <= i < |words| ==> Decode(words[i]) == Some(r.value[i])
    ensures r.None? ==> exists i :: 0 <= i < |words| && Decode(words[i]).None?
  {
    if words == [] then Some([])
    else
      match (Unpacked(words[..|words| - 1]), Decode(words[|words| - 1]))
      case (Some(code), Some(i)) => Some(code + [i])
      case _ => None
  }

  ghost predicate AllEncodable(code: seq<Instr>) {
    forall i :: 0 <= i < |code| ==> Encodable(code[i])
  }

  /** A program comes back out of its words exactly if all its operands fit their fields. */
  lemma UnpacksExactly(code: seq<Instr>)
    ensures Unpacked(Words(code)) == Some(code) <==> AllEncodable(code)
  {
    hide Encodable, Encode, Decode;
    forall i | 0 <= i < |code| ensures Decode(Words(code)[i]) == Some(code[i]) <==> Encodable(code[i]) {
      EncodesExactly(code[i]);
    }
    if AllEncodable(code) {
      var r := Unpacked(Words(code));
      assert r.Some?;
      assert r.value == code;
    }
  }

  lemma Appended(a: seq<Instr>, b: seq<Instr>)
    ensures AllEncodable(a + b) <==> AllEncodable(a) && AllEncodable(b)
  {
    hide Encodable;
    if AllEncodable(a + b) {
      forall i | 0 <= i < |a| ensures Encodable(a[i]) {
        assert (a + b)[i] == a[i];
      }
      forall i | 0 <= i < |b| ensures Encodable(b[i]) {
        assert (a + b)[|a| + i] == b[i];
      }
    }
  }

  lemma Alone(i: Instr)
    ensures AllEncodable([i]) <==> Encodable(i)
  {
    hide Encodable;
    assert [i][0] == i;
  }

  // ----- source programs with small numbers -----

  /** What fits the immediate field: sign and 15 bits. */
  predicate Small(n: int) {
    -P15 < n < P15
  }

  /** The offset or the number that fetching the item takes. */
  predicate ItemSmall(item: Item) {
    match item
    case VarItem(c) => Small(c.offset)
    case ImmItem(n) => Small(n)
    case RegItem => true
  }

  /** Every item that is fetched on the way is small; constants are folded first. */
  predicate TermSmall(e: Expr) {
    match e
    case Var(_) => true
    case Num(_) => true
    case Bin(_, l, r) =>
      && TermSmall(l) && TermSmall(r)
      && ((ItemOf(l).ImmItem? && ItemOf(r).ImmItem?) || (ItemSmall(ItemOf(l)) && ItemSmall(ItemOf(r))))
  }

  predicate ExprSmall(e: Expr) {
    TermSmall(e) && ItemSmall(ItemOf(e))
  }

  predicate OperandSmall(o: Operand) {
    match o
    case Compare(_, l, r) => ExprSmall(l) && ExprSmall(r)
    case Paren(c) => CondSmall(c)
  }

  predicate CondSmall(c: Cond) {
    OperandSmall(c.o) && (c.Link? ==> CondSmall(c.rest))
  }

  predicate StmtSmall(s: Stmt) {
    match s
    case Skip => true
    case Seq(a, b) => StmtSmall(a) && StmtSmall(b)
    case Assign(c, e) => Small(c.offset) && ExprSmall(e)
    case Print(e) => ExprSmall(e)
    case If(c, thn) => CondSmall(c) && StmtSmall(thn)
    case IfElse(c, thn, els) => CondSmall(c) && StmtSmall(thn) && StmtSmall(els)
    case While(c, body) => CondSmall(c) && StmtSmall(body)
  }

  // ----- expressions -----

  lemma FetchEncodes(item: Item, top: nat)
    requires top + 1 < FP
    ensures AllEncodable(Fetch(item, top)) <==> ItemSmall(item)
  {
    hide AllEncodable;
    match item
    case VarItem(c) => Alone(LoadWord(c, top + 1));
    case ImmItem(n) => Alone(Instr(AluI(Add), top + 1, 0, n));
    case RegItem => assert AllEncodable([]) by { Nothing(); }
  }

  lemma Nothing()
    ensures AllEncodable([])
  {
  }

  lemma ReversedEncodes(op: Arith, n: Int32, t: nat)
    requires t < FP
    ensures AllEncodable(Reversed(op, n, t)) <==> Small(n)
  {
    var code := Reversed(op, n, t);
    assert Encodable(code[|code| - 1]) <==> Small(n);
  }

  lemma JoinEncodes(op: Arith, l: Item, r: Item, top: nat)
    requires top + 2 < FP
    ensures AllEncodable(Join(op, l, r, top)) <==> (l.ImmItem? && r.ImmItem?) || (ItemSmall(l) && ItemSmall(r))
  {
    hide AllEncodable, Reversed, Encodable;
    var t := top + 1;
    var both := Instr(Alu(op), t, t, top + 2);
    Nothing();
    Alone(both) by { BothEncodes(op, top); }
    BothEncodes(op, top);
    if l.VarItem? && r.VarItem? {
      Appended([LoadWord(l.cell, t)] + [LoadWord(r.cell, top + 2)], [both]);
      Appended([LoadWord(l.cell, t)], [LoadWord(r.cell, top + 2)]);
      LoadEncodes(l.cell, t);
      LoadEncodes(r.cell, top + 2);
      assert Join(op, l, r, top) == [LoadWord(l.cell, t)] + [LoadWord(r.cell, top + 2)] + [both];
    } else if l.VarItem? && r.RegItem? {
      Appended([LoadWord(l.cell, top + 2)], [both]);
      LoadEncodes(l.cell, top + 2);
      assert Join(op, l, r, top) == [LoadWord(l.cell, top + 2)] + [both];
    } else if l.RegItem? && r.VarItem? {
      Appended([LoadWord(r.cell, top + 2)], [both]);
      LoadEncodes(r.cell, top + 2);
      assert Join(op, l, r, top) == [LoadWord(r.cell, top + 2)] + [both];
    } else if l.RegItem? && r.ImmItem? {
      ImmediateEncodes(op, r.n, t);
    } else if l.ImmItem? && r.RegItem? {
      ReversedEncodes(op, l.n, t);
    } else if l.VarItem? && r.ImmItem? {
      Appended([LoadWord(l.cell, t)], [Instr(AluI(op), t, t, r.n)]);
      LoadEncodes(l.cell, t);
      ImmediateEncodes(op, r.n, t);
      assert Join(op, l, r, top) == [LoadWord(l.cell, t)] + [Instr(AluI(op), t, t, r.n)];
    } else if l.ImmItem? && r.VarItem? {
      Appended([LoadWord(r.cell, t)], Reversed(op, l.n, t));
      LoadEncodes(r.cell, t);
      ReversedEncodes(op, l.n, t);
    }
  }

  lemma BothEncodes(op: Arith, top: nat)
    requires top + 2 < FP
    ensures Encodable(Instr(Alu(op), top + 1, top + 1, top + 2))
  {
  }

  lemma LoadEncodes(c: Cell, t: nat)
    requires t < FP
    ensures AllEncodable([LoadWord(c, t)]) <==> Small(c.offset)
  {
    Alone(LoadWord(c, t));
  }

  lemma ImmediateEncodes(op: Arith, n: Int32, t: nat)
    requires t < FP
    ensures AllEncodable([Instr(AluI(op), t, t, n)]) <==> Small(n)
  {
    Alone(Instr(AluI(op), t, t, n));
  }

  lemma {:induction false} PendingEncodes(e: Expr, top: nat)
    requires top + Need(e) < FP
    ensures AllEncodable(Pending(e, top)) <==> TermSmall(e)
  {
    hide AllEncodable, Join, ItemSmall;
    match e
    case Bin(op, l, r) =>
      var top' := top + Cost(ItemOf(l));
      BinShape(op, l, r, top);
      NeedsTwo(l, r);
      PendingEncodes(l, top);
      PendingEncodes(r, top');
      JoinEncodes(op, ItemOf(l), ItemOf(r), top);
      Appended(Pending(l, top) + Pending(r, top'), Join(op, ItemOf(l), ItemOf(r), top));
      Appended(Pending(l, top), Pending(r, top'));
    case _ => Nothing();
  }

  lemma NeedsTwo(l: Expr, r: Expr)
    ensures Need(l) >= 1 && Need(r) >= 1
  {
  }

  lemma LoadedEncodes(e: Expr, top: nat)
    requires top + Need(e) < FP
    ensures AllEncodable(Load(e, top)) <==> ExprSmall(e)
  {
    hide AllEncodable, Pending, Fetch, TermSmall, ItemSmall;
    NeedsTwo(e, e);
    PendingEncodes(e, top);
    FetchEncodes(ItemOf(e), top);
    Appended(Pending(e, top), Fetch(ItemOf(e), top));
  }

  // ----- conditions -----

  lemma {:induction false} RedirectEncodes(code: seq<Instr>, placeholder: int, target: int)
    requires Small(placeholder) && Small(target)
    ensures AllEncodable(Redirect(code, placeholder, target)) <==> AllEncodable(code)
  {
    hide AllEncodable;
    if code != [] {
      var init, last := code[..|code| - 1], code[|code| - 1];
      RedirectEncodes(init, placeholder, target);
      assert code == init + [last];
      Appended(init, [last]);
      Appended(Redirect(init, placeholder, target), [RedirectOne(last, placeholder, target)]);
      Alone(last);
      Alone(RedirectOne(last, placeholder, target));
    }
  }

  lemma ResolveEncodes(code: seq<Instr>, ifFalse: int, ifTrue: int)
    requires Small(ifFalse) && Small(ifTrue)
    ensures AllEncodable(Resolve(code, ifFalse, ifTrue)) <==> AllEncodable(code)
  {
    hide AllEncodable, Redirect;
    RedirectEncodes(code, FALSE_JUMP, ifFalse);
    RedirectEncodes(Redirect(code, FALSE_JUMP, ifFalse), TRUE_JUMP, ifTrue);
  }

  lemma SettleEncodes(op: BoolOp, code: seq<Instr>, target: int)
    requires Small(target) && code != [] && code[|code| - 1].op.Branch? && code[|code| - 1].c == FALSE_JUMP
    ensures AllEncodable(Settle(op, code, target)) <==> AllEncodable(code)
  {
    hide AllEncodable, Redirect;
    match op
    case And => RedirectEncodes(code, TRUE_JUMP, target);
    case Or =>
      var init, last := code[..|code| - 1], code[|code| - 1];
      assert code == init + [last];
      RedirectEncodes(init, FALSE_JUMP, target);
      Appended(init, [last]);
      Appended(Redirect(init, FALSE_JUMP, target), [FlipOne(last, TRUE_JUMP)]);
      Alone(last);
      Alone(FlipOne(last, TRUE_JUMP));
  }

  lemma CompareEncodes(rel: Rel, l: Expr, r: Expr, top: nat)
    requires top + Need(l) < FP && top + 1 + Need(r) < FP
    ensures AllEncodable(CompareCode(l, r, top) + [Instr(Branch(Invert(rel)), top + 1, 0, FALSE_JUMP)])
       <==> ExprSmall(l) && ExprSmall(r)
  {
    hide AllEncodable, Load, ExprSmall, Need;
    NeedsTwo(l, r);
    var cmp, jump := Instr(Cmp, top + 1, top + 1, top + 2), Instr(Branch(Invert(rel)), top + 1, 0, FALSE_JUMP);
    LoadedEncodes(l, top);
    LoadedEncodes(r, top + 1);
    Appended(Load(l, top), Load(r, top + 1));
    Appended(Load(l, top) + Load(r, top + 1), [cmp]);
    Appended(CompareCode(l, r, top), [jump]);
    Alone(cmp);
    Alone(jump);
  }

  lemma {:induction false} OperandEncodes(o: Operand, pc: int, top: nat)
    requires OperandFits(o, top) && 1 <= pc && pc + OperandSize(o, top) < P15
    ensures AllEncodable(OperandCode(o, pc, top)) <==> OperandSmall(o)
    decreases o, 0
  {
    hide AllEncodable, CompareCode, ExprSmall, Need;
    match o
    case Compare(rel, l, r) => CompareEncodes(rel, l, r, top);
    case Paren(c) => CondEncodes(c, pc, top);
  }

  lemma {:induction false} CondEncodes(c: Cond, pc: int, top: nat)
    requires CondFits(c, top) && 1 <= pc && pc + CondSize(c, top) < P15
    ensures AllEncodable(CondCode(c, pc, top)) <==> CondSmall(c)
    decreases c, 1
  {
    hide AllEncodable, OperandCode, Settle, OperandSize, OperandSmall, OperandFits;
    OperandEncodes(c.o, pc, top);
    if c.Link? {
      var next := pc + OperandSize(c.o, top);
      var operand := OperandCode(c.o, pc, top);
      SettleEncodes(c.op, operand, next);
      CondEncodes(c.rest, next, top);
      Appended(Settle(c.op, operand, next), CondCode(c.rest, next, top));
    }
  }

  // ----- statements -----

  lemma JumpEncodes(target: int)
    requires Small(target)
    ensures AllEncodable([Instr(Branch(Eq), 0, 0, target)])
  {
    Alone(Instr(Branch(Eq), 0, 0, target));
  }

  lemma StoreEncodes(c: Cell, t: nat)
    requires t < FP
    ensures AllEncodable([StoreWord(c, t)]) <==> Small(c.offset)
  {
    Alone(StoreWord(c, t));
  }

  lemma PrintEncodes(t: nat)
    requires t < FP
    ensures AllEncodable([Instr(Prni, 0, 0, t)])
  {
    Alone(Instr(Prni, 0, 0, t));
  }

  /** If a program keeps below the frame pointer's register and its code ends below 2 to the power 15, its words
      can be unpacked again exactly if the numbers and offsets it fetches and stores have 15 bits. */
  lemma {:induction false} StmtEncodes(s: Stmt, pc: int, top: nat)
    requires StmtFits(s, top) && 1 <= pc && pc + |StmtCode(s, pc, top)| < P15
    ensures AllEncodable(StmtCode(s, pc, top)) <==> StmtSmall(s)
    decreases s, 1
  {
    hide AllEncodable, Load, ExprSmall, Need, Resolve, CondCode, CondSize, CondFits, CondSmall, TopAfter;
    match s
    case Skip => Nothing();
    case Seq(a, b) =>
      var first := StmtCode(a, pc, top);
      StmtEncodes(a, pc, top);
      StmtEncodes(b, pc + |first|, TopAfter(a, top));
      Appended(first, StmtCode(b, pc + |first|, TopAfter(a, top)));
    case Assign(c, e) =>
      NeedsTwo(e, e);
      LoadedEncodes(e, top);
      StoreEncodes(c, top + 1);
      Appended(Load(e, top), [StoreWord(c, top + 1)]);
    case Print(e) =>
      NeedsTwo(e, e);
      LoadedEncodes(e, top);
      PrintEncodes(top + 1);
      Appended(Load(e, top), [Instr(Prni, 0, 0, top + 1)]);
    case If(c, thn) => IfEncodes(c, thn, pc, top);
    case IfElse(c, thn, els) => IfElseEncodes(c, thn, els, pc, top);
    case While(c, body) => WhileEncodes(c, body, pc, top);
  }

  lemma {:induction false} IfEncodes(c: Cond, thn: Stmt, pc: int, top: nat)
    requires StmtFits(If(c, thn), top) && 1 <= pc && pc + |StmtCode(If(c, thn), pc, top)| < P15
    ensures AllEncodable(StmtCode(If(c, thn), pc, top)) <==> StmtSmall(If(c, thn))
    decreases If(c, thn), 0
  {
    hide AllEncodable, Resolve, CondCode, CondSize, CondFits, CondSmall, TopAfter, StmtCode;
    IfShape(c, thn, pc, top);
    var bodyPc := pc + CondSize(c, top);
    var body := StmtCode(thn, bodyPc, top);
    CondEncodes(c, pc, top);
    ResolveEncodes(CondCode(c, pc, top), bodyPc + |body|, bodyPc);
    StmtEncodes(thn, bodyPc, top);
    Appended(Resolve(CondCode(c, pc, top), bodyPc + |body|, bodyPc), body);
  }

  lemma {:induction false} WhileEncodes(c: Cond, body: Stmt, pc: int, top: nat)
    requires StmtFits(While(c, body), top) && 1 <= pc && pc + |StmtCode(While(c, body), pc, top)| < P15
    ensures AllEncodable(StmtCode(While(c, body), pc, top)) <==> StmtSmall(While(c, body))
    decreases While(c, body), 0
  {
    hide AllEncodable, Resolve, CondCode, CondSize, CondFits, CondSmall, TopAfter, StmtCode;
    WhileShape(c, body, pc, top);
    var bodyPc := pc + CondSize(c, top);
    var loop := StmtCode(body, bodyPc, top);
    var cond := Resolve(CondCode(c, pc, top), bodyPc + |loop| + 1, bodyPc);
    CondEncodes(c, pc, top);
    ResolveEncodes(CondCode(c, pc, top), bodyPc + |loop| + 1, bodyPc);
    StmtEncodes(body, bodyPc, top);
    JumpEncodes(pc);
    Appended(cond + loop, [Instr(Branch(Eq), 0, 0, pc)]);
    Appended(cond, loop);
  }

  lemma {:induction false} IfElseEncodes(c: Cond, thn: Stmt, els: Stmt, pc: int, top: nat)
    requires StmtFits(IfElse(c, thn, els), top) && 1 <= pc && pc + |StmtCode(IfElse(c, thn, els), pc, top)| < P15
    ensures AllEncodable(StmtCode(IfElse(c, thn, els), pc, top)) <==> StmtSmall(IfElse(c, thn, els))
    decreases IfElse(c, thn, els), 0
  {
    hide AllEncodable, Resolve, CondCode, CondSize, CondFits, CondSmall, TopAfter, StmtCode;
    IfElseShape(c, thn, els, pc, top);
    var bodyPc, top' := pc + CondSize(c, top), TopAfter(thn, top);
    var body := StmtCode(thn, bodyPc, top);
    var elsePc := bodyPc + |body| + 1;
    var other := StmtCode(els, elsePc, top');
    var cond, jump := Resolve(CondCode(c, pc, top), elsePc, bodyPc), [Instr(Branch(Eq), 0, 0, elsePc + |other|)];
    CondEncodes(c, pc, top);
    ResolveEncodes(CondCode(c, pc, top), elsePc, bodyPc);
    StmtEncodes(thn, bodyPc, top);
    StmtEncodes(els, elsePc, top');
    JumpEncodes(elsePc + |other|);
    Appended(cond + body + jump, other);
    Appended(cond + body, jump);
    Appended(cond, body);
  }
}
