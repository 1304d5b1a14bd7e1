/** The parser's code-emitting methods. The syntax tree stands for the token stream: a condition
    chain is consumed operand by operand, and the rest of the chain is what is still to be read. */
module Parsing {
  import opened Machine
  import opened Source
  import opened CodeShape
  import opened CodeGeneration

  /** A recorded jump and the parenthesis level whose operators may still settle it. */
  datatype FixUp = FixUp(position: int, level: int)

  class FixUpList {
    var items: seq<FixUp>

    constructor ()
      ensures items == []
    {
      items := [];
    }
  }

  ghost predicate LevelsBelow(items: seq<FixUp>, level: int) {
    forall k :: 0 <= k < |items| ==> items[k].level < level
  }

  ghost predicate LevelsFrom(items: seq<FixUp>, level: int) {
    forall k :: 0 <= k < |items| ==> items[k].level >= level
  }

  function Positions(items: seq<FixUp>): (r: seq<int>)
    ensures |r| == |items|
  {
    seq(|items|, k requires 0 <= k < |items| => items[k].position)
  }

  /** `items` is `before` followed by entries for `positions`, all at `level` or deeper. */
  ghost predicate Extends(before: seq<FixUp>, items: seq<FixUp>, positions: seq<int>, level: int) {
    && before <= items
    && Positions(items[|before|..]) == positions
    && LevelsFrom(items[|before|..], level)
  }

  lemma ExtendsMore(a: seq<FixUp>, b: seq<FixUp>, c: seq<FixUp>, p: seq<int>, q: seq<int>, level: int)
    requires Extends(a, b, p, level) && Extends(b, c, q, level)
    ensures Extends(a, c, p + q, level)
  {
    assert c[|a|..] == b[|a|..] + c[|b|..];
  }

  lemma ExtendsLower(before: seq<FixUp>, items: seq<FixUp>, positions: seq<int>, level: int)
    requires Extends(before, items, positions, level)
    ensures Extends(before, items, positions, level - 1)
  {
  }

  lemma ExtendsOne(items: seq<FixUp>, entry: FixUp, level: int)
    requires entry.level >= level
    ensures Extends(items, items + [entry], [entry.position], level)
  {
    assert (items + [entry])[|items|..] == [entry];
  }

  lemma ExtendsMeans(before: seq<FixUp>, items: seq<FixUp>, positions: seq<int>, level: int)
    requires Extends(before, items, positions, level)
    ensures before <= items && Positions(items[|before|..]) == positions && LevelsFrom(items[|before|..], level)
  {
  }

  lemma LastBranch(code: seq<Instr>, base: nat)
    requires code != [] && code[|code| - 1].op.Branch?
    ensures var n := |code| - 1;
      var positions := Branches(code, base);
      positions != [] && positions[..|positions| - 1] == Branches(code[..n], base)
        && positions[|positions| - 1] == base + n
  {
  }

  /** The fix an operator applies to all jumps of the operand before it but the last. */
  function OperatorFix(op: BoolOp, target: int): Fix {
    if op == And then ToTrue(target) else ToFalse(target)
  }

  lemma InCodeWider(positions: seq<int>, m: nat, n: nat)
    requires InCode(positions, m) && m <= n
    ensures InCode(positions, n)
  {
  }

  lemma FixedButLast(op: BoolOp, before: seq<Instr>, operand: seq<Instr>, target: int)
    requires operand != []
    ensures var n := |operand| - 1;
      && InCode(Branches(operand[..n], |before|), |before + operand|)
      && FixEach(before + operand, Branches(operand[..n], |before|), OperatorFix(op, target))
         == before + FixAll(operand[..n], OperatorFix(op, target)) + [operand[n]]
  {
    hide FixAll, FixEach, Branches, InCode, FixOne;
    var init, last := operand[..|operand| - 1], [operand[|operand| - 1]];
    var positions := Branches(init, |before|);
    assert operand == init + last;
    Assoc(before, init, last);
    FixEachIsLocal(before, init, OperatorFix(op, target));
    FixEachAppends(before + init, last, positions, OperatorFix(op, target));
    InCodeWider(positions, |before + init|, |before + operand|);
  }

  lemma SettledLast(op: BoolOp, before: seq<Instr>, operand: seq<Instr>, target: int)
    requires operand != [] && operand[|operand| - 1].op.Branch? && operand[|operand| - 1].c == FALSE_JUMP
    ensures var n := |operand| - 1;
      var fixed := before + FixAll(operand[..n], OperatorFix(op, target)) + [operand[n]];
      before + Settle(op, operand, target)
      == if op == Or then fixed[|before| + n := FlipOne(operand[n], TRUE_JUMP).(c := TRUE_JUMP)] else fixed
  {
    hide FixAll, Settle;
    SettleIsFix(op, operand, target);
  }

  lemma SettleIsFix(op: BoolOp, code: seq<Instr>, target: int)
    requires code != [] && code[|code| - 1].op.Branch? && code[|code| - 1].c == FALSE_JUMP
    ensures var n := |code| - 1;
      Settle(op, code, target) == FixAll(code[..n], OperatorFix(op, target))
        + [if op == Or then FlipOne(code[n], TRUE_JUMP) else code[n]]
  {
  }

  lemma EmptyIsBelow(level: int)
    ensures LevelsBelow([], level)
  {
  }

  predicate OperandFoldable(o: Operand) {
    match o
    case Compare(_, l, r) => Foldable(l) && Foldable(r)
    case Paren(c) => CondFoldable(c)
  }

  predicate CondFoldable(c: Cond) {
    OperandFoldable(c.o) && (c.Link? ==> CondFoldable(c.rest))
  }

  predicate StmtFoldable(s: Stmt) {
    match s
    case Skip => true
    case Seq(a, b) => StmtFoldable(a) && StmtFoldable(b)
    case Assign(_, e) => Foldable(e)
    case Print(e) => Foldable(e)
    case If(c, thn) => CondFoldable(c) && StmtFoldable(thn)
    case IfElse(c, thn, els) => CondFoldable(c) && StmtFoldable(thn) && StmtFoldable(els)
    case While(c, body) => CondFoldable(c) && StmtFoldable(body)
  }

  class Parser {
    const gen: CodeGenerator
    var condFixup: seq<int>
    var condFixStack: seq<seq<int>>
    var booleanLevel: int

    constructor (gen: CodeGenerator)
      ensures this.gen == gen && condFixup == [] && condFixStack == [] && booleanLevel == 0
    {
      this.gen := gen;
      condFixup := [];
      condFixStack := [];
      booleanLevel := 0;
    }

    // ----- arithmetic -----

    method PutValue2Reg(item: Item)
      requires gen.Valid()
      modifies gen
      ensures gen.Valid() && gen.topReg == old(gen.topReg) + 1 - Cost(item)
      ensures gen.opCode == old(gen.opCode) + Fetch(item, old(gen.topReg))
    {
      match item
      case VarItem(c) => gen.LoadWordType(c);
      case ImmItem(n) => gen.AddI(n);
      case RegItem =>
    }

    method DelayedCodeGen(op: Arith, item1: Item, item2: Item) returns (item: Item)
      requires gen.Valid() && gen.topReg >= Cost(item1) + Cost(item2)
      requires op in {Div, Mod} && item1.ImmItem? ==> item2 != ImmItem(0)
      modifies gen
      ensures gen.Valid()
      ensures item == if item1.ImmItem? && item2.ImmItem? then ImmItem(Apply(op, item1.n, item2.n)) else RegItem
      ensures var top := old(gen.topReg) - Cost(item1) - Cost(item2);
        && gen.opCode == old(gen.opCode) + Join(op, item1, item2, top)
        && gen.topReg == top + Cost(item)
    {
      if item1.RegItem? && item2.RegItem? {
        gen.PutOperation2Reg(op);
        return RegItem;
      } else if item1.ImmItem? && item2.ImmItem? {
        return ImmItem(Apply(op, item1.n, item2.n));
      } else if item1.VarItem? && item2.VarItem? {
        gen.LoadWordType(item1.cell);
        gen.LoadWordType(item2.cell);
        gen.PutOperation2Reg(op);
        return RegItem;
      } else if item1.VarItem? && item2.RegItem? {
        gen.LoadWordType(item1.cell);
        gen.PutOperation2Reg(op);
        return RegItem;
      } else if item1.RegItem? && item2.VarItem? {
        gen.LoadWordType(item2.cell);
        gen.PutOperation2Reg(op);
        return RegItem;
      } else if item1.RegItem? && item2.ImmItem? {
        gen.PutImOp2Reg(op, item2.n);
        return RegItem;
      } else if item1.ImmItem? && item2.RegItem? {
        PutReversed(op, item1.n);
        return RegItem;
      } else if item1.VarItem? && item2.ImmItem? {
        gen.LoadWordType(item1.cell);
        gen.PutImOp2Reg(op, item2.n);
        return RegItem;
      } else {
        gen.LoadWordType(item2.cell);
        PutReversed(op, item1.n);
        return RegItem;
      }
    }

    method PutReversed(op: Arith, n: Int32)
      requires gen.Valid()
      modifies gen
      ensures gen.Valid() && gen.topReg == old(gen.topReg)
      ensures gen.opCode == old(gen.opCode) + Reversed(op, n, gen.topReg)
    {
      if op == Sub {
        gen.InvertValOfLastReg();
        gen.PutImOp2Reg(Add, n);
      } else {
        gen.PutImOp2Reg(op, n);
      }
    }

    method Term(e: Expr) returns (item: Item)
      requires gen.Valid() && Foldable(e)
      modifies gen
      ensures gen.Valid() && item == ItemOf(e) && gen.topReg == old(gen.topReg) + Cost(item)
      ensures gen.opCode == old(gen.opCode) + Pending(e, old(gen.topReg))
    {
      hide Join, Pending;
      match e
      case Var(c) =>
        LeafShape(e, gen.topReg);
        return VarItem(c);
      case Num(n) =>
        LeafShape(e, gen.topReg);
        return ImmItem(n);
      case Bin(op, l, r) =>
        BinShape(op, l, r, gen.topReg);
        var item1 := Term(l);
        var item2 := Term(r);
        item := DelayedCodeGen(op, item1, item2);
    }

    method Value2Reg(e: Expr)
      requires gen.Valid() && Foldable(e)
      modifies gen
      ensures gen.Valid() && gen.topReg == old(gen.topReg) + 1
      ensures gen.opCode == old(gen.opCode) + Load(e, old(gen.topReg))
    {
      var item := Term(e);
      FetchAbove(item, gen.topReg);
      PutValue2Reg(item);
    }

    lemma FetchAbove(item: Item, top: nat)
      ensures item.RegItem? ==> Fetch(item, top) == []
    {
    }

    // ----- conditions -----

    /** The recorded jumps of the operand before an operator: those at this level or deeper. They
        are handed over to the enclosing level. */
    method TakeOperand(orMap: FixUpList, ghost settled: seq<FixUp>) returns (positions: seq<int>)
      requires settled <= orMap.items && LevelsBelow(settled, booleanLevel)
      requires LevelsFrom(orMap.items[|settled|..], booleanLevel)
      modifies orMap
      ensures positions == Positions(old(orMap.items)[|settled|..])
      ensures Extends(settled, orMap.items, positions, booleanLevel - 1)
      ensures LevelsBelow(orMap.items, booleanLevel)
    {
      ghost var all := orMap.items;
      ghost var n := |settled|;
      positions := [];
      var i := 0;
      while i < |orMap.items|
        invariant 0 <= i <= |orMap.items| == |all|
        invariant forall k :: 0 <= k < n ==> orMap.items[k] == all[k]
        invariant forall k :: n <= k < i ==> orMap.items[k] == all[k].(level := booleanLevel - 1)
        invariant forall k :: i <= k < |all| ==> orMap.items[k] == all[k]
        invariant if i <= n then positions == [] else positions == Positions(all[n..i])
      {
        var fixup := orMap.items[i];
        if i < n {
          assert all[i] == settled[i];
        } else {
          assert all[i] == all[n..][i - n];
        }
        if booleanLevel <= fixup.level {
          positions := positions + [fixup.position];
          orMap.items := orMap.items[i := fixup.(level := booleanLevel - 1)];
          assert all[n..i + 1] == all[n..i] + [all[i]];
        }
        i := i + 1;
      }
      assert all[n..] == all[n..|all|];
      assert Positions(orMap.items[n..]) == positions;
    }

    /** Meets `op` after the operand whose code is `operand`. */
    method MeetOperator(op: BoolOp, orMap: FixUpList, ghost settled: seq<FixUp>,
                        ghost before: seq<Instr>, ghost operand: seq<Instr>)
      requires gen.Valid() && gen.opCode == before + operand
      requires operand != [] && operand[|operand| - 1].op.Branch? && operand[|operand| - 1].c == FALSE_JUMP
      requires LevelsBelow(settled, booleanLevel)
      requires Extends(settled, orMap.items, Branches(operand, |before|), booleanLevel)
      modifies gen, orMap
      ensures gen.Valid() && gen.topReg == old(gen.topReg)
      ensures gen.opCode == before + Settle(op, operand, gen.pc)
      ensures Extends(settled, orMap.items, Branches(operand, |before|), booleanLevel - 1)
      ensures LevelsBelow(orMap.items, booleanLevel)
    {
      hide Settle, Extends, LevelsBelow, Branches, FixEach, FixAll, InCode, FixOne, LevelsFrom, Positions;
      ExtendsMeans(settled, orMap.items, Branches(operand, |before|), booleanLevel);
      var positions := TakeOperand(orMap, settled);
      LastBranch(operand, |before|);
      FixedButLast(op, before, operand, gen.pc);
      FixPositions(positions, op);
      if op == Or {
        gen.FixOrJumps(positions[|positions| - 1], true, false);
      }
      SettledLast(op, before, operand, gen.pc);
    }

    /** Sends the open jumps at all positions but the last to the next instruction: the true jumps
        before &&, the false jumps before ||. */
    method FixPositions(positions: seq<int>, op: BoolOp)
      requires gen.Valid() && positions != [] && InCode(positions[..|positions| - 1], |gen.opCode|)
      modifies gen
      ensures gen.Valid() && gen.topReg == old(gen.topReg) && gen.pc == old(gen.pc)
      ensures gen.opCode == FixEach(old(gen.opCode), positions[..|positions| - 1], OperatorFix(op, gen.pc))
    {
      ghost var fix := OperatorFix(op, gen.pc);
      ghost var code := gen.opCode;
      var k := 0;
      while k < |positions| - 1
        invariant 0 <= k <= |positions| - 1
        invariant gen.Valid() && gen.pc == old(gen.pc) && gen.topReg == old(gen.topReg)
        invariant InCode(positions[..k], |code|)
        invariant gen.opCode == FixEach(code, positions[..k], fix)
      {
        assert positions[k] == positions[..|positions| - 1][k];
        FixEachMore(code, positions[..k], positions[k], fix);
        assert positions[..k + 1] == positions[..k] + [positions[k]];
        gen.FixOrJumps(positions[k], false, op == And);
        k := k + 1;
      }
    }

    method Relation(o: Operand, orMap: FixUpList)
      requires gen.Valid() && OperandFoldable(o) && LevelsBelow(orMap.items, booleanLevel)
      modifies this, gen, orMap
      ensures gen.Valid() && gen.topReg == old(gen.topReg)
      ensures booleanLevel == old(booleanLevel) && condFixStack == old(condFixStack)
      ensures var code := OperandCode(o, old(gen.pc), old(gen.topReg));
        var positions := Branches(code, |old(gen.opCode)|);
        && gen.opCode == old(gen.opCode) + code
        && condFixup == old(condFixup) + positions
        && Extends(old(orMap.items), orMap.items, positions, booleanLevel)
      decreases o, 0
    {
      hide OperandCode, CondCode, Branches, Extends, CompareCode;
      OperandShape(o, gen.pc, gen.topReg, |gen.opCode|);
      match o
      case Compare(rel, l, r) => Comparison(rel, l, r, orMap);
      case Paren(c) => Expression(c, orMap);
    }

    lemma OperandShape(o: Operand, pc: int, top: nat, base: nat)
      ensures o.Compare? ==>
        var code := CompareCode(o.l, o.r, top);
        && OperandCode(o, pc, top) == code + [Instr(Branch(Invert(o.rel)), top + 1, 0, FALSE_JUMP)]
        && Branches(OperandCode(o, pc, top), base) == [base + |code|]
      ensures o.Paren? ==> OperandCode(o, pc, top) == CondCode(o.c, pc, top)
    {
      hide CompareCode, CondCode;
      match o
      case Compare(rel, l, r) =>
        var code, jump := CompareCode(l, r, top), Instr(Branch(Invert(rel)), top + 1, 0, FALSE_JUMP);
        CompareIsBranchFree(l, r, top);
        StraightHasNone(code, base);
        BranchesAppend(code, [jump], base);
        assert Branches([jump], base + |code|) == [base + |code|];
      case Paren(_) =>
    }

    /** Compares two values and leaves a jump for when the comparison does not hold, recorded at this level. */
    method Comparison(rel: Rel, l: Expr, r: Expr, orMap: FixUpList)
      requires gen.Valid() && Foldable(l) && Foldable(r)
      modifies this`condFixup, gen, orMap
      ensures gen.Valid() && gen.topReg == old(gen.topReg)
      ensures var top := old(gen.topReg);
        var code := CompareCode(l, r, top);
        var position := |old(gen.opCode)| + |code|;
        && gen.opCode == old(gen.opCode) + (code + [Instr(Branch(Invert(rel)), top + 1, 0, FALSE_JUMP)])
        && condFixup == old(condFixup) + [position]
        && Extends(old(orMap.items), orMap.items, [position], booleanLevel)
    {
      hide Extends, Load;
      Value2Reg(l);
      Value2Reg(r);
      var position := gen.Relation(Invert(rel));
      ExtendsOne(orMap.items, FixUp(position, booleanLevel), booleanLevel);
      orMap.items := orMap.items + [FixUp(position, booleanLevel)];
      condFixup := condFixup + [position];
    }

    /** Consumes the operands of one && group. `rest` is the chain from the last of them on and
        `done` the code of the others, settled. */
    method AndExpression(c: Cond, orMap: FixUpList)
      returns (rest: Cond, ghost done: seq<Instr>, ghost settled: seq<FixUp>)
      requires gen.Valid() && CondFoldable(c) && LevelsBelow(orMap.items, booleanLevel)
      modifies this, gen, orMap
      ensures gen.Valid() && gen.topReg == old(gen.topReg)
      ensures booleanLevel == old(booleanLevel) && condFixStack == old(condFixStack)
      ensures (rest.One? || rest.op == Or) && CondFoldable(rest) && (rest == c || rest < c)
      ensures Standing(c, rest, done, settled, Emitted(old(gen.opCode), old(condFixup), old(orMap.items)),
                       gen.topReg, booleanLevel, Emitted(gen.opCode, condFixup, orMap.items))
      decreases c, 1
    {
      hide Standing, Between, CondCode, OperandCode, Branches, Extends, LevelsBelow;
      ghost var start, top := Emitted(gen.opCode, condFixup, orMap.items), gen.topReg;
      rest, done, settled := c, [], orMap.items;
      Start(c, start, top, booleanLevel);
      Relation(rest.o, orMap);
      Read(c, rest, done, start, top, booleanLevel, start, Emitted(gen.opCode, condFixup, orMap.items));
      while rest.Link? && rest.op == And
        invariant gen.Valid() && gen.topReg == top
        invariant booleanLevel == old(booleanLevel) && condFixStack == old(condFixStack)
        invariant CondFoldable(rest) && (rest == c || rest < c)
        invariant Standing(c, rest, done, settled, start, top, booleanLevel,
          Emitted(gen.opCode, condFixup, orMap.items))
        decreases rest
      {
        done, settled := Operator(c, rest, orMap, done, settled, start);
        rest := rest.rest;
        ghost var mid := Emitted(gen.opCode, condFixup, orMap.items);
        Relation(rest.o, orMap);
        Read(c, rest, done, start, top, booleanLevel, mid, Emitted(gen.opCode, condFixup, orMap.items));
      }
    }

    /** Settles the operand in front of an operator. */
    method Operator(ghost c: Cond, rest: Cond, orMap: FixUpList, ghost done: seq<Instr>, ghost settled: seq<FixUp>,
                    ghost start: Emitted)
      returns (ghost done': seq<Instr>, ghost settled': seq<FixUp>)
      requires gen.Valid() && rest.Link?
      requires Standing(c, rest, done, settled, start, gen.topReg, booleanLevel,
        Emitted(gen.opCode, condFixup, orMap.items))
      modifies gen, orMap
      ensures gen.Valid() && gen.topReg == old(gen.topReg)
      ensures Between(c, rest.rest, done', start, gen.topReg, booleanLevel, Emitted(gen.opCode, condFixup, orMap.items))
      ensures settled' == orMap.items && LevelsBelow(orMap.items, booleanLevel)
    {
      hide CondCode, OperandCode, Settle, Branches, Extends, LevelsBelow;
      ghost var operand := OperandCode(rest.o, |start.code| + 1 + |done|, gen.topReg);
      ghost var met := Emitted(gen.opCode, condFixup, orMap.items);
      MeetOperator(rest.op, orMap, settled, start.code + done, operand);
      done' := done + Settle(rest.op, operand, gen.pc);
      settled' := orMap.items;
      Settled(c, rest, done, settled, start, gen.topReg, booleanLevel, met,
        Emitted(gen.opCode, condFixup, orMap.items));
    }

    /** Emits a condition; its jumps are left open, and recorded in `condFixup` for the statement
        and in `orMap` for the operators that enclose it. */
    method Expression(c: Cond, orMap: FixUpList)
      requires gen.Valid() && CondFoldable(c) && LevelsBelow(orMap.items, booleanLevel + 1)
      modifies this, gen, orMap
      ensures gen.Valid() && gen.topReg == old(gen.topReg)
      ensures booleanLevel == old(booleanLevel) && condFixStack == old(condFixStack)
      ensures var code := CondCode(c, old(gen.pc), old(gen.topReg));
        var positions := Branches(code, |old(gen.opCode)|);
        && gen.opCode == old(gen.opCode) + code
        && condFixup == old(condFixup) + positions
        && Extends(old(orMap.items), orMap.items, positions, booleanLevel)
      decreases c, 2
    {
      hide Standing, Between, CondCode, OperandCode, Branches, Extends, LevelsBelow;
      booleanLevel := booleanLevel + 1;
      ghost var start, top := Emitted(gen.opCode, condFixup, orMap.items), gen.topReg;
      ghost var done, settled;
      var rest;
      rest, done, settled := AndExpression(c, orMap);
      while rest.Link?
        invariant gen.Valid() && gen.topReg == top
        invariant booleanLevel == old(booleanLevel) + 1 && condFixStack == old(condFixStack)
        invariant (rest.One? || rest.op == Or) && CondFoldable(rest) && (rest == c || rest < c)
        invariant Standing(c, rest, done, settled, start, top, booleanLevel,
          Emitted(gen.opCode, condFixup, orMap.items))
        decreases rest
      {
        done, settled := Operator(c, rest, orMap, done, settled, start);
        ghost var next, done1, mid := rest.rest, done, Emitted(gen.opCode, condFixup, orMap.items);
        ghost var done2;
        rest, done2, settled := AndExpression(rest.rest, orMap);
        done := done1 + done2;
        Resume(c, next, rest, done1, done2, settled, start, top, booleanLevel, mid,
          Emitted(gen.opCode, condFixup, orMap.items));
      }
      Finish(c, rest, done, settled, start, top, booleanLevel, Emitted(gen.opCode, condFixup, orMap.items));
      booleanLevel := booleanLevel - 1;
    }

    // ----- statements -----

    method WhileStatement(c: Cond, body: Stmt)
      requires gen.Valid() && CondFoldable(c) && StmtFoldable(body)
      modifies this, gen
      ensures gen.Valid() && gen.topReg == TopAfter(While(c, body), old(gen.topReg))
      ensures gen.opCode == old(gen.opCode) + StmtCode(While(c, body), old(gen.pc), old(gen.topReg))
      ensures condFixup == old(condFixup) && condFixStack == old(condFixStack) && booleanLevel == old(booleanLevel)
      decreases While(c, body), 0
    {
      hide CondCode, Resolve, Branches, StmtCode, TopAfter, CondFoldable, StmtFoldable, CondSize;
      ghost var before, start, top := gen.opCode, gen.pc, gen.topReg;
      var whileLoopStart := gen.pc;
      var trueJump := ConditionAndBody(c, body);
      ghost var cond, loop := CondCode(c, start, top), StmtCode(body, trueJump, top);
      ghost var goto := [Instr(Branch(Eq), 0, 0, whileLoopStart)];
      var _ := gen.ElseAndLoopJump(whileLoopStart);
      assert gen.opCode == before + cond + (loop + goto);
      PatchCondition(cond, before, loop + goto, gen.pc, trueJump);
      WhileShape(c, body, start, top);
      TopShape(c, body, Skip, top);
      assert before + Resolve(cond, gen.pc, trueJump) + (loop + goto)
          == before + (Resolve(cond, gen.pc, trueJump) + loop + goto);
      PopFixups();
    }

    /** The part that `while` and `if` share: a condition, recorded in a fresh `condFixup`, and the
        statement it guards. */
    method ConditionAndBody(c: Cond, body: Stmt) returns (trueJump: int)
      requires gen.Valid() && CondFoldable(c) && StmtFoldable(body)
      modifies this, gen
      ensures gen.Valid() && gen.topReg == TopAfter(body, old(gen.topReg))
      ensures var cond := CondCode(c, old(gen.pc), old(gen.topReg));
        && trueJump == old(gen.pc) + |cond|
        && gen.opCode == old(gen.opCode) + cond + StmtCode(body, trueJump, old(gen.topReg))
        && condFixup == Branches(cond, |old(gen.opCode)|)
      ensures condFixStack == old(condFixStack) + [old(condFixup)] && booleanLevel == old(booleanLevel)
      decreases body, 2
    {
      hide CondCode, Branches, StmtCode, TopAfter, LevelsBelow, CondFoldable, StmtFoldable, CondSize;
      condFixStack := condFixStack + [condFixup];
      condFixup := [];
      var orMap := new FixUpList();
      EmptyIsBelow(booleanLevel + 1);
      Expression(c, orMap);
      trueJump := gen.pc;
      BodyBlock(body);
    }

    method PopFixups()
      requires condFixStack != []
      modifies this`condFixup, this`condFixStack
      ensures condFixup == old(condFixStack)[|old(condFixStack)| - 1]
      ensures condFixStack == old(condFixStack)[..|old(condFixStack)| - 1]
    {
      condFixup := condFixStack[|condFixStack| - 1];
      condFixStack := condFixStack[..|condFixStack| - 1];
    }

    /** Closes the jumps of the statement's own condition. */
    method PatchCondition(ghost cond: seq<Instr>, ghost before: seq<Instr>, ghost after: seq<Instr>,
                          falseJump: int, trueJump: int)
      requires gen.Valid() && gen.opCode == before + cond + after
      requires condFixup == Branches(cond, |before|) && falseJump >= 1
      modifies gen
      ensures gen.Valid() && gen.topReg == old(gen.topReg)
      ensures gen.opCode == before + Resolve(cond, falseJump, trueJump) + after
    {
      ghost var fix := Both(falseJump, trueJump);
      BranchesInCode(cond, |before|);
      gen.FixConditionJumps(condFixup, falseJump, trueJump);
      FixEachAppends(before + cond, after, Branches(cond, |before|), fix);
      FixEachIsLocal(before, cond, fix);
    }

    method IfStatement(c: Cond, thn: Stmt)
      requires gen.Valid() && CondFoldable(c) && StmtFoldable(thn)
      modifies this, gen
      ensures gen.Valid() && gen.topReg == TopAfter(If(c, thn), old(gen.topReg))
      ensures gen.opCode == old(gen.opCode) + StmtCode(If(c, thn), old(gen.pc), old(gen.topReg))
      ensures condFixup == old(condFixup) && condFixStack == old(condFixStack) && booleanLevel == old(booleanLevel)
      decreases If(c, thn), 0
    {
      hide CondCode, Resolve, Branches, StmtCode, TopAfter, CondFoldable, StmtFoldable, CondSize;
      ghost var before, start, top := gen.opCode, gen.pc, gen.topReg;
      var trueJump := ConditionAndBody(c, thn);
      ghost var cond, body := CondCode(c, start, top), StmtCode(thn, trueJump, top);
      PatchCondition(cond, before, body, gen.pc, trueJump);
      IfShape(c, thn, start, top);
      TopShape(c, thn, Skip, top);
      assert before + Resolve(cond, gen.pc, trueJump) + body == before + (Resolve(cond, gen.pc, trueJump) + body);
      PopFixups();
    }

    method IfElseStatement(c: Cond, thn: Stmt, els: Stmt)
      requires gen.Valid() && CondFoldable(c) && StmtFoldable(thn) && StmtFoldable(els)
      modifies this, gen
      ensures gen.Valid() && gen.topReg == TopAfter(IfElse(c, thn, els), old(gen.topReg))
      ensures gen.opCode == old(gen.opCode) + StmtCode(IfElse(c, thn, els), old(gen.pc), old(gen.topReg))
      ensures condFixup == old(condFixup) && condFixStack == old(condFixStack) && booleanLevel == old(booleanLevel)
      decreases IfElse(c, thn, els), 0
    {
      hide CondCode, Resolve, Branches, StmtCode, TopAfter, CondFoldable, StmtFoldable, CondSize;
      ghost var before, start, top := gen.opCode, gen.pc, gen.topReg;
      var trueJump := ConditionAndBody(c, thn);
      ghost var cond, body := CondCode(c, start, top), StmtCode(thn, trueJump, top);
      ghost var open := Instr(Branch(Eq), 0, 0, FALSE_JUMP);
      var elsePC := gen.ElseAndLoopJump(FALSE_JUMP);
      assert gen.opCode == before + cond + (body + [open]);
      PatchCondition(cond, before, body + [open], elsePC + 2, trueJump);
      ghost var resolved := Resolve(cond, elsePC + 2, trueJump);
      assert gen.opCode == before + (resolved + body) + [open];
      ghost var other := StmtCode(els, gen.pc, gen.topReg);
      ElseBlock(elsePC, trueJump, els, before + (resolved + body));
      IfElseShape(c, thn, els, start, top);
      TopShape(c, thn, els, top);
      Regroup(before, resolved, body, [Instr(Branch(Eq), 0, 0, elsePC + 2 + |other|)], other);
      PopFixups();
    }

    /** The else branch, and the jump over it at list position `elsePC`. */
    method ElseBlock(elsePC: int, trueJump: int, els: Stmt, ghost before: seq<Instr>)
      requires gen.Valid() && StmtFoldable(els) && elsePC == |before|
      requires gen.opCode == before + [Instr(Branch(Eq), 0, 0, FALSE_JUMP)]
      modifies this, gen
      ensures gen.Valid() && gen.topReg == TopAfter(els, old(gen.topReg))
      ensures var other := StmtCode(els, old(gen.pc), old(gen.topReg));
        gen.opCode == before + [Instr(Branch(Eq), 0, 0, old(gen.pc) + |other|)] + other
      ensures condFixup == old(condFixup) && condFixStack == old(condFixStack) && booleanLevel == old(booleanLevel)
      decreases els, 2
    {
      hide StmtCode, TopAfter;
      BodyBlock(els);
      gen.FixConditionJump(elsePC, gen.pc, trueJump);
    }

    /** Compiles a statement: the emitted code is appended, and no instruction emitted earlier and no
        jump recorded for an enclosing statement is touched. */
    method BodyBlock(s: Stmt)
      requires gen.Valid() && StmtFoldable(s)
      modifies this, gen
      ensures gen.Valid() && gen.topReg == TopAfter(s, old(gen.topReg))
      ensures gen.opCode == old(gen.opCode) + StmtCode(s, old(gen.pc), old(gen.topReg))
      ensures condFixup == old(condFixup) && condFixStack == old(condFixStack) && booleanLevel == old(booleanLevel)
      decreases s, 1
    {
      hide CondCode, Resolve, Load, StmtCode, TopAfter;
      PlainShape(s, gen.pc, gen.topReg);
      match s
      case Skip =>
      case Seq(a, b) =>
        BodyBlock(a);
        BodyBlock(b);
      case Assign(c, e) =>
        Value2Reg(e);
        gen.StoreWordCell(c);
      case Print(e) =>
        Value2Reg(e);
        gen.PrintIO();
      case If(c, thn) => IfStatement(c, thn);
      case IfElse(c, thn, els) => IfElseStatement(c, thn, els);
      case While(c, body) => WhileStatement(c, body);
    }
  }

  lemma Assoc<T>(a: seq<T>, b: seq<T>, c: seq<T>)
    ensures a + b + c == a + (b + c)
  {
  }

  lemma Regroup(a: seq<Instr>, b: seq<Instr>, c: seq<Instr>, d: seq<Instr>, e: seq<Instr>)
    ensures a + (b + c) + d + e == a + (b + c + d + e)
  {
  }

  // ----- how far a condition has been emitted -----

  /** Everything the emission of a condition adds to. */
  datatype Emitted = Emitted(code: seq<Instr>, fixup: seq<int>, items: seq<FixUp>)

  /** The entries for settled operands, and those for the operand that is still open at `level`. */
  ghost predicate Recorded(before: seq<FixUp>, settled: seq<FixUp>, items: seq<FixUp>, done: seq<int>, open: seq<int>,
      level: int) {
    && Extends(before, settled, done, level - 1)
    && LevelsBelow(settled, level)
    && Extends(settled, items, open, level)
  }

  lemma RecordedMore(a: seq<FixUp>, b: seq<FixUp>, settled: seq<FixUp>, items: seq<FixUp>, p: seq<int>, q: seq<int>,
                     open: seq<int>, level: int)
    requires Extends(a, b, p, level - 1) && Recorded(b, settled, items, q, open, level)
    ensures Recorded(a, settled, items, p + q, open, level)
  {
    ExtendsMore(a, b, settled, p, q, level - 1);
  }

  /** `done` and `open` follow `before`; with `tail` in place of `open` they make up `whole`. */
  ghost predicate Laid<T>(before: seq<T>, now: seq<T>, done: seq<T>, open: seq<T>, tail: seq<T>, whole: seq<T>) {
    now == before + done + open && done + tail == whole
  }

  lemma LaidOpen<T>(before: seq<T>, mid: seq<T>, now: seq<T>, done: seq<T>, open: seq<T>, tail: seq<T>, whole: seq<T>)
    requires Laid(before, mid, done, [], tail, whole) && now == mid + open
    ensures Laid(before, now, done, open, tail, whole) && |mid| == |before| + |done|
  {
  }

  lemma LaidDone<T>(before: seq<T>, met: seq<T>, now: seq<T>, done: seq<T>, open: seq<T>, code: seq<T>, tail: seq<T>,
      whole: seq<T>)
    requires Laid(before, met, done, open, code + tail, whole) && now == before + done + code
    ensures Laid(before, now, done + code, [], tail, whole) && |met| == |before| + |done| + |open|
  {
  }

  lemma LaidMore<T>(before: seq<T>, mid: seq<T>, now: seq<T>, done: seq<T>, done': seq<T>, open: seq<T>, tail: seq<T>,
                    whole: seq<T>, whole': seq<T>)
    requires Laid(before, mid, done, [], whole', whole) && Laid(mid, now, done', open, tail, whole')
    ensures Laid(before, now, done + done', open, tail, whole) && |mid| == |before| + |done|
  {
  }

  lemma LaidAll<T>(before: seq<T>, now: seq<T>, done: seq<T>, open: seq<T>, whole: seq<T>)
    requires Laid(before, now, done, open, open, whole)
    ensures now == before + whole && whole == done + open
  {
  }

  /** All operands of `c` up to `next` are emitted and settled: `done` is their code. */
  ghost predicate Between(c: Cond, next: Cond, done: seq<Instr>, start: Emitted, top: nat, level: int, now: Emitted) {
    var n := |start.code|;
    && Laid(start.code, now.code, done, [], CondCode(next, n + 1 + |done|, top), CondCode(c, n + 1, top))
    && Laid(start.fixup, now.fixup, Branches(done, n), [], [], Branches(done, n))
    && Extends(start.items, now.items, Branches(done, n), level - 1)
    && LevelsBelow(now.items, level)
  }

  /** The first operand of `rest` is emitted too, but no operator after it has been met: only its
      jumps are recorded at `level`. */
  ghost predicate Standing(c: Cond, rest: Cond, done: seq<Instr>, settled: seq<FixUp>, start: Emitted, top: nat,
      level: int, now: Emitted) {
    var n := |start.code|;
    var pc := n + 1 + |done|;
    var operand := OperandCode(rest.o, pc, top);
    var open := Branches(operand, n + |done|);
    && Laid(start.code, now.code, done, operand, CondCode(rest, pc, top), CondCode(c, n + 1, top))
    && Laid(start.fixup, now.fixup, Branches(done, n), open, [], Branches(done, n))
    && Recorded(start.items, settled, now.items, Branches(done, n), open, level)
  }

  lemma Start(c: Cond, start: Emitted, top: nat, level: int)
    requires LevelsBelow(start.items, level)
    ensures Between(c, c, [], start, top, level, start)
  {
    hide CondCode, OperandCode, Settle;
    assert start.items[|start.items|..] == [];
  }

  lemma Read(c: Cond, rest: Cond, done: seq<Instr>, start: Emitted, top: nat, level: int, mid: Emitted, now: Emitted)
    requires Between(c, rest, done, start, top, level, mid)
    requires var operand := OperandCode(rest.o, |mid.code| + 1, top);
      var positions := Branches(operand, |mid.code|);
      && now.code == mid.code + operand
      && now.fixup == mid.fixup + positions
      && Extends(mid.items, now.items, positions, level)
    ensures Standing(c, rest, done, mid.items, start, top, level, now)
  {
    hide CondCode, OperandCode, Settle, Branches, Extends, LevelsBelow, Laid;
    var n := |start.code|;
    var operand := OperandCode(rest.o, |mid.code| + 1, top);
    LaidOpen(start.code, mid.code, now.code, done, operand, CondCode(rest, n + 1 + |done|, top),
      CondCode(c, n + 1, top));
    LaidOpen(start.fixup, mid.fixup, now.fixup, Branches(done, n), Branches(operand, n + |done|), [],
      Branches(done, n));
  }

  lemma Settled(c: Cond, rest: Cond, done: seq<Instr>, settled: seq<FixUp>, start: Emitted, top: nat, level: int,
                met: Emitted, now: Emitted)
    requires rest.Link? && Standing(c, rest, done, settled, start, top, level, met)
    requires var operand := OperandCode(rest.o, |start.code| + 1 + |done|, top);
      && now.code == start.code + done + Settle(rest.op, operand, |met.code| + 1)
      && now.fixup == met.fixup
      && Extends(settled, now.items, Branches(operand, |start.code| + |done|), level - 1)
      && LevelsBelow(now.items, level)
    ensures var operand := OperandCode(rest.o, |start.code| + 1 + |done|, top);
      Between(c, rest.rest, done + Settle(rest.op, operand, |met.code| + 1), start, top, level, now)
  {
    hide CondCode, OperandCode, Settle, Branches, Extends, LevelsBelow, Laid, Standing, Between, Recorded;
    var n := |start.code|;
    var operand := OperandCode(rest.o, n + 1 + |done|, top);
    var code := Settle(rest.op, operand, |met.code| + 1);
    var p, q := Branches(done, n), Branches(operand, n + |done|);
    FromStanding(c, rest, done, settled, start, top, level, met, operand, p, q);
    LinkCode(rest, n + 1 + |done|, top);
    LaidLength(start.code, met.code, done, operand, CondCode(rest, n + 1 + |done|, top), CondCode(c, n + 1, top));
    LaidDone(start.code, met.code, now.code, done, operand, code, CondCode(rest.rest, |met.code| + 1, top),
             CondCode(c, n + 1, top));
    SettledBranches(rest.op, done, operand, |met.code| + 1, n);
    LaidNoted(start.fixup, now.fixup, p, q);
    ExtendsMore(start.items, settled, now.items, p, q, level - 1);
    ToBetween(c, rest.rest, done + code, start, top, level, now, p + q, |met.code| + 1);
  }

  lemma FromStanding(c: Cond, rest: Cond, done: seq<Instr>, settled: seq<FixUp>, start: Emitted, top: nat, level: int,
                     met: Emitted, operand: seq<Instr>, p: seq<int>, q: seq<int>)
    requires Standing(c, rest, done, settled, start, top, level, met)
    requires operand == OperandCode(rest.o, |start.code| + 1 + |done|, top)
    requires p == Branches(done, |start.code|) && q == Branches(operand, |start.code| + |done|)
    ensures var n := |start.code|;
      && Laid(start.code, met.code, done, operand, CondCode(rest, n + 1 + |done|, top), CondCode(c, n + 1, top))
      && Laid(start.fixup, met.fixup, p, q, [], p)
      && Extends(start.items, settled, p, level - 1)
  {
    hide CondCode, OperandCode, Branches, Laid, Extends, LevelsBelow;
  }

  lemma ToBetween(c: Cond, next: Cond, done: seq<Instr>, start: Emitted, top: nat, level: int, now: Emitted,
                  all: seq<int>, pc: int)
    requires var n := |start.code|;
      && pc == n + 1 + |done| && all == Branches(done, n)
      && Laid(start.code, now.code, done, [], CondCode(next, pc, top), CondCode(c, n + 1, top))
      && Laid(start.fixup, now.fixup, all, [], [], all)
      && Extends(start.items, now.items, all, level - 1)
      && LevelsBelow(now.items, level)
    ensures Between(c, next, done, start, top, level, now)
  {
    hide CondCode, Branches, Laid, Extends, LevelsBelow;
  }

  lemma LaidLength<T>(before: seq<T>, now: seq<T>, done: seq<T>, open: seq<T>, tail: seq<T>, whole: seq<T>)
    requires Laid(before, now, done, open, tail, whole)
    ensures |now| == |before| + |done| + |open|
  {
  }

  lemma LaidNoted<T>(before: seq<T>, now: seq<T>, done: seq<T>, open: seq<T>)
    requires Laid(before, now, done, open, [], done)
    ensures Laid(before, now, done + open, [], [], done + open)
  {
  }

  lemma SettledBranches(op: BoolOp, done: seq<Instr>, operand: seq<Instr>, target: int, base: nat)
    ensures Branches(done + Settle(op, operand, target), base)
      == Branches(done, base) + Branches(operand, base + |done|)
  {
    hide Settle, Branches;
    BranchesAppend(done, Settle(op, operand, target), base);
    SettleKeepsBranches(op, operand, target, base + |done|);
  }

  lemma LinkCode(c: Cond, pc: int, top: nat)
    requires c.Link?
    ensures var operand := OperandCode(c.o, pc, top);
      CondCode(c, pc, top) == Settle(c.op, operand, pc + |operand|) + CondCode(c.rest, pc + |operand|, top)
  {
    hide OperandCode, OperandSize, CondSize, Settle, CompareCode;
  }

  lemma OneCode(c: Cond, pc: int, top: nat)
    requires c.One?
    ensures CondCode(c, pc, top) == OperandCode(c.o, pc, top)
  {
    hide OperandCode, OperandSize, CondSize, Settle, CompareCode;
  }

  lemma Resume(c: Cond, next: Cond, rest: Cond, done1: seq<Instr>, done2: seq<Instr>, settled: seq<FixUp>,
      start: Emitted, top: nat, level: int, mid: Emitted, now: Emitted)
    requires Between(c, next, done1, start, top, level, mid)
    requires Standing(next, rest, done2, settled, mid, top, level, now)
    ensures Standing(c, rest, done1 + done2, settled, start, top, level, now)
  {
    hide CondCode, OperandCode, Settle, Branches, Extends, LevelsBelow, Recorded, Laid;
    var n := |start.code|;
    var pc := |mid.code| + 1 + |done2|;
    var operand := OperandCode(rest.o, pc, top);
    var open := Branches(operand, |mid.code| + |done2|);
    LaidLength(start.code, mid.code, done1, [], CondCode(next, n + 1 + |done1|, top), CondCode(c, n + 1, top));
    LaidMore(start.code, mid.code, now.code, done1, done2, operand, CondCode(rest, pc, top), CondCode(c, n + 1, top),
             CondCode(next, |mid.code| + 1, top));
    BranchesAppend(done1, done2, n);
    LaidAlso(start.fixup, mid.fixup, now.fixup, Branches(done1, n), Branches(done2, |mid.code|), open);
    RecordedMore(start.items, mid.items, settled, now.items, Branches(done1, n), Branches(done2, |mid.code|), open,
      level);
  }

  lemma LaidAlso<T>(before: seq<T>, mid: seq<T>, now: seq<T>, p: seq<T>, q: seq<T>, open: seq<T>)
    requires Laid(before, mid, p, [], [], p) && Laid(mid, now, q, open, [], q)
    ensures Laid(before, now, p + q, open, [], p + q)
  {
  }

  lemma Finish(c: Cond, rest: Cond, done: seq<Instr>, settled: seq<FixUp>, start: Emitted, top: nat, level: int,
      now: Emitted)
    requires rest.One? && Standing(c, rest, done, settled, start, top, level, now)
    ensures var code := CondCode(c, |start.code| + 1, top);
      && now.code == start.code + code
      && now.fixup == start.fixup + Branches(code, |start.code|)
      && Extends(start.items, now.items, Branches(code, |start.code|), level - 1)
  {
    hide CondCode, OperandCode, Settle, Branches, Extends, LevelsBelow, Laid;
    var n := |start.code|;
    var operand := OperandCode(rest.o, n + 1 + |done|, top);
    var p, q := Branches(done, n), Branches(operand, n + |done|);
    OneCode(rest, n + 1 + |done|, top);
    LaidAll(start.code, now.code, done, operand, CondCode(c, n + 1, top));
    BranchesAppend(done, operand, n);
    LaidNoted(start.fixup, now.fixup, p, q);
    LaidFlat(start.fixup, now.fixup, p + q);
    ExtendsLower(settled, now.items, q, level);
    ExtendsMore(start.items, settled, now.items, p, q, level - 1);
  }

  lemma LaidFlat<T>(before: seq<T>, now: seq<T>, done: seq<T>)
    requires Laid(before, now, done, [], [], done)
    ensures now == before + done
  {
  }
}
