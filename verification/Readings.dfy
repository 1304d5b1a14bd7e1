/** Where the compiled reading of a program is the intended one, and where exactly it is not. */
module Readings {
  import opened Machine
  import opened Source

  // ----- operand order -----

  lemma SwapsExactly(op: Arith, l: Item, r: Item)
    ensures !Swaps(op, l, r)
       <==> forall a: Int32, b: Int32 :: Combine(op, l, r, a, b, Compiled) == Apply(op, a, b)
  {
    if Swaps(op, l, r) {
      assert Combine(op, l, r, 1, 2, Compiled) == Apply(op, 2, 1);
      assert Apply(op, 2, 1) != Apply(op, 1, 2);
    }
  }

  predicate InOrder(e: Expr) {
    match e
    case Var(_) => true
    case Num(_) => true
    case Bin(op, l, r) => InOrder(l) && InOrder(r) && !Swaps(op, ItemOf(l), ItemOf(r))
  }

  lemma {:induction false} InOrderAgrees(e: Expr, env: Env)
    requires InOrder(e) && Scoped(e, env.Keys)
    ensures Value(e, env, Compiled) == Value(e, env, Intended)
  {
    if e.Bin? {
      InOrderAgrees(e.l, env);
      InOrderAgrees(e.r, env);
    }
  }

  // ----- comparisons -----

  predicate Near(a: int, b: int) {
    -0x8000_0000 <= a - b <= 0x7fff_ffff
  }

  /** Equality tests are always right; an ordering test is right unless the difference overflows,
      and then it is always wrong. */
  lemma ComparesExactly(rel: Rel, a: Int32, b: Int32)
    ensures CompareValues(rel, a, b, Compiled) == CompareValues(rel, a, b, Intended)
       <==> rel in {Eq, Ne} || Near(a, b)
  {
  }

  ghost predicate AllNear(compared: seq<(Int32, Int32)>) {
    forall i :: 0 <= i < |compared| ==> Near(compared[i].0, compared[i].1)
  }

  lemma AllNearParts(a: seq<(Int32, Int32)>, b: seq<(Int32, Int32)>)
    requires AllNear(a + b)
    ensures AllNear(a) && AllNear(b)
  {
    forall i | 0 <= i < |a| ensures Near(a[i].0, a[i].1) {
      assert (a + b)[i] == a[i];
    }
    forall i | 0 <= i < |b| ensures Near(b[i].0, b[i].1) {
      assert (a + b)[|a| + i] == b[i];
    }
  }

  // ----- grouping -----

  predicate HasOr(c: Cond) {
    c.Link? && (c.op == Or || HasOr(c.rest))
  }

  /** No && has a || anywhere to its right at the same level of parentheses. */
  predicate Grouped(c: Cond) {
    && OperandGrouped(c.o)
    && (c.Link? ==> Grouped(c.rest) && !(c.op == And && HasOr(c.rest)))
  }

  predicate OperandGrouped(o: Operand) {
    o.Paren? ==> Grouped(o.c)
  }

  predicate CondInOrder(c: Cond) {
    OperandInOrder(c.o) && (c.Link? ==> CondInOrder(c.rest))
  }

  predicate OperandInOrder(o: Operand) {
    match o
    case Compare(_, l, r) => InOrder(l) && InOrder(r)
    case Paren(c) => CondInOrder(c)
  }

  lemma {:induction false} SkippedGroup(c: Cond, env: Env)
    requires CondScoped(c, env.Keys) && !HasOr(c)
    ensures Precedence(false, c, env, Intended) == Verdict(false, [])
  {
    if c.Link? {
      SkippedGroup(c.rest, env);
    }
  }

  /** It does not matter in which reading, `seen`, the comparisons are watched. */
  lemma {:induction false} OperandAgrees(o: Operand, env: Env, seen: Reading)
    requires OperandScoped(o, env.Keys) && OperandInOrder(o) && OperandGrouped(o)
    requires AllNear(OperandVerdict(o, env, seen).compared)
    ensures OperandVerdict(o, env, Compiled) == OperandVerdict(o, env, Intended)
    decreases o, 0
  {
    match o
    case Compare(rel, l, r) =>
      InOrderAgrees(l, env);
      InOrderAgrees(r, env);
      var a, b := Value(l, env, Intended), Value(r, env, Intended);
      assert OperandVerdict(o, env, seen).compared[0] == (a, b);
      ComparesExactly(rel, a, b);
    case Paren(c) => CondAgrees(c, env, seen);
  }

  lemma VerdictUnfolds(c: Cond, env: Env)
    requires CondScoped(c, env.Keys)
    ensures CondVerdict(c, env, Intended) == Precedence(true, c, env, Intended)
    ensures CondVerdict(c, env, Compiled) == RightToLeft(c, env, Compiled)
  {
  }

  lemma {:induction false} CondAgrees(c: Cond, env: Env, seen: Reading)
    requires CondScoped(c, env.Keys) && CondInOrder(c) && Grouped(c)
    requires AllNear(CondVerdict(c, env, seen).compared)
    ensures CondVerdict(c, env, Compiled) == CondVerdict(c, env, Intended)
    decreases c, 1
  {
    var v := OperandVerdict(c.o, env, seen);
    VerdictUnfolds(c, env);
    match c
    case One(o) => OperandAgrees(o, env, seen);
    case Link(o, op, rest) =>
      VerdictUnfolds(rest, env);
      if op == And && !v.holds {
        SkippedGroup(rest, env);
        assert v.compared + [] == v.compared;
        OperandAgrees(o, env, seen);
      } else if op == Or && v.holds {
        OperandAgrees(o, env, seen);
      } else {
        AllNearParts(v.compared, CondVerdict(rest, env, seen).compared);
        OperandAgrees(o, env, seen);
        CondAgrees(rest, env, seen);
      }
  }

  // ----- grouping matters exactly where it is missing -----

  /** The same operators and parentheses around possibly different comparisons. */
  predicate SameShape(c: Cond, d: Cond) {
    && OperandSameShape(c.o, d.o)
    && (c.One? <==> d.One?)
    && (c.Link? && d.Link? ==> c.op == d.op && SameShape(c.rest, d.rest))
  }

  predicate OperandSameShape(o: Operand, p: Operand) {
    match (o, p)
    case (Compare(_, _, _), Compare(_, _, _)) => true
    case (Paren(c), Paren(d)) => SameShape(c, d)
    case _ => false
  }

  const EMPTY: Env := map[]

  /** Every comparison compares 0 with 0. */
  predicate ComparesZeros(c: Cond) {
    OperandComparesZeros(c.o) && (c.Link? ==> ComparesZeros(c.rest))
  }

  predicate OperandComparesZeros(o: Operand) {
    match o
    case Compare(_, l, r) => l == r == Num(0)
    case Paren(c) => ComparesZeros(c)
  }

  lemma {:induction false} ZerosAreFine(c: Cond)
    requires ComparesZeros(c)
    ensures CondInOrder(c) && CondScoped(c, EMPTY.Keys)
  {
    if c.o.Paren? {
      ZerosAreFine(c.o.c);
    }
    if c.Link? {
      ZerosAreFine(c.rest);
    }
  }

  lemma {:induction false} ZerosAreNear(c: Cond, group: bool)
    requires ComparesZeros(c) && CondScoped(c, EMPTY.Keys)
    ensures AllNear(CondVerdict(c, EMPTY, Intended).compared)
    ensures AllNear(Precedence(group, c, EMPTY, Intended).compared)
    decreases c
  {
    if c.o.Paren? {
      ZerosAreNear(c.o.c, true);
    }
    var v := OperandVerdict(c.o, EMPTY, Intended);
    assert AllNear(v.compared);
    if c.Link? {
      ZerosAreNear(c.rest, true);
      ZerosAreNear(c.rest, false);
    }
  }

  /** The condition with every comparison replaced by 0 == 0 or by 0 != 0. */
  function Constant(c: Cond, holds: bool): (d: Cond)
    ensures SameShape(c, d) && CondScoped(d, EMPTY.Keys) && ComparesZeros(d)
  {
    match c
    case One(o) => One(ConstantOperand(o, holds))
    case Link(o, op, rest) => Link(ConstantOperand(o, holds), op, Constant(rest, holds))
  }

  function ConstantOperand(o: Operand, holds: bool): (p: Operand)
    ensures OperandSameShape(o, p) && OperandScoped(p, EMPTY.Keys) && OperandComparesZeros(p)
  {
    match o
    case Compare(_, _, _) => Compare(if holds then Eq else Ne, Num(0), Num(0))
    case Paren(c) => Paren(Constant(c, holds))
  }

  function Truth(c: Cond, reading: Reading): bool
    requires CondScoped(c, EMPTY.Keys)
  {
    CondVerdict(c, EMPTY, reading).holds
  }

  function OperandTruth(o: Operand, reading: Reading): bool
    requires OperandScoped(o, EMPTY.Keys)
  {
    OperandVerdict(o, EMPTY, reading).holds
  }

  lemma {:induction false} ConstantTruth(c: Cond, holds: bool, reading: Reading)
    ensures Truth(Constant(c, holds), reading) == holds
    ensures Precedence(false, Constant(c, holds), EMPTY, Intended).holds == (holds && HasOr(c))
    decreases c, 1
  {
    ConstantOperandTruth(c.o, holds, reading);
    ConstantOperandTruth(c.o, holds, Intended);
    Unfold(Constant(c, holds));
    if c.Link? {
      ConstantTruth(c.rest, holds, reading);
      ConstantTruth(c.rest, holds, Intended);
    }
  }

  lemma {:induction false} ConstantOperandTruth(o: Operand, holds: bool, reading: Reading)
    ensures OperandTruth(ConstantOperand(o, holds), reading) == holds
    decreases o, 0
  {
    if o.Paren? {
      ConstantTruth(o.c, holds, reading);
    }
  }

  /** A condition of constants on which the two readings differ. */
  ghost predicate Misread(c: Cond, d: Cond) {
    && SameShape(c, d) && ComparesZeros(d)
    && CondScoped(d, EMPTY.Keys) && Truth(d, Compiled) != Truth(d, Intended)
  }

  ghost predicate OperandMisread(o: Operand, p: Operand) {
    && OperandSameShape(o, p) && OperandComparesZeros(p)
    && OperandScoped(p, EMPTY.Keys) && OperandTruth(p, Compiled) != OperandTruth(p, Intended)
  }

  lemma {:induction false} UngroupedOperandIsMisread(o: Operand) returns (p: Operand)
    requires !OperandGrouped(o)
    ensures OperandMisread(o, p)
    decreases o, 0
  {
    var d := UngroupedIsMisread(o.c);
    p := Paren(d);
  }

  lemma {:induction false} UngroupedIsMisread(c: Cond) returns (d: Cond)
    requires !Grouped(c)
    ensures Misread(c, d)
    decreases c, 1
  {
    match c
    case One(o) =>
      var p := UngroupedOperandIsMisread(o);
      d := One(p);
      Unfold(d);
    case Link(o, op, rest) =>
      if op == And && HasOr(rest) {
        // false && true ... || true: the compiled && keeps the later || from being tried
        d := Constant(rest, true);
        ConstantTruth(rest, true, Intended);
        ConstantOperandTruth(o, false, Intended);
        ConstantOperandTruth(o, false, Compiled);
        d := Link(ConstantOperand(o, false), And, d);
        Unfold(d);
      } else if !OperandGrouped(o) {
        var p := UngroupedOperandIsMisread(o);
        var r := Constant(rest, op == And);
        ConstantTruth(rest, op == And, Intended);
        ConstantTruth(rest, op == And, Compiled);
        d := Link(p, op, r);
        Unfold(d);
      } else {
        var r := UngroupedIsMisread(rest);
        var p := ConstantOperand(o, op == And);
        ConstantOperandTruth(o, op == And, Intended);
        ConstantOperandTruth(o, op == And, Compiled);
        d := Link(p, op, r);
        Unfold(d);
      }
  }

  lemma Unfold(c: Cond)
    requires CondScoped(c, EMPTY.Keys)
    ensures Truth(c, Intended) == Precedence(true, c, EMPTY, Intended).holds
    ensures Truth(c, Compiled) == RightToLeft(c, EMPTY, Compiled).holds
    ensures c.Link? ==> Truth(c.rest, Intended) == Precedence(true, c.rest, EMPTY, Intended).holds
    ensures c.Link? ==> Truth(c.rest, Compiled) == RightToLeft(c.rest, EMPTY, Compiled).holds
  {
  }

  /** If `d` has the shape of `c`, its arithmetic is in order and no compared difference overflows,
      then both readings of `d` agree. */
  ghost predicate ReadAlike(c: Cond, d: Cond, env: Env) {
    SameShape(c, d) && CondInOrder(d) && CondScoped(d, env.Keys) && AllNear(CondVerdict(d, env, Intended).compared)
    ==> CondVerdict(d, env, Compiled) == CondVerdict(d, env, Intended)
  }

  /** The operators and parentheses of a condition alone decide whether the compiler can be relied
      on: grouped conditions are compiled right whatever they compare, and every other shape is
      compiled wrong for some comparisons, even of constants. */
  lemma GroupedExactly(c: Cond)
    ensures Grouped(c) <==> forall d: Cond, env: Env :: ReadAlike(c, d, env)
  {
    if Grouped(c) {
      forall d: Cond, env: Env ensures ReadAlike(c, d, env) {
        if SameShape(c, d) && CondInOrder(d) && CondScoped(d, env.Keys)
          && AllNear(CondVerdict(d, env, Intended).compared) {
          ShapeGrouped(c, d);
          CondAgrees(d, env, Intended);
        }
      }
    } else {
      var d := UngroupedIsMisread(c);
      ZerosAreFine(d);
      ZerosAreNear(d, true);
      assert !ReadAlike(c, d, EMPTY);
    }
  }

  lemma {:induction false} ShapeGrouped(c: Cond, d: Cond)
    requires SameShape(c, d) && Grouped(c)
    ensures Grouped(d) && HasOr(d) == HasOr(c)
  {
    if c.o.Paren? {
      ShapeGrouped(c.o.c, d.o.c);
    }
    if c.Link? {
      ShapeGrouped(c.rest, d.rest);
    }
  }

  // ----- statements -----

  predicate StmtReliable(p: Stmt) {
    match p
    case Skip => true
    case Seq(a, b) => StmtReliable(a) && StmtReliable(b)
    case Assign(_, e) => InOrder(e)
    case Print(e) => InOrder(e)
    case If(c, thn) => CondInOrder(c) && Grouped(c) && StmtReliable(thn)
    case IfElse(c, thn, els) => CondInOrder(c) && Grouped(c) && StmtReliable(thn) && StmtReliable(els)
    case While(c, body) => CondInOrder(c) && Grouped(c) && StmtReliable(body)
  }

  lemma {:induction false} ExecExtends(p: Stmt, st: Store, reading: Reading, turns: nat)
    requires StmtScoped(p, st.env.Keys) && Exec(p, st, reading, turns).Some?
    ensures st.compared <= Exec(p, st, reading, turns).value.compared
    decreases turns, p
  {
    match p
    case Skip =>
    case Assign(_, _) =>
    case Print(_) =>
    case Seq(a, b) =>
      ExecExtends(a, st, reading, turns);
      ExecExtends(b, Exec(a, st, reading, turns).value, reading, turns);
    case If(c, thn) =>
      var (holds, next) := Decide(c, st, reading);
      if holds {
        ExecExtends(thn, next, reading, turns);
      }
    case IfElse(c, thn, els) =>
      var (holds, next) := Decide(c, st, reading);
      ExecExtends(if holds then thn else els, next, reading, turns);
    case While(c, body) =>
      var (holds, next) := Decide(c, st, reading);
      if holds {
        ExecExtends(body, next, reading, turns);
        ExecExtends(p, Exec(body, next, reading, turns).value, reading, turns - 1);
      }
  }

  lemma DecideAgrees(c: Cond, st: Store, seen: Reading, compared: seq<(Int32, Int32)>)
    requires CondScoped(c, st.env.Keys) && CondInOrder(c) && Grouped(c)
    requires Decide(c, st, seen).1.compared <= compared && AllNear(compared)
    ensures Decide(c, st, Compiled) == Decide(c, st, Intended)
  {
    var next := Decide(c, st, seen).1.compared;
    AllNearParts(next, compared[|next|..]);
    AllNearParts(st.compared, CondVerdict(c, st.env, seen).compared);
    CondAgrees(c, st.env, seen);
  }

  lemma PrefixIsNear(a: seq<(Int32, Int32)>, b: seq<(Int32, Int32)>)
    requires a <= b && AllNear(b)
    ensures AllNear(a)
  {
    assert b == a + b[|a|..];
    AllNearParts(a, b[|a|..]);
  }

  /** A reliable program that compares no two numbers further than 2^31 apart runs alike in both
      readings: if it ends in either, it ends in the other. */
  lemma {:induction false} ExecAgrees(p: Stmt, st: Store, seen: Reading, turns: nat)
    requires StmtScoped(p, st.env.Keys) && StmtReliable(p)
    requires Exec(p, st, seen, turns).Some? && AllNear(Exec(p, st, seen, turns).value.compared)
    ensures Exec(p, st, Compiled, turns) == Exec(p, st, Intended, turns)
    decreases turns, p
  {
    var all := Exec(p, st, seen, turns).value.compared;
    match p
    case Skip =>
    case Assign(_, e) => InOrderAgrees(e, st.env);
    case Print(e) => InOrderAgrees(e, st.env);
    case Seq(a, b) =>
      var mid := Exec(a, st, seen, turns).value;
      ExecExtends(b, mid, seen, turns);
      PrefixIsNear(mid.compared, all);
      ExecAgrees(a, st, seen, turns);
      ExecAgrees(b, mid, seen, turns);
    case If(c, thn) =>
      var (holds, next) := Decide(c, st, seen);
      if holds {
        ExecExtends(thn, next, seen, turns);
        ExecAgrees(thn, next, seen, turns);
      }
      DecideAgrees(c, st, seen, all);
    case IfElse(c, thn, els) =>
      var (holds, next) := Decide(c, st, seen);
      ExecExtends(if holds then thn else els, next, seen, turns);
      ExecAgrees(if holds then thn else els, next, seen, turns);
      DecideAgrees(c, st, seen, all);
    case While(c, body) =>
      var (holds, next) := Decide(c, st, seen);
      if holds {
        var mid := Exec(body, next, seen, turns).value;
        ExecExtends(body, next, seen, turns);
        ExecExtends(p, mid, seen, turns - 1);
        PrefixIsNear(mid.compared, all);
        ExecAgrees(body, next, seen, turns);
        ExecAgrees(p, mid, seen, turns - 1);
      }
      DecideAgrees(c, st, seen, all);
  }
}
