/** Running the emitted code on the machine does what the `Compiled` reading of the source says. */
module Simulation {
  import opened Machine
  import opened Source
  import opened CodeShape

  // ----- machine states that represent a store -----

  function Address(c: Cell, fp: Int32): Int32 {
    if c.global then Wrap(-c.offset) else Wrap(fp + c.offset)
  }

  /** Distinct variables live in distinct memory words. */
  ghost predicate Separate(cells: set<Cell>, fp: Int32) {
    && (forall c :: c in cells ==> Mapped(Address(c, fp)))
    && (forall c, d :: c in cells && d in cells && c != d ==> Address(c, fp) != Address(d, fp))
  }

  ghost predicate Represents(s: State, env: Env, fp: Int32) {
    && s.Ok() && s.regs[0] == 0 && s.regs[FP] == fp
    && Separate(env.Keys, fp)
    && (forall c :: c in env ==> s.mem[Address(c, fp)] == env[c])
  }

  /** The registers an instruction sequence working above `top` leaves alone. */
  ghost predicate Keeps(s: State, t: State, top: nat) {
    && |s.regs| == |t.regs| == REGISTERS
    && (forall i :: 0 <= i < REGISTERS && (i <= top || i == FP || i == SP) ==> t.regs[i] == s.regs[i])
  }

  /** `n` instructions further on, with nothing but registers above `top` changed. */
  ghost predicate Advances(s: State, t: State, n: nat, top: nat) {
    && t == s.(pc := s.pc + n, regs := t.regs)
    && Keeps(s, t, top)
  }

  /** The machine gets from s to t, `n` instructions further on, changing only registers above
      `top`. */
  ghost predicate Goes(code: seq<Instr>, s: State, t: State, n: nat, top: nat) {
    Reaches(code, s, t) && Advances(s, t, n, top)
  }

  /** The same, leaving `v` in register top + 1. */
  ghost predicate Computes(code: seq<Instr>, s: State, t: State, n: nat, top: nat, v: Int32) {
    Goes(code, s, t, n, top) && top + 1 < REGISTERS && t.regs[top + 1] == v
  }

  lemma GoesOn(code: seq<Instr>, s: State, t: State, u: State, m: nat, n: nat, top: nat, top': nat)
    requires Goes(code, s, t, m, top) && Goes(code, t, u, n, top') && top <= top'
    ensures Goes(code, s, u, m + n, top)
  {
    ReachesTransitive(code, s, t, u);
  }

  lemma GoesThenComputes(code: seq<Instr>, s: State, t: State, u: State, m: nat, n: nat, top: nat, top': nat, v: Int32)
    requires Goes(code, s, t, m, top') && Computes(code, t, u, n, top, v) && top <= top'
    ensures Computes(code, s, u, m + n, top, v)
  {
    ReachesTransitive(code, s, t, u);
  }

  lemma GoesRepresents(code: seq<Instr>, s: State, t: State, n: nat, top: nat, env: Env, fp: Int32)
    requires Represents(s, env, fp) && Goes(code, s, t, n, top)
    ensures Represents(t, env, fp) && t.pc == s.pc + n
  {
  }

  lemma ComputesRepresents(code: seq<Instr>, s: State, t: State, n: nat, top: nat, v: Int32, env: Env, fp: Int32)
    requires Represents(s, env, fp) && Computes(code, s, t, n, top, v)
    ensures Goes(code, s, t, n, top) && Represents(t, env, fp) && t.pc == s.pc + n
    ensures top + 1 < |t.regs| && t.regs[top + 1] == v
  {
  }

  // ----- arithmetic -----

  ghost predicate Holding(item: Item, v: Int32, s: State, env: Env, register: nat) {
    match item
    case VarItem(c) => c in env && env[c] == v
    case ImmItem(n) => n == v
    case RegItem => register < |s.regs| && s.regs[register] == v
  }

  lemma StillHolding(code: seq<Instr>, item: Item, v: Int32, s: State, t: State, n: nat, top: nat, env: Env,
      register: nat)
    requires Holding(item, v, s, env, register)
    requires Goes(code, s, t, n, top) && (item.RegItem? ==> register <= top)
    ensures Holding(item, v, t, env, register)
  {
  }

  lemma Stays(code: seq<Instr>, s: State) returns (t: State)
    ensures Reaches(code, s, t) && t == s
  {
    t := s;
    assert Run(code, s, 0) == s;
  }

  /** A constant minus a register is the negated register plus the constant, wrap-around included. */
  lemma NegateAndAdd(n: Int32, v: Int32)
    ensures Wrap(Wrap(0 - v) + n) == Wrap(n - v)
  {
  }

  lemma Commutes(a: Int32, b: Int32)
    ensures Apply(Add, a, b) == Apply(Add, b, a) && Apply(Mul, a, b) == Apply(Mul, b, a)
  {
    assert a * b == b * a;
  }

  lemma LoadWordRuns(code: seq<Instr>, c: Cell, s: State, env: Env, fp: Int32, top: nat) returns (t: State)
    requires Represents(s, env, fp) && c in env && top + 1 < FP
    requires At(code, s.pc, [LoadWord(c, top + 1)])
    ensures Computes(code, s, t, 1, top, env[c])
  {
    StepAt(code, LoadWord(c, top + 1), s);
    t := Execute(LoadWord(c, top + 1), s);
  }

  lemma ConstantRuns(code: seq<Instr>, n: Int32, s: State, env: Env, fp: Int32, top: nat) returns (t: State)
    requires Represents(s, env, fp) && top + 1 < FP
    requires At(code, s.pc, [Instr(AluI(Add), top + 1, 0, n)])
    ensures Computes(code, s, t, 1, top, n)
  {
    assert Wrap(n) == n;
    StepAt(code, Instr(AluI(Add), top + 1, 0, n), s);
    t := Execute(Instr(AluI(Add), top + 1, 0, n), s);
  }

  lemma AluRuns(code: seq<Instr>, op: Arith, a: Int32, b: Int32, s: State, top: nat) returns (t: State)
    requires s.Ok() && top + 2 < FP && s.regs[top + 1] == a && s.regs[top + 2] == b
    requires At(code, s.pc, [Instr(Alu(op), top + 1, top + 1, top + 2)])
    ensures Computes(code, s, t, 1, top, Apply(op, a, b))
  {
    StepAt(code, Instr(Alu(op), top + 1, top + 1, top + 2), s);
    t := Execute(Instr(Alu(op), top + 1, top + 1, top + 2), s);
  }

  lemma AluIRuns(code: seq<Instr>, op: Arith, a: Int32, n: Int32, s: State, top: nat) returns (t: State)
    requires s.Ok() && top + 1 < FP && s.regs[top + 1] == a
    requires At(code, s.pc, [Instr(AluI(op), top + 1, top + 1, n)])
    ensures Computes(code, s, t, 1, top, Apply(op, a, n))
  {
    assert Wrap(n) == n;
    StepAt(code, Instr(AluI(op), top + 1, top + 1, n), s);
    t := Execute(Instr(AluI(op), top + 1, top + 1, n), s);
  }

  lemma NegateRuns(code: seq<Instr>, b: Int32, s: State, env: Env, fp: Int32, top: nat) returns (t: State)
    requires Represents(s, env, fp) && top + 1 < FP && s.regs[top + 1] == b
    requires At(code, s.pc, [Instr(Alu(Sub), top + 1, 0, top + 1)])
    ensures Computes(code, s, t, 1, top, Wrap(0 - b))
  {
    StepAt(code, Instr(Alu(Sub), top + 1, 0, top + 1), s);
    t := Execute(Instr(Alu(Sub), top + 1, 0, top + 1), s);
  }

  /** Brings a pending operand into register top + 1, where a register operand already is. */
  lemma FetchRuns(code: seq<Instr>, item: Item, v: Int32, s: State, env: Env, fp: Int32, top: nat) returns (t: State)
    requires Represents(s, env, fp) && top + 1 < FP && Holding(item, v, s, env, top + 1)
    requires At(code, s.pc, Fetch(item, top))
    ensures Computes(code, s, t, |Fetch(item, top)|, top, v)
  {
    match item
    case VarItem(c) => t := LoadWordRuns(code, c, s, env, fp, top);
    case ImmItem(n) => t := ConstantRuns(code, n, s, env, fp, top);
    case RegItem => t := Stays(code, s);
  }

  lemma ReversedRuns(code: seq<Instr>, op: Arith, n: Int32, b: Int32, s: State, env: Env, fp: Int32, top: nat)
    returns (t: State)
    requires Represents(s, env, fp) && top + 1 < FP && s.regs[top + 1] == b
    requires At(code, s.pc, Reversed(op, n, top + 1))
    ensures Computes(code, s, t, |Reversed(op, n, top + 1)|, top, Combine(op, ImmItem(n), RegItem, n, b, Compiled))
  {
    var k := top + 1;
    Commutes(n, b);
    if op == Sub {
      var negate, add := [Instr(Alu(Sub), k, 0, k)], [Instr(AluI(Add), k, k, n)];
      NegateAndAdd(n, b);
      assert Apply(Add, Wrap(0 - b), n) == Combine(op, ImmItem(n), RegItem, n, b, Compiled);
      assert Reversed(op, n, k) == negate + add;
      hide *;
      AtSplit(code, s.pc, negate, add);
      var mid := NegateRuns(code, b, s, env, fp, top);
      ComputesRepresents(code, s, mid, 1, top, Wrap(0 - b), env, fp);
      RepresentsIsOk(mid, env, fp);
      t := AluIRuns(code, Add, Wrap(0 - b), n, mid, top);
      GoesThenComputes(code, s, mid, t, 1, 1, top, top, Apply(Add, Wrap(0 - b), n));
    } else {
      t := AluIRuns(code, op, b, n, s, top);
    }
  }

  lemma RepresentsIsOk(s: State, env: Env, fp: Int32)
    requires Represents(s, env, fp)
    ensures s.Ok() && |s.regs| == REGISTERS && REGISTERS == 32 && FP == 29
  {
  }

  /** Fetches one operand and hands over to the instruction that combines it. */
  lemma FetchedRuns(code: seq<Instr>, item: Item, v: Int32, last: seq<Instr>, s: State, env: Env, fp: Int32, top: nat)
    returns (mid: State)
    requires Represents(s, env, fp) && top + 1 < FP && Holding(item, v, s, env, top + 1)
    requires At(code, s.pc, Fetch(item, top) + last)
    ensures Goes(code, s, mid, |Fetch(item, top)|, top) && Represents(mid, env, fp)
    ensures mid.Ok() && mid.regs[top + 1] == v && At(code, mid.pc, last)
  {
    AtSplit(code, s.pc, Fetch(item, top), last);
    mid := FetchRuns(code, item, v, s, env, fp, top);
    ComputesRepresents(code, s, mid, |Fetch(item, top)|, top, v, env, fp);
  }

  /** One step of the delayed code generator, for every pair of operand modes. */
  lemma JoinRuns(code: seq<Instr>, op: Arith, l: Item, r: Item, a: Int32, b: Int32,
                 s: State, env: Env, fp: Int32, top: nat) returns (t: State)
    requires Represents(s, env, fp) && top + 2 < FP
    requires !(l.ImmItem? && r.ImmItem?)
    requires Holding(l, a, s, env, top + 1) && Holding(r, b, s, env, top + 1 + Cost(l))
    requires At(code, s.pc, Join(op, l, r, top))
    ensures Computes(code, s, t, |Join(op, l, r, top)|, top, Combine(op, l, r, a, b, Compiled))
  {
    var k := top + 1;
    if r.ImmItem? {
      var last := [Instr(AluI(op), k, k, b)];
      assert Join(op, l, r, top) == Fetch(l, top) + last;
      assert Combine(op, l, r, a, b, Compiled) == Apply(op, a, b);
      hide *;
      var mid := FetchedRuns(code, l, a, last, s, env, fp, top);
      t := AluIRuns(code, op, a, b, mid, top);
      GoesThenComputes(code, s, mid, t, |Fetch(l, top)|, 1, top, top, Apply(op, a, b));
    } else if l.ImmItem? {
      var last := Reversed(op, a, k);
      var v := Combine(op, ImmItem(a), RegItem, a, b, Compiled);
      assert Join(op, l, r, top) == Fetch(r, top) + last;
      assert Combine(op, l, r, a, b, Compiled) == v;
      hide *;
      var mid := FetchedRuns(code, r, b, last, s, env, fp, top);
      t := ReversedRuns(code, op, a, b, mid, env, fp, top);
      GoesThenComputes(code, s, mid, t, |Fetch(r, top)|, |last|, top, top, v);
    } else {
      t := TwoRuns(code, op, l, r, a, b, s, env, fp, top);
    }
  }

  /** Neither operand is a constant. A variable on the left of a register comes to lie above it,
      so the operands change places. */
  lemma TwoRuns(code: seq<Instr>, op: Arith, l: Item, r: Item, a: Int32, b: Int32,
                s: State, env: Env, fp: Int32, top: nat) returns (t: State)
    requires Represents(s, env, fp) && top + 2 < FP && !l.ImmItem? && !r.ImmItem?
    requires Holding(l, a, s, env, top + 1) && Holding(r, b, s, env, top + 1 + Cost(l))
    requires At(code, s.pc, Join(op, l, r, top))
    ensures Computes(code, s, t, |Join(op, l, r, top)|, top, Combine(op, l, r, a, b, Compiled))
  {
    Commutes(a, b);
    var k := top + 1;
    var last := [Instr(Alu(op), k, k, k + 1)];
    if l.VarItem? && r.RegItem? {
      assert Join(op, l, r, top) == Fetch(l, k) + last;
      assert Combine(op, l, r, a, b, Compiled) == Apply(op, b, a);
      var mid := FetchedRuns(code, l, a, last, s, env, fp, k);
      StillHolding(code, r, b, s, mid, |Fetch(l, k)|, k, env, k);
      t := AluRuns(code, op, b, a, mid, top);
      GoesThenComputes(code, s, mid, t, |Fetch(l, k)|, 1, top, k, Apply(op, b, a));
    } else if r.RegItem? {
      t := AluRuns(code, op, a, b, s, top);
    } else {
      assert Join(op, l, r, top) == Fetch(l, top) + (Fetch(r, k) + last);
      assert Combine(op, l, r, a, b, Compiled) == Apply(op, a, b);
      assert Holding(r, b, s, env, k + 1);
      t := BothFetchedRuns(code, op, l, r, a, b, s, env, fp, top);
    }
  }

  lemma BothFetchedRuns(code: seq<Instr>, op: Arith, l: Item, r: Item, a: Int32, b: Int32,
                        s: State, env: Env, fp: Int32, top: nat) returns (t: State)
    requires Represents(s, env, fp) && top + 2 < FP && r.VarItem?
    requires Holding(l, a, s, env, top + 1) && Holding(r, b, s, env, top + 2)
    requires At(code, s.pc, Fetch(l, top) + (Fetch(r, top + 1) + [Instr(Alu(op), top + 1, top + 1, top + 2)]))
    ensures Computes(code, s, t, |Fetch(l, top)| + |Fetch(r, top + 1)| + 1, top, Apply(op, a, b))
  {
    var k := top + 1;
    var last := [Instr(Alu(op), k, k, k + 1)];
    var s1 := FetchedRuns(code, l, a, Fetch(r, k) + last, s, env, fp, top);
    assert Holding(r, b, s1, env, k + 1) && Holding(RegItem, a, s1, env, k);
    var s2 := FetchedRuns(code, r, b, last, s1, env, fp, k);
    StillHolding(code, RegItem, a, s1, s2, |Fetch(r, k)|, k, env, k);
    t := AluRuns(code, op, a, b, s2, top);
    GoesThenComputes(code, s1, s2, t, |Fetch(r, k)|, 1, top, k, Apply(op, a, b));
    GoesThenComputes(code, s, s1, t, |Fetch(l, top)|, |Fetch(r, k)| + 1, top, top, Apply(op, a, b));
  }

  lemma {:induction false} PendingRuns(code: seq<Instr>, e: Expr, s: State, env: Env, fp: Int32, top: nat)
    returns (t: State)
    requires Represents(s, env, fp) && Scoped(e, env.Keys) && top + Need(e) < FP
    requires At(code, s.pc, Pending(e, top))
    ensures Goes(code, s, t, |Pending(e, top)|, top)
    ensures Holding(ItemOf(e), Value(e, env, Compiled), t, env, top + 1)
    decreases e, 1
  {
    match e
    case Var(_) => t := Stays(code, s);
    case Num(_) => t := Stays(code, s);
    case Bin(op, l, r) =>
      NeedIsPositive(r);
      t := BinRuns(code, op, l, r, s, env, fp, top);
  }

  lemma {:induction false} BinRuns(code: seq<Instr>, op: Arith, l: Expr, r: Expr, s: State, env: Env, fp: Int32,
      top: nat)
    returns (t: State)
    requires Represents(s, env, fp) && Scoped(l, env.Keys) && Scoped(r, env.Keys)
    requires top + Need(l) < FP && top + 1 + Need(r) < FP && top + 2 < FP
    requires At(code, s.pc, Pending(Bin(op, l, r), top))
    ensures Goes(code, s, t, |Pending(Bin(op, l, r), top)|, top)
    ensures Holding(ItemOf(Bin(op, l, r)), Value(Bin(op, l, r), env, Compiled), t, env, top + 1)
    decreases Bin(op, l, r), 0
  {
    hide *;
    var top' := top + Cost(ItemOf(l));
    var left, right := Pending(l, top), Pending(r, top');
    var join := Join(op, ItemOf(l), ItemOf(r), top);
    BinShape(op, l, r, top);
    AtSplit(code, s.pc, left + right, join);
    AtSplit(code, s.pc, left, right);
    var s1 := PendingRuns(code, l, s, env, fp, top);
    GoesRepresents(code, s, s1, |left|, top, env, fp);
    var s2 := PendingRuns(code, r, s1, env, fp, top');
    GoesRepresents(code, s1, s2, |right|, top', env, fp);
    GoesOn(code, s, s1, s2, |left|, |right|, top, top');
    StillHolding(code, ItemOf(l), Value(l, env, Compiled), s1, s2, |right|, top', env, top + 1);
    t := JoinOrFoldRuns(code, op, l, r, s2, env, fp, top);
    GoesOn(code, s, s2, t, |left + right|, |join|, top, top);
  }

  lemma NeedIsPositive(e: Expr)
    ensures Need(e) >= 1
  {
  }

  lemma JoinOrFoldRuns(code: seq<Instr>, op: Arith, l: Expr, r: Expr, s: State, env: Env, fp: Int32, top: nat)
    returns (t: State)
    requires Represents(s, env, fp) && Scoped(l, env.Keys) && Scoped(r, env.Keys) && top + 2 < FP
    requires Holding(ItemOf(l), Value(l, env, Compiled), s, env, top + 1)
    requires Holding(ItemOf(r), Value(r, env, Compiled), s, env, top + Cost(ItemOf(l)) + 1)
    requires At(code, s.pc, Join(op, ItemOf(l), ItemOf(r), top))
    ensures Goes(code, s, t, |Join(op, ItemOf(l), ItemOf(r), top)|, top)
    ensures Holding(ItemOf(Bin(op, l, r)), Value(Bin(op, l, r), env, Compiled), t, env, top + 1)
  {
    if ItemOf(l).ImmItem? && ItemOf(r).ImmItem? {
      t := Stays(code, s);
    } else {
      t := JoinRuns(code, op, ItemOf(l), ItemOf(r), Value(l, env, Compiled), Value(r, env, Compiled), s, env, fp, top);
    }
  }

  lemma LoadRuns(code: seq<Instr>, e: Expr, s: State, env: Env, fp: Int32, top: nat) returns (t: State)
    requires Represents(s, env, fp) && Scoped(e, env.Keys) && top + Need(e) < FP
    requires At(code, s.pc, Load(e, top))
    ensures Computes(code, s, t, |Load(e, top)|, top, Value(e, env, Compiled))
  {
    var pending, fetch := Pending(e, top), Fetch(ItemOf(e), top);
    NeedIsPositive(e);
    AtSplit(code, s.pc, pending, fetch);
    var mid := PendingRuns(code, e, s, env, fp, top);
    GoesRepresents(code, s, mid, |pending|, top, env, fp);
    t := FetchRuns(code, ItemOf(e), Value(e, env, Compiled), mid, env, fp, top);
    GoesThenComputes(code, s, mid, t, |pending|, |fetch|, top, top, Value(e, env, Compiled));
  }

  // ----- conditions -----

  /** The machine gets to the instruction at `target` having compared exactly `log`; memory and
      output are untouched. */
  ghost predicate Decides(code: seq<Instr>, s: State, t: State, target: int, log: seq<(Int32, Int32)>, top: nat) {
    && Reaches(code, s, t)
    && t == s.(pc := target, regs := t.regs, compared := s.compared + log)
    && Keeps(s, t, top)
  }

  lemma DecidesOn(code: seq<Instr>, s: State, t: State, u: State, mid: int, target: int,
                  log: seq<(Int32, Int32)>, log': seq<(Int32, Int32)>, top: nat)
    requires Decides(code, s, t, mid, log, top) && Decides(code, t, u, target, log', top)
    ensures Decides(code, s, u, target, log + log', top)
  {
    ReachesTransitive(code, s, t, u);
    assert s.compared + log + log' == s.compared + (log + log');
  }

  lemma DecidesRepresents(code: seq<Instr>, s: State, t: State, target: int, log: seq<(Int32, Int32)>, top: nat,
                          env: Env, fp: Int32)
    requires Represents(s, env, fp) && Decides(code, s, t, target, log, top)
    ensures Represents(t, env, fp) && t.pc == target
  {
  }

  lemma GoesThenDecides(code: seq<Instr>, s: State, t: State, u: State, n: nat, target: int,
                        log: seq<(Int32, Int32)>, top: nat)
    requires Goes(code, s, t, n, top) && Decides(code, t, u, target, log, top)
    ensures Decides(code, s, u, target, log, top)
  {
    ReachesTransitive(code, s, t, u);
  }

  lemma CmpRuns(code: seq<Instr>, a: Int32, b: Int32, s: State, top: nat) returns (t: State)
    requires s.Ok() && top + 2 < FP && s.regs[top + 1] == a && s.regs[top + 2] == b
    requires At(code, s.pc, [Instr(Cmp, top + 1, top + 1, top + 2)])
    ensures Decides(code, s, t, s.pc + 1, [(a, b)], top)
    ensures t.Ok() && t.regs[top + 1] == Difference(a, b)
  {
    StepAt(code, Instr(Cmp, top + 1, top + 1, top + 2), s);
    t := Execute(Instr(Cmp, top + 1, top + 1, top + 2), s);
  }

  lemma BranchRuns(code: seq<Instr>, rel: Rel, d: Int32, target: int, s: State, top: nat) returns (t: State)
    requires s.Ok() && top + 1 < FP && s.regs[top + 1] == d && target != -1
    requires At(code, s.pc, [Instr(Branch(rel), top + 1, 0, target)])
    ensures Decides(code, s, t, if Holds(rel, d, 0) then target else s.pc + 1, [], top)
  {
    StepAt(code, Instr(Branch(rel), top + 1, 0, target), s);
    t := Execute(Instr(Branch(rel), top + 1, 0, target), s);
    assert s.compared + [] == s.compared;
  }

  /** Two values compared; the branch that follows is still to come. */
  lemma CompareRuns(code: seq<Instr>, l: Expr, r: Expr, s: State, env: Env, fp: Int32, top: nat) returns (t: State)
    requires Represents(s, env, fp) && Scoped(l, env.Keys) && Scoped(r, env.Keys)
    requires top + Need(l) < FP && top + 1 + Need(r) < FP
    requires At(code, s.pc, CompareCode(l, r, top))
    ensures var a, b := Value(l, env, Compiled), Value(r, env, Compiled);
      && Decides(code, s, t, s.pc + |CompareCode(l, r, top)|, [(a, b)], top)
      && t.Ok() && t.regs[top + 1] == Difference(a, b)
  {
    hide *;
    var first, second, cmp := Load(l, top), Load(r, top + 1), [Instr(Cmp, top + 1, top + 1, top + 2)];
    var a, b := Value(l, env, Compiled), Value(r, env, Compiled);
    CompareShape(l, r, top);
    NeedIsPositive(r);
    AtSplit(code, s.pc, first + second, cmp);
    AtSplit(code, s.pc, first, second);
    var s1 := LoadRuns(code, l, s, env, fp, top);
    ComputesRepresents(code, s, s1, |first|, top, a, env, fp);
    var s2 := LoadRuns(code, r, s1, env, fp, top + 1);
    ComputesRepresents(code, s1, s2, |second|, top + 1, b, env, fp);
    GoesKeeps(code, s1, s2, |second|, top + 1, top + 1);
    GoesOn(code, s, s1, s2, |first|, |second|, top, top + 1);
    RepresentsIsOk(s2, env, fp);
    t := CmpRuns(code, a, b, s2, top);
    GoesThenDecides(code, s, s2, t, |first| + |second|, s2.pc + 1, [(a, b)], top);
  }

  lemma CompareShape(l: Expr, r: Expr, top: nat)
    ensures CompareCode(l, r, top) == Load(l, top) + Load(r, top + 1) + [Instr(Cmp, top + 1, top + 1, top + 2)]
    ensures FP == 29
  {
  }

  lemma GoesKeeps(code: seq<Instr>, s: State, t: State, n: nat, top: nat, i: nat)
    requires Goes(code, s, t, n, top) && i <= top && i < FP
    ensures |s.regs| == |t.regs| == 32 && s.regs[i] == t.regs[i]
  {
  }

  /** `flip` code falls through to the false target, other code to the true one. */
  predicate FallsThrough(next: int, ifFalse: int, ifTrue: int, flip: bool) {
    ifFalse >= 1 && ifTrue >= 1 && next == if flip then ifFalse else ifTrue
  }

  function Target(holds: bool, ifFalse: int, ifTrue: int): int {
    if holds then ifTrue else ifFalse
  }

  lemma CompareAndBranchRuns(code: seq<Instr>, rel: Rel, l: Expr, r: Expr, s: State, env: Env, fp: Int32, top: nat,
                             ifFalse: int, ifTrue: int, flip: bool) returns (t: State)
    requires Represents(s, env, fp) && Scoped(l, env.Keys) && Scoped(r, env.Keys)
    requires top + Need(l) < FP && top + 1 + Need(r) < FP
    requires FallsThrough(s.pc + |CompareCode(l, r, top)| + 1, ifFalse, ifTrue, flip)
    requires At(code, s.pc, OperandJumps(Compare(rel, l, r), s.pc, top, ifFalse, ifTrue, flip))
    ensures var v := OperandVerdict(Compare(rel, l, r), env, Compiled);
      Decides(code, s, t, Target(v.holds, ifFalse, ifTrue), v.compared, top)
  {
    var a, b := Value(l, env, Compiled), Value(r, env, Compiled);
    var d := Difference(a, b);
    var jump := if flip then Instr(Branch(rel), top + 1, 0, ifTrue)
      else Instr(Branch(Invert(rel)), top + 1, 0, ifFalse);
    AtSplit(code, s.pc, CompareCode(l, r, top), [jump]);
    var s1 := CompareRuns(code, l, r, s, env, fp, top);
    t := BranchRuns(code, if flip then rel else Invert(rel), d, if flip then ifTrue else ifFalse, s1, top);
    DecidesOn(code, s, s1, t, s1.pc, t.pc, [(a, b)], [], top);
    assert [(a, b)] + [] == [(a, b)];
  }

  lemma {:induction false} OperandRuns(code: seq<Instr>, o: Operand, s: State, env: Env, fp: Int32, top: nat,
                                       ifFalse: int, ifTrue: int, flip: bool) returns (t: State)
    requires Represents(s, env, fp) && OperandScoped(o, env.Keys) && OperandFits(o, top)
    requires FallsThrough(s.pc + OperandSize(o, top), ifFalse, ifTrue, flip)
    requires At(code, s.pc, OperandJumps(o, s.pc, top, ifFalse, ifTrue, flip))
    ensures var v := OperandVerdict(o, env, Compiled);
      Decides(code, s, t, Target(v.holds, ifFalse, ifTrue), v.compared, top)
    decreases o, 0
  {
    match o
    case Compare(rel, l, r) => t := CompareAndBranchRuns(code, rel, l, r, s, env, fp, top, ifFalse, ifTrue, flip);
    case Paren(c) => t := CondRuns(code, c, s, env, fp, top, ifFalse, ifTrue, flip);
  }

  /** The jumping code reaches the true target exactly when the condition holds in the compiled
      reading, comparing what that reading compares, in the same order. */
  lemma {:induction false} CondRuns(code: seq<Instr>, c: Cond, s: State, env: Env, fp: Int32, top: nat,
                                    ifFalse: int, ifTrue: int, flip: bool) returns (t: State)
    requires Represents(s, env, fp) && CondScoped(c, env.Keys) && CondFits(c, top)
    requires FallsThrough(s.pc + CondSize(c, top), ifFalse, ifTrue, flip)
    requires At(code, s.pc, CondJumps(c, s.pc, top, ifFalse, ifTrue, flip))
    ensures var v := CondVerdict(c, env, Compiled);
      Decides(code, s, t, Target(v.holds, ifFalse, ifTrue), v.compared, top)
    decreases c, 2
  {
    match c
    case One(o) => t := OperandRuns(code, o, s, env, fp, top, ifFalse, ifTrue, flip);
    case Link(o, op, rest) =>
      var v := OperandVerdict(o, env, Compiled);
      var next := s.pc + OperandSize(o, top);
      AtSplit(code, s.pc, FirstJumps(o, op, s.pc, top, ifFalse, ifTrue),
        CondJumps(rest, next, top, ifFalse, ifTrue, flip));
      var s1 := FirstRuns(code, o, op, s, env, fp, top, ifFalse, ifTrue);
      DecidesRepresents(code, s, s1, s1.pc, v.compared, top, env, fp);
      if v.holds == (op == And) {
        t := CondRuns(code, rest, s1, env, fp, top, ifFalse, ifTrue, flip);
        DecidesOn(code, s, s1, t, next, t.pc, v.compared, CondVerdict(rest, env, Compiled).compared, top);
      } else {
        t := s1;
      }
  }

  /** An operand before an operator leaves for the next operand when the operator needs it, and
      for the condition's own target otherwise. */
  lemma {:induction false} FirstRuns(code: seq<Instr>, o: Operand, op: BoolOp, s: State, env: Env, fp: Int32, top: nat,
                                     ifFalse: int, ifTrue: int) returns (t: State)
    requires Represents(s, env, fp) && OperandScoped(o, env.Keys) && OperandFits(o, top)
    requires ifFalse >= 1 && ifTrue >= 1 && s.pc + OperandSize(o, top) >= 1
    requires At(code, s.pc, FirstJumps(o, op, s.pc, top, ifFalse, ifTrue))
    ensures var v := OperandVerdict(o, env, Compiled);
      var next := s.pc + OperandSize(o, top);
      Decides(code, s, t, if v.holds == (op == And) then next else Target(v.holds, ifFalse, ifTrue), v.compared, top)
    decreases o, 1
  {
    var next := s.pc + OperandSize(o, top);
    match op
    case And => t := OperandRuns(code, o, s, env, fp, top, ifFalse, next, false);
    case Or => t := OperandRuns(code, o, s, env, fp, top, next, ifTrue, true);
  }
}
