/** Running the code of a statement simulates the statement. */
module StmtSimulation {
  import opened Machine
  import opened Source
  import opened CodeShape
  import opened Simulation

  ghost predicate Matches(s: State, st: Store, fp: Int32) {
    Represents(s, st.env, fp) && s.out == st.out && s.compared == st.compared
  }

  /** Memory outside the program's variables keeps its contents. */
  ghost predicate Frames(s: State, t: State, vars: set<Cell>, fp: Int32) {
    && |s.mem| == |t.mem| == MEMORY
    && (forall a :: 0 <= a < MEMORY && t.mem[a] != s.mem[a] ==> exists c :: c in vars && Address(c, fp) == a)
  }

  /** The machine gets from s to the instruction at `pc` with the store `st` in memory. */
  ghost predicate Runs(code: seq<Instr>, s: State, t: State, pc: int, st: Store, vars: set<Cell>, fp: Int32, top: nat) {
    && Reaches(code, s, t) && t.pc == pc
    && Matches(t, st, fp) && st.env.Keys == vars
    && Keeps(s, t, top) && Frames(s, t, vars, fp)
  }

  lemma RunsOn(code: seq<Instr>, s: State, t: State, u: State, mid: int, pc: int, st: Store, st': Store,
               vars: set<Cell>, fp: Int32, top: nat, top': nat)
    requires Runs(code, s, t, mid, st, vars, fp, top) && Runs(code, t, u, pc, st', vars, fp, top') && top <= top'
    ensures Runs(code, s, u, pc, st', vars, fp, top)
  {
    ReachesTransitive(code, s, t, u);
  }

  lemma RunsMatches(code: seq<Instr>, s: State, t: State, pc: int, st: Store, vars: set<Cell>, fp: Int32, top: nat)
    requires Runs(code, s, t, pc, st, vars, fp, top)
    ensures Matches(t, st, fp) && t.pc == pc && st.env.Keys == vars
  {
  }

  lemma StandsStill(code: seq<Instr>, s: State, st: Store, fp: Int32, top: nat)
    requires Matches(s, st, fp)
    ensures Runs(code, s, s, s.pc, st, st.env.Keys, fp, top)
  {
    assert Run(code, s, 0) == s;
  }

  lemma StoreRuns(code: seq<Instr>, c: Cell, v: Int32, s: State, st: Store, fp: Int32, top: nat) returns (t: State)
    requires Matches(s, st, fp) && c in st.env && top + 1 < FP && s.regs[top + 1] == v
    requires At(code, s.pc, [StoreWord(c, top + 1)])
    ensures Runs(code, s, t, s.pc + 1, st.(env := st.env[c := v]), st.env.Keys, fp, top)
  {
    StepAt(code, StoreWord(c, top + 1), s);
    t := Execute(StoreWord(c, top + 1), s);
    assert t.mem == s.mem[Address(c, fp) := v];
    assert st.env[c := v].Keys == st.env.Keys;
  }

  lemma LoadedRuns(code: seq<Instr>, e: Expr, s: State, st: Store, fp: Int32, top: nat) returns (t: State)
    requires Matches(s, st, fp) && Scoped(e, st.env.Keys) && top + Need(e) < FP
    requires At(code, s.pc, Load(e, top))
    ensures Runs(code, s, t, s.pc + |Load(e, top)|, st, st.env.Keys, fp, top)
    ensures top + 1 < FP && |t.regs| == REGISTERS && t.regs[top + 1] == Value(e, st.env, Compiled)
  {
    t := LoadRuns(code, e, s, st.env, fp, top);
    ComputesRepresents(code, s, t, |Load(e, top)|, top, Value(e, st.env, Compiled), st.env, fp);
    NeedIsPositive(e);
  }

  lemma AssignRuns(code: seq<Instr>, c: Cell, e: Expr, s: State, st: Store, fp: Int32, top: nat) returns (t: State)
    requires Matches(s, st, fp) && c in st.env && Scoped(e, st.env.Keys) && top + Need(e) < FP
    requires At(code, s.pc, Load(e, top) + [StoreWord(c, top + 1)])
    ensures Runs(code, s, t, s.pc + |Load(e, top)| + 1, st.(env := st.env[c := Value(e, st.env, Compiled)]),
                 st.env.Keys, fp, top)
  {
    hide Runs, Matches, At, Load, Value, StoreWord, Need;
    var v, end := Value(e, st.env, Compiled), s.pc + |Load(e, top)| + 1;
    AtSplit(code, s.pc, Load(e, top), [StoreWord(c, top + 1)]);
    var mid := LoadedRuns(code, e, s, st, fp, top);
    RunsMatches(code, s, mid, end - 1, st, st.env.Keys, fp, top);
    t := StoreRuns(code, c, v, mid, st, fp, top);
    RunsOn(code, s, mid, t, end - 1, end, st, st.(env := st.env[c := v]), st.env.Keys, fp, top, top);
  }

  lemma PrintRuns(code: seq<Instr>, e: Expr, s: State, st: Store, fp: Int32, top: nat) returns (t: State)
    requires Matches(s, st, fp) && Scoped(e, st.env.Keys) && top + Need(e) < FP
    requires At(code, s.pc, Load(e, top) + [Instr(Prni, 0, 0, top + 1)])
    ensures Runs(code, s, t, s.pc + |Load(e, top)| + 1, st.(out := st.out + [Value(e, st.env, Compiled)]),
                 st.env.Keys, fp, top)
  {
    AtSplit(code, s.pc, Load(e, top), [Instr(Prni, 0, 0, top + 1)]);
    var mid := LoadedRuns(code, e, s, st, fp, top);
    StepAt(code, Instr(Prni, 0, 0, top + 1), mid);
    t := Execute(Instr(Prni, 0, 0, top + 1), mid);
    ReachesTransitive(code, s, mid, t);
  }

  /** The unconditional jump: a branch on register 0, which holds 0. */
  lemma GotoRuns(code: seq<Instr>, target: int, s: State, st: Store, fp: Int32, top: nat) returns (t: State)
    requires Matches(s, st, fp) && target >= 1 && At(code, s.pc, [Instr(Branch(Eq), 0, 0, target)])
    requires top < FP
    ensures Runs(code, s, t, target, st, st.env.Keys, fp, top)
  {
    StepAt(code, Instr(Branch(Eq), 0, 0, target), s);
    t := Execute(Instr(Branch(Eq), 0, 0, target), s);
  }

  /** A patched condition takes the machine to the true or the false target. */
  lemma PatchedRuns(code: seq<Instr>, c: Cond, s: State, st: Store, fp: Int32, top: nat, ifFalse: int)
    returns (t: State)
    requires Matches(s, st, fp) && CondScoped(c, st.env.Keys) && CondFits(c, top) && ifFalse >= 1
    requires At(code, s.pc, Resolve(CondCode(c, s.pc, top), ifFalse, s.pc + CondSize(c, top)))
    ensures var (holds, next) := Decide(c, st, Compiled);
      Runs(code, s, t, Target(holds, ifFalse, s.pc + CondSize(c, top)), next, st.env.Keys, fp, top)
  {
    var ifTrue := s.pc + CondSize(c, top);
    assert Final(CondCode(c, s.pc, top), ifFalse, ifTrue, false) == Resolve(CondCode(c, s.pc, top), ifFalse, ifTrue);
    PatchedJumpsAreTargets(c, s.pc, top, ifFalse, ifTrue, false);
    t := CondRuns(code, c, s, st.env, fp, top, ifFalse, ifTrue, false);
    var v := CondVerdict(c, st.env, Compiled);
    DecidesRepresents(code, s, t, t.pc, v.compared, top, st.env, fp);
  }

  /** The compiled reading, run by the machine: whenever the source statement finishes, the machine
      arrives just behind the statement's code with the same variables, output and comparisons, and
      with every other memory word, the frame and stack pointers and the registers up to `top` as
      before. */
  lemma {:induction false} StmtRuns(code: seq<Instr>, p: Stmt, s: State, st: Store, fp: Int32, top: nat, turns: nat)
    returns (t: State)
    requires Matches(s, st, fp) && StmtScoped(p, st.env.Keys) && StmtFits(p, top)
    requires At(code, s.pc, StmtCode(p, s.pc, top))
    requires Exec(p, st, Compiled, turns).Some?
    ensures Runs(code, s, t, s.pc + |StmtCode(p, s.pc, top)|, Exec(p, st, Compiled, turns).value, st.env.Keys, fp, top)
    decreases turns, p, 2
  {
    hide *;
    match p
    case Skip => t := SimpleRuns(code, p, s, st, fp, top, turns);
    case Assign(_, _) => t := SimpleRuns(code, p, s, st, fp, top, turns);
    case Print(_) => t := SimpleRuns(code, p, s, st, fp, top, turns);
    case Seq(a, b) => t := SeqRuns(code, a, b, s, st, fp, top, turns);
    case If(c, thn) => t := IfRuns(code, c, thn, s, st, fp, top, turns);
    case IfElse(c, thn, els) => t := IfElseRuns(code, c, thn, els, s, st, fp, top, turns);
    case While(c, body) => t := WhileRuns(code, c, body, s, st, fp, top, turns);
  }

  /** Statements that contain no others. */
  lemma SimpleRuns(code: seq<Instr>, p: Stmt, s: State, st: Store, fp: Int32, top: nat, turns: nat)
    returns (t: State)
    requires p.Skip? || p.Assign? || p.Print?
    requires Matches(s, st, fp) && StmtScoped(p, st.env.Keys) && StmtFits(p, top)
    requires At(code, s.pc, StmtCode(p, s.pc, top))
    requires Exec(p, st, Compiled, turns).Some?
    ensures Runs(code, s, t, s.pc + |StmtCode(p, s.pc, top)|, Exec(p, st, Compiled, turns).value, st.env.Keys, fp, top)
  {
    hide Runs, Matches, At, Load, Value, StoreWord, Need, Scoped;
    match p
    case Skip =>
      StandsStill(code, s, st, fp, top);
      t := s;
    case Assign(c, e) => t := AssignRuns(code, c, e, s, st, fp, top);
    case Print(e) => t := PrintRuns(code, e, s, st, fp, top);
  }

  lemma {:induction false} SeqRuns(code: seq<Instr>, a: Stmt, b: Stmt, s: State, st: Store, fp: Int32, top: nat,
      turns: nat)
    returns (t: State)
    requires Matches(s, st, fp) && StmtScoped(Seq(a, b), st.env.Keys) && StmtFits(Seq(a, b), top)
    requires At(code, s.pc, StmtCode(Seq(a, b), s.pc, top))
    requires Exec(Seq(a, b), st, Compiled, turns).Some?
    ensures Runs(code, s, t, s.pc + |StmtCode(Seq(a, b), s.pc, top)|, Exec(Seq(a, b), st, Compiled, turns).value,
                 st.env.Keys, fp, top)
    decreases turns, Seq(a, b), 1
  {
    hide Runs, Matches, At, Resolve, CondCode, Decide, Load;
    var st1 := Exec(a, st, Compiled, turns).value;
    var top' := TopAfter(a, top);
    var first := StmtCode(a, s.pc, top);
    var second := StmtCode(b, s.pc + |first|, top');
    Balanced(a, top);
    AtSplit(code, s.pc, first, second);
    var s1 := StmtRuns(code, a, s, st, fp, top, turns);
    RunsMatches(code, s, s1, s.pc + |first|, st1, st.env.Keys, fp, top);
    t := StmtRuns(code, b, s1, st1, fp, top', turns);
    RunsOn(code, s, s1, t, s1.pc, s1.pc + |second|, st1, Exec(b, st1, Compiled, turns).value, st.env.Keys, fp, top,
      top');
  }

  lemma {:induction false} IfRuns(code: seq<Instr>, c: Cond, thn: Stmt, s: State, st: Store, fp: Int32, top: nat,
      turns: nat)
    returns (t: State)
    requires Matches(s, st, fp) && StmtScoped(If(c, thn), st.env.Keys) && StmtFits(If(c, thn), top)
    requires At(code, s.pc, StmtCode(If(c, thn), s.pc, top))
    requires Exec(If(c, thn), st, Compiled, turns).Some?
    ensures Runs(code, s, t, s.pc + |StmtCode(If(c, thn), s.pc, top)|, Exec(If(c, thn), st, Compiled, turns).value,
                 st.env.Keys, fp, top)
    decreases turns, If(c, thn), 1
  {
    hide Runs, Matches, At, Resolve, CondCode, Decide, Load;
    var bodyPc := s.pc + CondSize(c, top);
    var body := StmtCode(thn, bodyPc, top);
    var end := bodyPc + |body|;
    var (holds, st1) := Decide(c, st, Compiled);
    AtSplit(code, s.pc, Resolve(CondCode(c, s.pc, top), end, bodyPc), body);
    var s1 := PatchedRuns(code, c, s, st, fp, top, end);
    RunsMatches(code, s, s1, Target(holds, end, bodyPc), st1, st.env.Keys, fp, top);
    if holds {
      t := StmtRuns(code, thn, s1, st1, fp, top, turns);
      RunsOn(code, s, s1, t, bodyPc, end, st1, Exec(thn, st1, Compiled, turns).value, st.env.Keys, fp, top, top);
    } else {
      t := s1;
    }
  }

  lemma IfElseFits(c: Cond, thn: Stmt, els: Stmt, top: nat)
    requires StmtFits(IfElse(c, thn, els), top)
    ensures CondFits(c, top) && StmtFits(thn, top) && StmtFits(els, TopAfter(thn, top))
  {
    hide CondFits, TopAfter;
  }

  lemma IfElseMeaning(c: Cond, thn: Stmt, els: Stmt, st: Store, turns: nat)
    requires StmtScoped(IfElse(c, thn, els), st.env.Keys)
    ensures CondScoped(c, st.env.Keys) && StmtScoped(thn, st.env.Keys) && StmtScoped(els, st.env.Keys)
    ensures var (holds, st1) := Decide(c, st, Compiled);
      && st1.env == st.env
      && Exec(IfElse(c, thn, els), st, Compiled, turns) == Exec(if holds then thn else els, st1, Compiled, turns)
  {
    hide CondVerdict, CondScoped;
  }

  lemma WhileFits(c: Cond, body: Stmt, top: nat)
    requires StmtFits(While(c, body), top)
    ensures CondFits(c, top) && StmtFits(body, top)
  {
    hide CondFits;
  }

  lemma WhileMeaning(c: Cond, body: Stmt, st: Store, turns: nat)
    requires StmtScoped(While(c, body), st.env.Keys)
    requires Exec(While(c, body), st, Compiled, turns).Some?
    ensures CondScoped(c, st.env.Keys) && StmtScoped(body, st.env.Keys) && turns >= 1
    ensures var (holds, st1) := Decide(c, st, Compiled);
      && st1.env == st.env
      && (if !holds then Exec(While(c, body), st, Compiled, turns) == Some(st1)
          else
            && Exec(body, st1, Compiled, turns).Some?
            && Exec(While(c, body), st, Compiled, turns)
               == Exec(While(c, body), Exec(body, st1, Compiled, turns).value, Compiled, turns - 1))
  {
    hide CondVerdict, CondScoped;
  }

  lemma TargetIs(ifFalse: int, ifTrue: int)
    ensures Target(true, ifFalse, ifTrue) == ifTrue && Target(false, ifFalse, ifTrue) == ifFalse
    ensures FP == 29
  {
  }

  lemma AtIsPlaced(code: seq<Instr>, pc: int, part: seq<Instr>)
    requires At(code, pc, part)
    ensures pc >= 1
  {
  }

  lemma {:induction false} IfElseRuns(code: seq<Instr>, c: Cond, thn: Stmt, els: Stmt, s: State, st: Store, fp: Int32,
                                      top: nat, turns: nat)
    returns (t: State)
    requires Matches(s, st, fp) && StmtScoped(IfElse(c, thn, els), st.env.Keys) && StmtFits(IfElse(c, thn, els), top)
    requires At(code, s.pc, StmtCode(IfElse(c, thn, els), s.pc, top))
    requires Exec(IfElse(c, thn, els), st, Compiled, turns).Some?
    ensures Runs(code, s, t, s.pc + |StmtCode(IfElse(c, thn, els), s.pc, top)|,
                 Exec(IfElse(c, thn, els), st, Compiled, turns).value, st.env.Keys, fp, top)
    decreases turns, IfElse(c, thn, els), 1
  {
    hide *;
    IfElseShape(c, thn, els, s.pc, top);
    IfElseFits(c, thn, els, top);
    IfElseMeaning(c, thn, els, st, turns);
    var vars := st.env.Keys;
    var bodyPc := s.pc + CondSize(c, top);
    var body := StmtCode(thn, bodyPc, top);
    var elsePc := bodyPc + |body| + 1;
    var top' := TopAfter(thn, top);
    var other := StmtCode(els, elsePc, top');
    var end := elsePc + |other|;
    var goto := [Instr(Branch(Eq), 0, 0, end)];
    var (holds, st1) := Decide(c, st, Compiled);
    var cond := Resolve(CondCode(c, s.pc, top), elsePc, bodyPc);
    AtIsPlaced(code, s.pc, cond + body + goto + other);
    TargetIs(elsePc, bodyPc);
    AtSplit(code, s.pc, cond + body + goto, other);
    AtSplit(code, s.pc, cond + body, goto);
    AtSplit(code, s.pc, cond, body);
    Balanced(thn, top);
    CondFitsBelow(c, top);
    var s1 := PatchedRuns(code, c, s, st, fp, top, elsePc);
    RunsMatches(code, s, s1, Target(holds, elsePc, bodyPc), st1, vars, fp, top);
    if holds {
      var st2 := Exec(thn, st1, Compiled, turns).value;
      var s2 := StmtRuns(code, thn, s1, st1, fp, top, turns);
      RunsMatches(code, s1, s2, bodyPc + |body|, st2, vars, fp, top);
      t := GotoRuns(code, end, s2, st2, fp, top);
      RunsOn(code, s1, s2, t, bodyPc + |body|, end, st2, st2, vars, fp, top, top);
      RunsOn(code, s, s1, t, bodyPc, end, st1, st2, vars, fp, top, top);
    } else {
      t := StmtRuns(code, els, s1, st1, fp, top', turns);
      RunsOn(code, s, s1, t, elsePc, end, st1, Exec(els, st1, Compiled, turns).value, vars, fp, top, top');
    }
  }

  /** One turn of a loop whose condition holds: through the condition to the body, and through the
      body back to the condition. */
  lemma {:induction false} TurnRuns(code: seq<Instr>, c: Cond, body: Stmt, s: State, st: Store, fp: Int32, top: nat,
      turns: nat)
    returns (s1: State, t: State)
    requires Matches(s, st, fp) && CondScoped(c, st.env.Keys) && StmtScoped(body, st.env.Keys)
    requires CondFits(c, top) && StmtFits(body, top)
    requires At(code, s.pc, StmtCode(While(c, body), s.pc, top))
    requires var (holds, st1) := Decide(c, st, Compiled);
      holds && st1.env == st.env && Exec(body, st1, Compiled, turns).Some?
    ensures var (holds, st1) := Decide(c, st, Compiled);
      && Runs(code, s, s1, s.pc + CondSize(c, top), st1, st.env.Keys, fp, top)
      && Runs(code, s1, t, s.pc, Exec(body, st1, Compiled, turns).value, st.env.Keys, fp, top)
    decreases turns, While(c, body), 0
  {
    hide *;
    WhileShape(c, body, s.pc, top);
    var vars := st.env.Keys;
    var bodyPc := s.pc + CondSize(c, top);
    var loop := StmtCode(body, bodyPc, top);
    var end := bodyPc + |loop| + 1;
    var goto := [Instr(Branch(Eq), 0, 0, s.pc)];
    var (holds, st1) := Decide(c, st, Compiled);
    var st2 := Exec(body, st1, Compiled, turns).value;
    var cond := Resolve(CondCode(c, s.pc, top), end, bodyPc);
    AtIsPlaced(code, s.pc, cond + loop + goto);
    AtSplit(code, s.pc, cond + loop, goto);
    AtSplit(code, s.pc, cond, loop);
    TargetIs(end, bodyPc);
    CondFitsBelow(c, top);
    s1 := PatchedRuns(code, c, s, st, fp, top, end);
    RunsMatches(code, s, s1, bodyPc, st1, vars, fp, top);
    var s2 := StmtRuns(code, body, s1, st1, fp, top, turns);
    RunsMatches(code, s1, s2, bodyPc + |loop|, st2, vars, fp, top);
    t := GotoRuns(code, s.pc, s2, st2, fp, top);
    RunsOn(code, s1, s2, t, bodyPc + |loop|, s.pc, st2, st2, vars, fp, top, top);
  }

  /** A loop whose condition fails is left at once. */
  lemma LeaveRuns(code: seq<Instr>, c: Cond, body: Stmt, s: State, st: Store, fp: Int32, top: nat) returns (t: State)
    requires Matches(s, st, fp) && CondScoped(c, st.env.Keys) && CondFits(c, top)
    requires At(code, s.pc, StmtCode(While(c, body), s.pc, top))
    requires !Decide(c, st, Compiled).0
    ensures Runs(code, s, t, s.pc + |StmtCode(While(c, body), s.pc, top)|, Decide(c, st, Compiled).1, st.env.Keys, fp,
      top)
  {
    hide *;
    WhileShape(c, body, s.pc, top);
    var bodyPc := s.pc + CondSize(c, top);
    var loop := StmtCode(body, bodyPc, top);
    var end := bodyPc + |loop| + 1;
    var cond := Resolve(CondCode(c, s.pc, top), end, bodyPc);
    var goto := [Instr(Branch(Eq), 0, 0, s.pc)];
    AtIsPlaced(code, s.pc, cond + loop + goto);
    AtSplit(code, s.pc, cond + loop, goto);
    AtSplit(code, s.pc, cond, loop);
    TargetIs(end, bodyPc);
    t := PatchedRuns(code, c, s, st, fp, top, end);
  }

  lemma {:induction false} WhileRuns(code: seq<Instr>, c: Cond, body: Stmt, s: State, st: Store, fp: Int32, top: nat,
      turns: nat)
    returns (t: State)
    requires Matches(s, st, fp) && StmtScoped(While(c, body), st.env.Keys) && StmtFits(While(c, body), top)
    requires At(code, s.pc, StmtCode(While(c, body), s.pc, top))
    requires Exec(While(c, body), st, Compiled, turns).Some?
    ensures Runs(code, s, t, s.pc + |StmtCode(While(c, body), s.pc, top)|,
                 Exec(While(c, body), st, Compiled, turns).value, st.env.Keys, fp, top)
    decreases turns, While(c, body), 1
  {
    hide *;
    WhileFits(c, body, top);
    WhileMeaning(c, body, st, turns);
    var vars := st.env.Keys;
    var end := s.pc + |StmtCode(While(c, body), s.pc, top)|;
    var (holds, st1) := Decide(c, st, Compiled);
    if holds {
      var st2 := Exec(body, st1, Compiled, turns).value;
      var s1, s2 := TurnRuns(code, c, body, s, st, fp, top, turns);
      RunsOn(code, s, s1, s2, s.pc + CondSize(c, top), s.pc, st1, st2, vars, fp, top, top);
      RunsMatches(code, s, s2, s.pc, st2, vars, fp, top);
      t := StmtRuns(code, While(c, body), s2, st2, fp, top, turns - 1);
      RunsOn(code, s, s2, t, s.pc, end, st2, Exec(While(c, body), st2, Compiled, turns - 1).value, vars, fp, top, top);
    } else {
      t := LeaveRuns(code, c, body, s, st, fp, top);
    }
  }

  lemma {:induction false} CondFitsBelow(c: Cond, top: nat)
    requires CondFits(c, top)
    ensures top < FP
  {
    match c.o
    case Compare(_, _, _) =>
    case Paren(inner) => CondFitsBelow(inner, top);
  }
}
