/** The compiler's main results: compiled programs compute what their source says, and stop exactly
    when it does. */
module Correctness {
  import opened Machine
  import opened Source
  import opened CodeShape
  import opened Simulation
  import opened StmtSimulation
  import opened Readings

  /** A reliable program whose comparisons do not overflow leaves on the machine the variables and
      the output its source prescribes, and compares the same numbers in the same order. */
  lemma CompiledRight(code: seq<Instr>, p: Stmt, s: State, st: Store, fp: Int32, top: nat, turns: nat)
    returns (t: State)
    requires Matches(s, st, fp) && StmtScoped(p, st.env.Keys) && StmtFits(p, top)
    requires At(code, s.pc, StmtCode(p, s.pc, top))
    requires Exec(p, st, Intended, turns).Some?
    requires StmtReliable(p) && AllNear(Exec(p, st, Intended, turns).value.compared)
    ensures Runs(code, s, t, s.pc + |StmtCode(p, s.pc, top)|, Exec(p, st, Intended, turns).value, st.env.Keys, fp, top)
  {
    hide *;
    ExecAgrees(p, st, Intended, turns);
    t := StmtRuns(code, p, s, st, fp, top, turns);
  }

  /** After `k` steps the machine is at an instruction of the fragment of `n` instructions at `pc`. */
  ghost predicate Inside(code: seq<Instr>, s: State, k: nat, pc: int, n: nat) {
    pc <= Run(code, s, k).pc < pc + n
  }

  lemma Later(code: seq<Instr>, s: State, t: State, k: nat, pc: int, n: nat, pc': int, n': nat) returns (k': nat)
    requires Reaches(code, s, t) && Inside(code, t, k, pc, n)
    requires pc' <= pc && pc + n <= pc' + n'
    ensures k' >= k && Inside(code, s, k', pc', n')
    ensures s != t ==> k' >= k + 1
  {
    var m: nat :| Run(code, s, m) == t;
    RunAdds(code, s, m, k);
    k' := m + k;
  }

  lemma RunsReaches(code: seq<Instr>, s: State, t: State, pc: int, st: Store, vars: set<Cell>, fp: Int32, top: nat)
    requires Runs(code, s, t, pc, st, vars, fp, top)
    ensures Reaches(code, s, t) && Matches(t, st, fp) && t.pc == pc && st.env.Keys == vars
  {
  }

  /** While the source has not finished within `turns` turns of its loops, the machine is still
      inside the statement's code after some `turns` or more steps. */
  lemma {:induction false} Lingers(code: seq<Instr>, p: Stmt, s: State, st: Store, fp: Int32, top: nat, turns: nat)
    returns (k: nat)
    requires Matches(s, st, fp) && StmtScoped(p, st.env.Keys) && StmtFits(p, top)
    requires At(code, s.pc, StmtCode(p, s.pc, top))
    requires Exec(p, st, Compiled, turns).None?
    ensures k >= turns && Inside(code, s, k, s.pc, |StmtCode(p, s.pc, top)|)
    decreases turns, p, 1
  {
    hide Runs, Matches, At, Resolve, CondCode, Decide, Reaches, Inside;
    match p
    case Seq(a, b) => k := SeqLingers(code, a, b, s, st, fp, top, turns);
    case If(c, thn) =>
      var bodyPc := s.pc + CondSize(c, top);
      var body := StmtCode(thn, bodyPc, top);
      var end := bodyPc + |body|;
      var (holds, st1) := Decide(c, st, Compiled);
      AtIsPlaced(code, s.pc, StmtCode(p, s.pc, top));
      AtSplit(code, s.pc, Resolve(CondCode(c, s.pc, top), end, bodyPc), body);
      DecideKeeps(c, st);
      var s1 := PatchedRuns(code, c, s, st, fp, top, end);
      RunsReaches(code, s, s1, Target(holds, end, bodyPc), st1, st.env.Keys, fp, top);
      var k1 := Lingers(code, thn, s1, st1, fp, top, turns);
      k := Later(code, s, s1, k1, bodyPc, |body|, s.pc, |StmtCode(p, s.pc, top)|);
    case IfElse(c, thn, els) => k := IfElseLingers(code, c, thn, els, s, st, fp, top, turns);
    case While(c, body) => k := WhileLingers(code, c, body, s, st, fp, top, turns);
  }

  lemma DecideKeeps(c: Cond, st: Store)
    requires CondScoped(c, st.env.Keys)
    ensures Decide(c, st, Compiled).1.env == st.env
  {
  }

  lemma {:induction false} SeqLingers(code: seq<Instr>, a: Stmt, b: Stmt, s: State, st: Store, fp: Int32, top: nat,
      turns: nat)
    returns (k: nat)
    requires Matches(s, st, fp) && StmtScoped(Seq(a, b), st.env.Keys) && StmtFits(Seq(a, b), top)
    requires At(code, s.pc, StmtCode(Seq(a, b), s.pc, top))
    requires Exec(Seq(a, b), st, Compiled, turns).None?
    ensures k >= turns && Inside(code, s, k, s.pc, |StmtCode(Seq(a, b), s.pc, top)|)
    decreases turns, Seq(a, b), 0
  {
    hide Runs, Matches, At, Resolve, CondCode, Decide, Reaches, Inside;
    var top' := TopAfter(a, top);
    var first := StmtCode(a, s.pc, top);
    var second := StmtCode(b, s.pc + |first|, top');
    AtSplit(code, s.pc, first, second);
    if Exec(a, st, Compiled, turns).None? {
      k := Lingers(code, a, s, st, fp, top, turns);
      InsideWider(code, s, k, s.pc, |first|, |first + second|);
    } else {
      var st1 := Exec(a, st, Compiled, turns).value;
      var s1 := StmtRuns(code, a, s, st, fp, top, turns);
      RunsReaches(code, s, s1, s.pc + |first|, st1, st.env.Keys, fp, top);
      var k1 := Lingers(code, b, s1, st1, fp, top', turns);
      k := Later(code, s, s1, k1, s1.pc, |second|, s.pc, |first + second|);
    }
  }

  lemma InsideWider(code: seq<Instr>, s: State, k: nat, pc: int, n: nat, n': nat)
    requires Inside(code, s, k, pc, n) && n <= n'
    ensures Inside(code, s, k, pc, n')
  {
  }

  lemma {:induction false} IfElseLingers(code: seq<Instr>, c: Cond, thn: Stmt, els: Stmt, s: State, st: Store,
      fp: Int32, top: nat, turns: nat)
    returns (k: nat)
    requires Matches(s, st, fp) && StmtScoped(IfElse(c, thn, els), st.env.Keys) && StmtFits(IfElse(c, thn, els), top)
    requires At(code, s.pc, StmtCode(IfElse(c, thn, els), s.pc, top))
    requires Exec(IfElse(c, thn, els), st, Compiled, turns).None?
    ensures k >= turns && Inside(code, s, k, s.pc, |StmtCode(IfElse(c, thn, els), s.pc, top)|)
    decreases turns, IfElse(c, thn, els), 0
  {
    hide *;
    IfElseShape(c, thn, els, s.pc, top);
    IfElseFits(c, thn, els, top);
    IfElseMeaning(c, thn, els, st, turns);
    var bodyPc := s.pc + CondSize(c, top);
    var body := StmtCode(thn, bodyPc, top);
    var elsePc := bodyPc + |body| + 1;
    var top' := TopAfter(thn, top);
    var other := StmtCode(els, elsePc, top');
    var goto := [Instr(Branch(Eq), 0, 0, elsePc + |other|)];
    var (holds, st1) := Decide(c, st, Compiled);
    var cond := Resolve(CondCode(c, s.pc, top), elsePc, bodyPc);
    var whole := cond + body + goto + other;
    AtIsPlaced(code, s.pc, whole);
    TargetIs(elsePc, bodyPc);
    AtSplit(code, s.pc, cond + body + goto, other);
    AtSplit(code, s.pc, cond + body, goto);
    AtSplit(code, s.pc, cond, body);
    var s1 := PatchedRuns(code, c, s, st, fp, top, elsePc);
    RunsReaches(code, s, s1, Target(holds, elsePc, bodyPc), st1, st.env.Keys, fp, top);
    if holds {
      var k1 := Lingers(code, thn, s1, st1, fp, top, turns);
      k := Later(code, s, s1, k1, bodyPc, |body|, s.pc, |whole|);
    } else {
      var k1 := Lingers(code, els, s1, st1, fp, top', turns);
      k := Later(code, s, s1, k1, elsePc, |other|, s.pc, |whole|);
    }
  }

  lemma WhilePending(c: Cond, body: Stmt, st: Store, turns: nat)
    requires StmtScoped(While(c, body), st.env.Keys) && turns > 0
    requires Exec(While(c, body), st, Compiled, turns).None?
    ensures CondScoped(c, st.env.Keys) && StmtScoped(body, st.env.Keys)
    ensures var (holds, st1) := Decide(c, st, Compiled);
      && holds && st1.env == st.env
      && (Exec(body, st1, Compiled, turns).Some? ==>
            Exec(While(c, body), Exec(body, st1, Compiled, turns).value, Compiled, turns - 1).None?)
  {
    hide CondVerdict, CondScoped;
  }

  lemma AtStart(code: seq<Instr>, s: State, n: nat)
    requires n > 0
    ensures Inside(code, s, 0, s.pc, n)
  {
  }

  lemma {:induction false} WhileLingers(code: seq<Instr>, c: Cond, body: Stmt, s: State, st: Store, fp: Int32, top: nat,
                                        turns: nat)
    returns (k: nat)
    requires Matches(s, st, fp) && StmtScoped(While(c, body), st.env.Keys) && StmtFits(While(c, body), top)
    requires At(code, s.pc, StmtCode(While(c, body), s.pc, top))
    requires Exec(While(c, body), st, Compiled, turns).None?
    ensures k >= turns && Inside(code, s, k, s.pc, |StmtCode(While(c, body), s.pc, top)|)
    decreases turns, While(c, body), 0
  {
    hide *;
    WhileShape(c, body, s.pc, top);
    WhileFits(c, body, top);
    var vars := st.env.Keys;
    var bodyPc := s.pc + CondSize(c, top);
    var loop := StmtCode(body, bodyPc, top);
    var end := bodyPc + |loop| + 1;
    var goto := [Instr(Branch(Eq), 0, 0, s.pc)];
    var cond := Resolve(CondCode(c, s.pc, top), end, bodyPc);
    var whole := cond + loop + goto;
    if turns == 0 {
      AtStart(code, s, |whole|);
      return 0;
    }
    WhilePending(c, body, st, turns);
    var (holds, st1) := Decide(c, st, Compiled);
    AtIsPlaced(code, s.pc, whole);
    TargetIs(end, bodyPc);
    AtSplit(code, s.pc, cond + loop, goto);
    AtSplit(code, s.pc, cond, loop);
    CondFitsBelow(c, top);
    var s1 := PatchedRuns(code, c, s, st, fp, top, end);
    RunsReaches(code, s, s1, bodyPc, st1, vars, fp, top);
    if Exec(body, st1, Compiled, turns).None? {
      var k1 := Lingers(code, body, s1, st1, fp, top, turns);
      k := Later(code, s, s1, k1, bodyPc, |loop|, s.pc, |whole|);
    } else {
      var st2 := Exec(body, st1, Compiled, turns).value;
      var s2, s3 := TurnRuns(code, c, body, s, st, fp, top, turns);
      RunsReaches(code, s, s2, bodyPc, st1, vars, fp, top);
      RunsReaches(code, s2, s3, s.pc, st2, vars, fp, top);
      var k1 := Lingers(code, While(c, body), s3, st2, fp, top, turns - 1);
      var k2 := Later(code, s2, s3, k1, s.pc, |whole|, s.pc, |whole|);
      NonemptyCond(c, top);
      k := Later(code, s, s2, k2, s.pc, |whole|, s.pc, |whole|);
    }
  }

  lemma NonemptyCond(c: Cond, top: nat)
    ensures CondSize(c, top) > 0
  {
    assert CondCode(c, 1, top) != [];
  }

  lemma {:induction false} StandsStillOutside(code: seq<Instr>, s: State, n: nat)
    requires !(1 <= s.pc <= |code|)
    ensures Run(code, s, n) == s
    decreases n
  {
    if n > 0 {
      StandsStillOutside(code, s, n - 1);
    }
  }

  /** A program that ends with the statement stops exactly when the statement, in its compiled
      reading, terminates. */
  lemma StopsAsRead(code: seq<Instr>, p: Stmt, s: State, st: Store, fp: Int32, top: nat)
    requires Matches(s, st, fp) && StmtScoped(p, st.env.Keys) && StmtFits(p, top)
    requires At(code, s.pc, StmtCode(p, s.pc, top)) && s.pc + |StmtCode(p, s.pc, top)| == |code| + 1
    ensures (exists turns: nat :: Exec(p, st, Compiled, turns).Some?)
       <==> (exists n: nat :: Run(code, s, n).pc == |code| + 1)
  {
    hide *;
    if turns: nat :| Exec(p, st, Compiled, turns).Some? {
      var t := StmtRuns(code, p, s, st, fp, top, turns);
      RunsReaches(code, s, t, |code| + 1, Exec(p, st, Compiled, turns).value, st.env.Keys, fp, top);
      ReachesIn(code, s, t);
    } else if n: nat :| Run(code, s, n).pc == |code| + 1 {
      AtIsPlaced(code, s.pc, StmtCode(p, s.pc, top));
      var k := Lingers(code, p, s, st, fp, top, n);
      RunAdds(code, s, n, k - n);
      StandsStillOutside(code, Run(code, s, n), k - n);
      InsideMeans(code, s, k, s.pc, |StmtCode(p, s.pc, top)|);
      assert false;
    }
  }

  /** A reliable program stops without its comparisons overflowing exactly if its code does, so one that
      does not end is not compiled to code that ends. */
  lemma StopsTogether(code: seq<Instr>, p: Stmt, s: State, st: Store, fp: Int32, top: nat)
    requires Matches(s, st, fp) && StmtScoped(p, st.env.Keys) && StmtFits(p, top) && StmtReliable(p)
    requires At(code, s.pc, StmtCode(p, s.pc, top)) && s.pc + |StmtCode(p, s.pc, top)| == |code| + 1
    ensures (exists turns: nat :: EndsNear(p, st, turns)) <==> (exists n: nat :: StopsNear(code, s, n))
  {
    hide *;
    if turns: nat :| EndsNear(p, st, turns) {
      EndsNearMeans(p, st, turns);
      ExecAgrees(p, st, Intended, turns);
      var n := RunsIntoEnd(code, p, s, st, fp, top, turns);
      StopsNearMeans(code, s, n);
    } else if n: nat :| StopsNear(code, s, n) {
      StopsNearMeans(code, s, n);
      StopsAsRead(code, p, s, st, fp, top);
      var turns: nat :| Exec(p, st, Compiled, turns).Some?;
      var m := RunsIntoEnd(code, p, s, st, fp, top, turns);
      StopsOnce(code, s, m, n);
      ExecAgrees(p, st, Compiled, turns);
      EndsNearMeans(p, st, turns);
    }
  }

  /** The source ends within `turns` turns, and its comparisons do not overflow. */
  ghost predicate EndsNear(p: Stmt, st: Store, turns: nat)
    requires StmtScoped(p, st.env.Keys)
  {
    Exec(p, st, Intended, turns).Some? && AllNear(Exec(p, st, Intended, turns).value.compared)
  }

  /** After `n` steps the machine is past the code, and what it compared did not overflow. */
  ghost predicate StopsNear(code: seq<Instr>, s: State, n: nat) {
    Run(code, s, n).pc == |code| + 1 && AllNear(Run(code, s, n).compared)
  }

  lemma EndsNearMeans(p: Stmt, st: Store, turns: nat)
    requires StmtScoped(p, st.env.Keys)
    ensures EndsNear(p, st, turns)
       <==> Exec(p, st, Intended, turns).Some? && AllNear(Exec(p, st, Intended, turns).value.compared)
  {
    hide Exec, AllNear, StmtScoped;
  }

  lemma StopsNearMeans(code: seq<Instr>, s: State, n: nat)
    ensures StopsNear(code, s, n) <==> Run(code, s, n).pc == |code| + 1 && AllNear(Run(code, s, n).compared)
  {
    hide Run, AllNear;
  }

  lemma RunsIntoEnd(code: seq<Instr>, p: Stmt, s: State, st: Store, fp: Int32, top: nat, turns: nat) returns (n: nat)
    requires Matches(s, st, fp) && StmtScoped(p, st.env.Keys) && StmtFits(p, top)
    requires At(code, s.pc, StmtCode(p, s.pc, top)) && s.pc + |StmtCode(p, s.pc, top)| == |code| + 1
    requires Exec(p, st, Compiled, turns).Some?
    ensures Run(code, s, n).pc == |code| + 1
    ensures Run(code, s, n).compared == Exec(p, st, Compiled, turns).value.compared
  {
    hide Run, Exec, StmtScoped, StmtFits, At, StmtCode, Represents, Keeps, Frames;
    var t := StmtRuns(code, p, s, st, fp, top, turns);
    n :| Run(code, s, n) == t;
  }

  /** Past the code the machine stands still. */
  lemma StopsOnce(code: seq<Instr>, s: State, m: nat, n: nat)
    requires Run(code, s, m).pc == Run(code, s, n).pc == |code| + 1
    ensures Run(code, s, m) == Run(code, s, n)
  {
    if m <= n {
      RunAdds(code, s, m, n - m);
      StandsStillOutside(code, Run(code, s, m), n - m);
    } else {
      RunAdds(code, s, n, m - n);
      StandsStillOutside(code, Run(code, s, n), m - n);
    }
  }

  lemma ReachesIn(code: seq<Instr>, s: State, t: State)
    requires Reaches(code, s, t)
    ensures exists n: nat :: Run(code, s, n).pc == t.pc
  {
  }

  lemma InsideMeans(code: seq<Instr>, s: State, k: nat, pc: int, n: nat)
    requires Inside(code, s, k, pc, n)
    ensures pc <= Run(code, s, k).pc < pc + n
  {
  }
}
