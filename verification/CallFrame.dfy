/** Calling a method: prologue, body, epilogue and return. */
module CallFrame {
  import opened Machine
  import opened Source
  import opened CodeShape
  import opened Simulation
  import opened StmtSimulation

  function Prologue(size: nat): seq<Instr> {
    [Instr(Psh, LNK, SP, 1), Instr(Psh, FP, SP, 1), Instr(Alu(Add), FP, 0, SP), Instr(AluI(Sub), SP, SP, size)]
  }

  function Epilogue(): seq<Instr> {
    [Instr(Alu(Add), SP, 0, FP), Instr(Pop, FP, SP, 1), Instr(Pop, LNK, SP, 1), Instr(Ret, 0, 0, LNK)]
  }

  function MethodCode(body: Stmt, pc: int, top: nat, size: nat): seq<Instr> {
    Prologue(size) + StmtCode(body, pc + 4, top) + Epilogue()
  }

  lemma OneAt(code: seq<Instr>, pc: int, part: seq<Instr>, k: nat)
    requires At(code, pc, part) && k < |part|
    ensures At(code, pc + k, [part[k]])
  {
    assert part == part[..k] + ([part[k]] + part[k + 1..]);
    AtSplit(code, pc, part[..k], [part[k]] + part[k + 1..]);
    AtSplit(code, pc + k, [part[k]], part[k + 1..]);
  }

  lemma StepOne(code: seq<Instr>, s: State, first: State, pc: int, part: seq<Instr>, k: nat) returns (t: State)
    requires Reaches(code, first, s) && s.Ok() && s.pc == pc + k
    requires At(code, pc, part) && k < |part| && part[k].a < REGISTERS && part[k].b < REGISTERS
    ensures Reaches(code, first, t) && t == Execute(part[k], s)
  {
    OneAt(code, pc, part, k);
    StepAt(code, part[k], s);
    t := Execute(part[k], s);
    ReachesTransitive(code, first, s, t);
  }

  /** The new frame: the return address and the caller's frame pointer on top of the stack, the
      frame pointer at the latter, and `size` words below it for the locals. */
  lemma PrologueRuns(code: seq<Instr>, s: State, size: nat, sp: int) returns (t: State)
    requires s.Ok() && s.regs[0] == 0 && s.regs[SP] == sp && 2 <= sp <= MEMORY
    requires At(code, s.pc, Prologue(size))
    ensures Reaches(code, s, t) && t.Ok() && t.pc == s.pc + 4
    ensures t.mem == s.mem[sp - 1 := s.regs[LNK]][sp - 2 := s.regs[FP]] && t.out == s.out && t.compared == s.compared
    ensures t.regs[FP] == sp - 2 && (forall i :: 0 <= i < FP ==> t.regs[i] == s.regs[i])
    ensures size <= sp - 2 ==> t.regs[SP] == sp - 2 - size
  {
    hide At, Reaches;
    var part := Prologue(size);
    t := SavesLinks(code, s, size, sp);
    t := StepOne(code, t, s, s.pc, part, 2);
    t := StepOne(code, t, s, s.pc, part, 3);
  }

  /** Return address and frame pointer are pushed. */
  lemma SavesLinks(code: seq<Instr>, s: State, size: nat, sp: int) returns (t: State)
    requires s.Ok() && s.regs[0] == 0 && s.regs[SP] == sp && 2 <= sp <= MEMORY
    requires At(code, s.pc, Prologue(size))
    ensures Reaches(code, s, t) && t.Ok() && t.regs == s.regs[SP := sp - 2] && t.pc == s.pc + 2
    ensures t.mem == s.mem[sp - 1 := s.regs[LNK]][sp - 2 := s.regs[FP]] && t.out == s.out && t.compared == s.compared
  {
    hide At, Reaches;
    var part := Prologue(size);
    t := Stays(code, s);
    t := StepOne(code, t, s, s.pc, part, 0);
    t := StepOne(code, t, s, s.pc, part, 1);
  }

  /** Undoes the prologue from wherever the frame pointer is, and leaves for the saved address. */
  lemma EpilogueRuns(code: seq<Instr>, s: State, fp: int) returns (t: State)
    requires s.Ok() && s.regs[0] == 0 && s.regs[FP] == fp && 0 <= fp < MEMORY - 1
    requires At(code, s.pc, Epilogue())
    ensures Reaches(code, s, t) && t.Ok()
    ensures t.pc == s.mem[fp + 1] && t.regs[FP] == s.mem[fp] && t.regs[SP] == fp + 2
    ensures t.mem == s.mem && t.out == s.out && t.compared == s.compared
    ensures forall i :: 0 <= i < FP ==> t.regs[i] == s.regs[i]
  {
    hide At, Reaches;
    var part := Epilogue();
    t := RestoresFrame(code, s, fp);
    t := StepOne(code, t, s, s.pc, part, 2);
    t := StepOne(code, t, s, s.pc, part, 3);
  }

  /** The stack pointer is back at the saved words, and the frame pointer is popped. */
  lemma RestoresFrame(code: seq<Instr>, s: State, fp: int) returns (t: State)
    requires s.Ok() && s.regs[0] == 0 && s.regs[FP] == fp && 0 <= fp < MEMORY - 1
    requires At(code, s.pc, Epilogue())
    ensures Reaches(code, s, t) && t.Ok()
    ensures t == s.(pc := s.pc + 2, regs := s.regs[FP := s.mem[fp]][SP := fp + 1])
  {
    hide At, Reaches;
    var part := Epilogue();
    t := Stays(code, s);
    t := StepOne(code, t, s, s.pc, part, 0);
    t := StepOne(code, t, s, s.pc, part, 1);
  }

  /** The memory words the method body may write: none of its variables shares a word with the
      saved registers. */
  ghost predicate OwnSlots(env: Env, mem: seq<Int32>, fp: Int32) {
    && |mem| == MEMORY && Separate(env.Keys, fp)
    && (forall c :: c in env ==> mem[Address(c, fp)] == env[c] && Address(c, fp) != fp && Address(c, fp) != fp + 1)
  }

  /** What a finished call leaves behind. */
  ghost predicate Returned(s: State, t: State, vars: set<Cell>, result: Store, fp: Int32) {
    && t.Ok() && t.pc == s.pc + 1
    && |s.regs| == REGISTERS && t.regs[FP] == s.regs[FP] && t.regs[SP] == s.regs[SP] && t.regs[0] == 0
    && t.out == result.out && t.compared == result.compared
    && (forall c :: c in vars ==> c in result.env && Mapped(Address(c, fp)) && t.mem[Address(c, fp)] == result.env[c])
    && |s.mem| == MEMORY
    && (forall a :: 0 <= a < MEMORY && a != fp && a != fp + 1 && t.mem[a] != s.mem[a] ==>
          exists c :: c in vars && Address(c, fp) == a)
  }

  /** A call of a method whose body writes only its own slots comes back to the word after the call
      with the caller's frame and stack pointers, although every taken branch in the body overwrites
      the link register; of the memory only the two saved words and the body's variables change. */
  lemma CallReturns(code: seq<Instr>, p: Stmt, s: State, env: Env, proc: int, top: nat, size: nat, turns: nat)
    returns (t: State)
    requires s.Ok() && s.regs[0] == 0 && 2 <= s.regs[SP] <= MEMORY && 1 <= s.pc < 0x7fff_ffff && proc != -1
    requires OwnSlots(env, s.mem, s.regs[SP] - 2)
    requires StmtScoped(p, env.Keys) && StmtFits(p, top)
    requires At(code, s.pc, [Instr(Bsr, 0, 0, proc)]) && At(code, proc, MethodCode(p, proc, top, size))
    requires Exec(p, Store(env, s.out, s.compared), Compiled, turns).Some?
    ensures Reaches(code, s, t)
    ensures Returned(s, t, env.Keys, Exec(p, Store(env, s.out, s.compared), Compiled, turns).value, s.regs[SP] - 2)
  {
    hide At, Reaches, StmtCode, StmtScoped, StmtFits, Exec, Address;
    var sp, st := s.regs[SP], Store(env, s.out, s.compared);
    var fp: Int32 := sp - 2;
    var body := StmtCode(p, proc + 4, top);
    StepAt(code, Instr(Bsr, 0, 0, proc), s);
    var s1 := Execute(Instr(Bsr, 0, 0, proc), s);
    AtSplit(code, proc, Prologue(size) + body, Epilogue());
    AtSplit(code, proc, Prologue(size), body);
    var s2 := PrologueRuns(code, s1, size, sp);
    ReachesTransitive(code, s, s1, s2);
    var s3 := StmtRuns(code, p, s2, st, fp, top, turns);
    BodyKeeps(code, s2, s3, proc + 4 + |body|, Exec(p, st, Compiled, turns).value, env.Keys, fp, top);
    ReachesTransitive(code, s, s2, s3);
    t := EpilogueRuns(code, s3, fp);
    ReachesTransitive(code, s, s3, t);
  }

  lemma BodyKeeps(code: seq<Instr>, s: State, t: State, pc: int, st: Store, vars: set<Cell>, fp: Int32, top: nat)
    requires Runs(code, s, t, pc, st, vars, fp, top)
    requires forall c :: c in vars ==> Address(c, fp) != fp && Address(c, fp) != fp + 1
    requires 0 <= fp < MEMORY - 1
    ensures Reaches(code, s, t) && t.Ok() && t.regs[0] == 0 && t.regs[FP] == fp && t.pc == pc
    ensures |s.mem| == MEMORY && t.mem[fp] == s.mem[fp] && t.mem[fp + 1] == s.mem[fp + 1]
    ensures st.env.Keys == vars && t.out == st.out && t.compared == st.compared
    ensures forall c :: c in vars ==> Mapped(Address(c, fp)) && t.mem[Address(c, fp)] == st.env[c]
    ensures forall a :: 0 <= a < MEMORY && t.mem[a] != s.mem[a] ==> exists c :: c in vars && Address(c, fp) == a
  {
    hide Reaches, Address;
  }
}
