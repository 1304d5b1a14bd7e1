/** Methods that call methods: every call of a nest returns, with the caller's frame untouched. */
module NestedCalls {
  import opened Machine
  import opened Source
  import opened CodeShape
  import opened Simulation
  import opened StmtSimulation
  import opened CallFrame

  /** A method: where its code is, the room for its locals, the registers taken where its code begins, its
      variables, and its body, statements with calls between them. */
  datatype Method = Method(proc: int, size: nat, top: nat, vars: set<Cell>, body: Body)
  datatype Body = Plain(p: Stmt) | Then(first: Body, second: Body) | Invoke(m: Method)

  // ----- the code -----

  function TopOf(b: Body, top: nat): nat {
    match b
    case Plain(p) => TopAfter(p, top)
    case Then(first, second) => TopOf(second, TopOf(first, top))
    case Invoke(_) => top
  }

  function BodyCode(b: Body, pc: int, top: nat): seq<Instr> {
    match b
    case Plain(p) => StmtCode(p, pc, top)
    case Then(first, second) =>
      var code := BodyCode(first, pc, top);
      code + BodyCode(second, pc + |code|, TopOf(first, top))
    case Invoke(m) => [Instr(Bsr, 0, 0, m.proc)]
  }

  function CodeOf(m: Method): seq<Instr> {
    Prologue(m.size) + BodyCode(m.body, m.proc + 4, m.top) + Epilogue()
  }

  /** Every method that the body calls, directly or not, lies where its callers look for it. */
  ghost predicate Linked(code: seq<Instr>, b: Body) {
    match b
    case Plain(_) => true
    case Then(first, second) => Linked(code, first) && Linked(code, second)
    case Invoke(m) => m.proc != -1 && At(code, m.proc, CodeOf(m)) && Linked(code, m.body)
  }

  // ----- variables -----

  /** Globals lie below `floor`, locals in the room below the frame pointer. */
  ghost predicate Own(vars: set<Cell>, size: nat, floor: nat) {
    forall c :: c in vars ==> if c.global then 0 <= -c.offset < floor else 1 <= -c.offset <= size
  }

  ghost predicate Sound(b: Body, vars: set<Cell>, top: nat, floor: nat)
    decreases b
  {
    match b
    case Plain(p) => StmtScoped(p, vars) && StmtFits(p, top)
    case Then(first, second) =>
      Sound(first, vars, top, floor) && Sound(second, vars, TopOf(first, top), floor)
    case Invoke(m) => Own(m.vars, m.size, floor) && Sound(m.body, m.vars, m.top, floor)
  }

  lemma OwnAddress(c: Cell, vars: set<Cell>, size: nat, floor: nat, fp: int)
    requires Own(vars, size, floor) && c in vars && floor <= fp - size && fp < MEMORY
    ensures Address(c, fp) == if c.global then -c.offset else fp + c.offset
    ensures 0 <= Address(c, fp) < fp && (c.global <==> Address(c, fp) < floor)
    ensures !c.global ==> fp - size <= Address(c, fp)
    ensures c == Cell(c.global, c.offset)
  {
  }

  lemma OwnSeparate(vars: set<Cell>, size: nat, floor: nat, fp: int)
    requires Own(vars, size, floor) && floor <= fp - size && fp < MEMORY
    ensures Separate(vars, fp)
    ensures forall c :: c in vars ==> Address(c, fp) < fp
  {
    hide Address, Own;
    forall c | c in vars
      ensures 0 <= Address(c, fp) < fp && Address(c, fp) == (if c.global then -c.offset else fp + c.offset)
      ensures (c.global <==> Address(c, fp) < floor) && c == Cell(c.global, c.offset)
    {
      OwnAddress(c, vars, size, floor, fp);
    }
  }

  // ----- what a body does to memory -----

  datatype Memory = Memory(words: seq<Int32>, out: seq<Int32>, compared: seq<(Int32, Int32)>)

  /** The variables as memory has them. */
  ghost function View(vars: set<Cell>, words: seq<Int32>, fp: Int32): (env: Env)
    requires |words| == MEMORY && Separate(vars, fp)
    ensures env.Keys == vars
  {
    map c | c in vars :: words[Address(c, fp)]
  }

  /** Memory with the variables as `env` has them. */
  ghost function Updated(words: seq<Int32>, env: Env, fp: Int32): (r: seq<Int32>)
    requires |words| == MEMORY
    ensures |r| == MEMORY
  {
    seq(MEMORY, a requires 0 <= a < MEMORY => WordOf(words[a], env, fp, a))
  }

  ghost predicate IsAt(c: Cell, fp: Int32, a: int) {
    Address(c, fp) == a
  }

  ghost function WordOf(word: Int32, env: Env, fp: Int32, a: int): Int32 {
    if exists c :: c in env && IsAt(c, fp, a) then
      var c :| c in env && IsAt(c, fp, a);
      env[c]
    else word
  }

  lemma UpdatedIs(words: seq<Int32>, now: seq<Int32>, env: Env, fp: Int32)
    requires |words| == |now| == MEMORY && Separate(env.Keys, fp)
    requires forall c :: c in env ==> now[Address(c, fp)] == env[c]
    requires forall a :: 0 <= a < MEMORY && now[a] != words[a] ==> exists c :: c in env.Keys && Address(c, fp) == a
    ensures now == Updated(words, env, fp)
  {
    hide Address;
    forall a | 0 <= a < MEMORY ensures now[a] == Updated(words, env, fp)[a] {
      if c :| c in env && IsAt(c, fp, a) {
        assert WordOf(words[a], env, fp, a) == env[c];
      }
    }
  }

  /** Runs a body in the frame at `fp`, with the stack pointer at `sp` and its code at `pc`. A call leaves the
      address behind it and the frame pointer in the two words below, and the callee's frame is below those. */
  ghost function Effect(b: Body, vars: set<Cell>, m: Memory, pc: int, fp: int, sp: int, top: nat, floor: nat,
                        turns: nat): (r: Option<Memory>)
    requires |m.words| == MEMORY && 1 <= pc && floor <= sp <= fp < MEMORY - 1 && Separate(vars, fp)
    ensures r.Some? ==> |r.value.words| == MEMORY
    decreases b
  {
    match b
    case Plain(p) =>
      var st := Store(View(vars, m.words, fp), m.out, m.compared);
      if !StmtScoped(p, vars) then None
      else
        (match Exec(p, st, Compiled, turns)
         case None => None
         case Some(r) => Some(Memory(Updated(m.words, r.env, fp), r.out, r.compared)))
    case Then(first, second) =>
      (match Effect(first, vars, m, pc, fp, sp, top, floor, turns)
       case None => None
       case Some(mid) =>
         Effect(second, vars, mid, pc + |BodyCode(first, pc, top)|, fp, sp, TopOf(first, top), floor, turns))
    case Invoke(callee) => CallEffect(callee, m, pc, fp, sp, floor, turns)
  }

  ghost function CallEffect(callee: Method, m: Memory, pc: int, fp: int, sp: int, floor: nat, turns: nat)
    : (r: Option<Memory>)
    requires |m.words| == MEMORY && 1 <= pc && floor <= sp <= fp < MEMORY - 1
    ensures r.Some? ==> |r.value.words| == MEMORY
    ensures r.Some? ==> floor <= sp - 2 - callee.size && Own(callee.vars, callee.size, floor) && callee.proc >= 1
    decreases callee
  {
    if sp - 2 - callee.size < floor || !Own(callee.vars, callee.size, floor) || callee.proc < 1 then None
    else
      OwnSeparate(callee.vars, callee.size, floor, sp - 2);
      Effect(callee.body, callee.vars, Called(m, Wrap(pc + 1), fp, sp), callee.proc + 4, sp - 2,
             sp - 2 - callee.size, callee.top, floor, turns)
  }

  /** Memory with the two saved words. */
  function Called(m: Memory, link: Int32, fp: Int32, sp: int): (r: Memory)
    requires |m.words| == MEMORY && 2 <= sp <= MEMORY
    ensures |r.words| == MEMORY
  {
    m.(words := m.words[sp - 1 := link][sp - 2 := fp])
  }

  /** A body changes only globals and words below its frame pointer. */
  lemma {:induction false} KeepsAbove(b: Body, vars: set<Cell>, size: nat, m: Memory, pc: int, fp: int, sp: int,
                                      top: nat, floor: nat, turns: nat)
    requires |m.words| == MEMORY && 1 <= pc && floor <= sp == fp - size && fp < MEMORY - 1
    requires Own(vars, size, floor) && Separate(vars, fp)
    requires Effect(b, vars, m, pc, fp, sp, top, floor, turns).Some?
    ensures var r := Effect(b, vars, m, pc, fp, sp, top, floor, turns).value;
      forall a :: fp <= a < MEMORY ==> r.words[a] == m.words[a]
    decreases b
  {
    hide Own, Separate, View, Updated;
    match b
    case Plain(p) =>
      var r := Exec(p, Store(View(vars, m.words, fp), m.out, m.compared), Compiled, turns).value;
      forall a | fp <= a < MEMORY ensures Updated(m.words, r.env, fp)[a] == m.words[a] {
        UpdatedBelow(m.words, r.env, vars, size, floor, fp, a);
      }
    case Then(first, second) =>
      KeepsAbove(first, vars, size, m, pc, fp, sp, top, floor, turns);
      var mid := Effect(first, vars, m, pc, fp, sp, top, floor, turns).value;
      KeepsAbove(second, vars, size, mid, pc + |BodyCode(first, pc, top)|, fp, sp, TopOf(first, top), floor, turns);
    case Invoke(callee) => CallKeepsAbove(callee, m, pc, fp, sp, floor, turns);
  }

  lemma UpdatedBelow(words: seq<Int32>, env: Env, vars: set<Cell>, size: nat, floor: nat, fp: int, a: int)
    requires |words| == MEMORY && env.Keys == vars && Own(vars, size, floor) && floor <= fp - size
    requires fp <= a < MEMORY && fp < MEMORY - 1
    ensures Updated(words, env, fp)[a] == words[a]
  {
    hide Own, Separate, Address;
    OwnSeparate(vars, size, floor, fp);
  }

  /** A call leaves everything from the caller's stack pointer up as it is: its locals, the words it saved and
      all frames above. */
  lemma {:induction false} CallKeepsAbove(callee: Method, m: Memory, pc: int, fp: int, sp: int, floor: nat, turns: nat)
    requires |m.words| == MEMORY && 1 <= pc && floor <= sp <= fp < MEMORY - 1
    requires CallEffect(callee, m, pc, fp, sp, floor, turns).Some?
    ensures var r := CallEffect(callee, m, pc, fp, sp, floor, turns).value;
      && (forall a :: sp <= a < MEMORY ==> r.words[a] == m.words[a])
      && r.words[sp - 1] == Wrap(pc + 1) && r.words[sp - 2] == fp
    decreases callee
  {
    hide Own, Separate;
    OwnSeparate(callee.vars, callee.size, floor, sp - 2);
    KeepsAbove(callee.body, callee.vars, callee.size, Called(m, Wrap(pc + 1), fp, sp), callee.proc + 4, sp - 2,
               sp - 2 - callee.size, callee.top, floor, turns);
  }

  // ----- the machine -----

  ghost predicate Standing(s: State, fp: int, sp: int) {
    s.Ok() && s.regs[0] == 0 && s.regs[FP] == fp && s.regs[SP] == sp
  }

  function MemoryOf(s: State): Memory {
    Memory(s.mem, s.out, s.compared)
  }

  /** The machine runs the code of a body with all calls in it as `Effect` says, and is behind it afterwards in
      the same frame. */
  lemma {:induction false} BodyRuns(code: seq<Instr>, b: Body, s: State, vars: set<Cell>, size: nat, fp: int, sp: int,
                                    top: nat, floor: nat, turns: nat)
    returns (t: State)
    requires Standing(s, fp, sp) && 1 <= s.pc && |code| < 0x7fff_ffff
    requires floor <= sp == fp - size && fp < MEMORY - 1 && Own(vars, size, floor) && Separate(vars, fp)
    requires Sound(b, vars, top, floor) && Linked(code, b) && At(code, s.pc, BodyCode(b, s.pc, top))
    requires Effect(b, vars, MemoryOf(s), s.pc, fp, sp, top, floor, turns).Some?
    ensures Reaches(code, s, t) && Standing(t, fp, sp) && t.pc == s.pc + |BodyCode(b, s.pc, top)|
    ensures MemoryOf(t) == Effect(b, vars, MemoryOf(s), s.pc, fp, sp, top, floor, turns).value
    decreases b
  {
    hide Own, Separate, At, Reaches, View, Updated, StmtCode, Exec, StmtFits, StmtScoped;
    match b
    case Plain(p) => t := PlainRuns(code, p, s, vars, fp, sp, top, turns);
    case Then(first, second) =>
      var part := BodyCode(first, s.pc, top);
      AtSplit(code, s.pc, part, BodyCode(second, s.pc + |part|, TopOf(first, top)));
      var mid := BodyRuns(code, first, s, vars, size, fp, sp, top, floor, turns);
      t := BodyRuns(code, second, mid, vars, size, fp, sp, TopOf(first, top), floor, turns);
      ReachesTransitive(code, s, mid, t);
    case Invoke(m) => t := CallRuns(code, m, s, fp, sp, floor, turns);
  }

  lemma PlainRuns(code: seq<Instr>, p: Stmt, s: State, vars: set<Cell>, fp: int, sp: int, top: nat, turns: nat)
    returns (t: State)
    requires Standing(s, fp, sp) && 0 <= sp <= fp < MEMORY && Separate(vars, fp)
    requires StmtScoped(p, vars) && StmtFits(p, top) && At(code, s.pc, StmtCode(p, s.pc, top))
    requires Exec(p, Store(View(vars, s.mem, fp), s.out, s.compared), Compiled, turns).Some?
    ensures Reaches(code, s, t) && Standing(t, fp, sp) && t.pc == s.pc + |StmtCode(p, s.pc, top)|
    ensures var r := Exec(p, Store(View(vars, s.mem, fp), s.out, s.compared), Compiled, turns).value;
      MemoryOf(t) == Memory(Updated(s.mem, r.env, fp), r.out, r.compared)
  {
    hide At, Reaches, Updated, StmtCode, Exec, StmtFits, StmtScoped, Address;
    var st := Store(View(vars, s.mem, fp), s.out, s.compared);
    t := StmtRuns(code, p, s, st, fp, top, turns);
    UpdatedIs(s.mem, t.mem, Exec(p, st, Compiled, turns).value.env, fp);
  }

  /** Whatever it calls in turn, a call comes back to the word behind it with the caller's frame and stack
      pointers, and everything from the caller's stack pointer up as it was. */
  lemma {:induction false} CallRuns(code: seq<Instr>, m: Method, s: State, fp: int, sp: int, floor: nat, turns: nat)
    returns (t: State)
    requires Standing(s, fp, sp) && 1 <= s.pc && |code| < 0x7fff_ffff && floor <= sp <= fp < MEMORY - 1
    requires Sound(m.body, m.vars, m.top, floor) && Linked(code, Invoke(m))
    requires At(code, s.pc, [Instr(Bsr, 0, 0, m.proc)])
    requires CallEffect(m, MemoryOf(s), s.pc, fp, sp, floor, turns).Some?
    ensures Reaches(code, s, t) && Standing(t, fp, sp) && t.pc == s.pc + 1
    ensures MemoryOf(t) == CallEffect(m, MemoryOf(s), s.pc, fp, sp, floor, turns).value
    ensures forall a :: sp <= a < MEMORY ==> t.mem[a] == s.mem[a]
    decreases m
  {
    hide Own, Separate, Reaches, At, BodyCode, Prologue, Epilogue, Effect;
    OwnSeparate(m.vars, m.size, floor, sp - 2);
    CallKeepsAbove(m, MemoryOf(s), s.pc, fp, sp, floor, turns);
    var body := BodyCode(m.body, m.proc + 4, m.top);
    PrologueLength(m.size);
    AtSplit(code, m.proc, Prologue(m.size) + body, Epilogue());
    AtSplit(code, m.proc, Prologue(m.size), body);
    var s1 := Enters(code, m, s, fp, sp);
    var s2 := BodyRuns(code, m.body, s1, m.vars, m.size, sp - 2, sp - 2 - m.size, m.top, floor, turns);
    ReachesTransitive(code, s, s1, s2);
    t := EpilogueRuns(code, s2, sp - 2);
    ReachesTransitive(code, s, s2, t);
    BsrInCode(code, s.pc, m.proc);
  }

  lemma PrologueLength(size: nat)
    ensures |Prologue(size)| == 4
  {
  }

  lemma BsrInCode(code: seq<Instr>, pc: int, proc: int)
    requires At(code, pc, [Instr(Bsr, 0, 0, proc)])
    ensures 1 <= pc <= |code|
  {
  }

  /** The call and the prologue. */
  lemma Enters(code: seq<Instr>, m: Method, s: State, fp: int, sp: int) returns (t: State)
    requires Standing(s, fp, sp) && 2 + m.size <= sp <= fp < MEMORY - 1 && m.proc != -1
    requires At(code, s.pc, [Instr(Bsr, 0, 0, m.proc)]) && At(code, m.proc, Prologue(m.size))
    ensures Reaches(code, s, t) && Standing(t, sp - 2, sp - 2 - m.size) && t.pc == m.proc + 4
    ensures MemoryOf(t) == Called(MemoryOf(s), Wrap(s.pc + 1), fp, sp)
  {
    hide Reaches, At, Prologue;
    StepAt(code, Instr(Bsr, 0, 0, m.proc), s);
    var s1 := Execute(Instr(Bsr, 0, 0, m.proc), s);
    t := PrologueRuns(code, s1, m.size, sp);
    ReachesTransitive(code, s, s1, t);
  }
}
