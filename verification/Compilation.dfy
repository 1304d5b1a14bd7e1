/** A program from the parser to the machine. */
module Compilation {
  import opened Machine
  import opened Source
  import opened CodeShape
  import opened StmtSimulation
  import opened Readings
  import opened Correctness
  import opened CodeGeneration
  import opened Parsing
  import opened Encoding
  import opened CompiledWords

  /** A run of the source, from the store `st` that the machine holds behind its first instruction, that
      ends within `turns` turns and whose comparisons do not overflow. */
  ghost predicate Ready(p: Stmt, s: State, st: Store, fp: Int32, turns: nat) {
    && s.pc == 2 && Matches(s, st, fp) && StmtScoped(p, st.env.Keys) && EndsNear(p, st, turns)
  }

  /** The machine comes to the end of the code with the variables and the output of that run. */
  ghost predicate Finishes(code: seq<Instr>, p: Stmt, s: State, st: Store, fp: Int32, turns: nat)
    requires Ready(p, s, st, fp, turns)
  {
    exists t ::
      Reaches(code, s, t) && Runs(code, s, t, |code| + 1, Exec(p, st, Intended, turns).value, st.env.Keys, fp, 0)
  }

  lemma CodeFinishes(code: seq<Instr>, p: Stmt, s: State, st: Store, fp: Int32, turns: nat)
    requires |code| > 0 && code[1..] == StmtCode(p, 2, 0)
    requires StmtFits(p, 0) && StmtReliable(p) && Ready(p, s, st, fp, turns)
    ensures Finishes(code, p, s, st, fp, turns)
  {
    hide StmtFits, StmtReliable, StmtCode, Exec, AllNear, Matches, StmtScoped, Runs;
    var t := CompiledRight(code, p, s, st, fp, 0, turns);
    RunsReaches(code, s, t, |code| + 1, Exec(p, st, Intended, turns).value, st.env.Keys, fp, 0);
  }

  /** Compiles a program. If it is reliable, its code does what its source says; and if the numbers in it
      are small and it is short enough, this is also the code that the machine makes of its words. */
  method Compile(p: Stmt) returns (code: seq<Instr>)
    requires StmtFoldable(p)
    ensures |code| > 0 && code[1..] == StmtCode(p, 2, 0)
    ensures StmtFits(p, 0) && StmtReliable(p) ==>
      forall s, st, fp, turns :: Ready(p, s, st, fp, turns) ==> Finishes(code, p, s, st, fp, turns)
    ensures StmtFits(p, 0) && |code| + 1 < P15 ==> (Unpacked(Words(code)) == Some(code) <==> StmtSmall(p))
  {
    hide StmtCode, StmtFits, StmtReliable, Ready, Finishes, StmtSmall, AllEncodable, Words;
    var gen := new CodeGenerator();
    var parser := new Parser(gen);
    ghost var first := gen.opCode;
    parser.BodyBlock(p);
    code := gen.opCode;
    assert code == first + StmtCode(p, 2, 0);
    if StmtFits(p, 0) && StmtReliable(p) {
      forall s, st, fp, turns | Ready(p, s, st, fp, turns) ensures Finishes(code, p, s, st, fp, turns) {
        CodeFinishes(code, p, s, st, fp, turns);
      }
    }
    if StmtFits(p, 0) && |code| + 1 < P15 {
      StmtEncodes(p, 2, 0);
      Appended(first, StmtCode(p, 2, 0));
      FirstEncodes();
      UnpacksExactly(code);
    }
  }

  lemma FirstEncodes()
    ensures AllEncodable([Instr(AluI(Add), SP, 0, 4096)])
  {
    Alone(Instr(AluI(Add), SP, 0, 4096));
  }
}
