/** The code generator: an instruction list that grows at the end and is patched in place, and a
    counter for the topmost register in use. */
module CodeGeneration {
  import opened Machine
  import opened Source
  import opened CodeShape

  // ----- patching recorded positions -----

  /** What one visit to a recorded jump does to its target. */
  datatype Fix = ToFalse(target: int) | ToTrue(target: int) | Both(ifFalse: int, ifTrue: int)

  function FixOne(i: Instr, fix: Fix): Instr {
    match fix
    case ToFalse(target) => if i.c == FALSE_JUMP then i.(c := target) else i
    case ToTrue(target) => if i.c == TRUE_JUMP then i.(c := target) else i
    case Both(ifFalse, ifTrue) =>
      if i.c == FALSE_JUMP then i.(c := ifFalse)
      else if i.c == TRUE_JUMP then i.(c := ifTrue)
      else i
  }

  predicate InCode(positions: seq<int>, n: nat) {
    forall k :: 0 <= k < |positions| ==> 0 <= positions[k] < n
  }

  function FixEach(code: seq<Instr>, positions: seq<int>, fix: Fix): (r: seq<Instr>)
    requires InCode(positions, |code|)
    ensures |r| == |code|
  {
    if positions == [] then code
    else
      var n := |positions| - 1;
      var rest := FixEach(code, positions[..n], fix);
      rest[positions[n] := FixOne(rest[positions[n]], fix)]
  }

  /** What fixing does to a whole stretch of condition code. */
  function FixAll(code: seq<Instr>, fix: Fix): (r: seq<Instr>)
    ensures |r| == |code|
  {
    match fix
    case ToFalse(target) => Redirect(code, FALSE_JUMP, target)
    case ToTrue(target) => Redirect(code, TRUE_JUMP, target)
    case Both(ifFalse, ifTrue) => Resolve(code, ifFalse, ifTrue)
  }

  /** The positions of the branches in a stretch of code that starts at list index `base`. */
  function Branches(code: seq<Instr>, base: nat): (r: seq<int>)
    ensures |r| <= |code|
  {
    if code == [] then []
    else
      var n := |code| - 1;
      Branches(code[..n], base) + if code[n].op.Branch? then [base + n] else []
  }

  lemma {:induction false} BranchesInCode(code: seq<Instr>, base: nat)
    ensures InCode(Branches(code, base), base + |code|)
  {
    if code != [] {
      BranchesInCode(code[..|code| - 1], base);
    }
  }

  lemma {:induction false} BranchesAppend(a: seq<Instr>, b: seq<Instr>, base: nat)
    ensures Branches(a + b, base) == Branches(a, base) + Branches(b, base + |a|)
  {
    if b == [] {
      assert a + b == a;
    } else {
      var init := b[..|b| - 1];
      assert (a + b)[..|a + b| - 1] == a + init;
      BranchesAppend(a, init, base);
    }
  }

  lemma {:induction false} StraightHasNone(code: seq<Instr>, base: nat)
    requires BranchFree(code)
    ensures Branches(code, base) == []
  {
    if code != [] {
      StraightHasNone(code[..|code| - 1], base);
    }
  }

  lemma {:induction false} RedirectKeepsBranches(code: seq<Instr>, placeholder: int, target: int, base: nat)
    ensures Branches(Redirect(code, placeholder, target), base) == Branches(code, base)
  {
    if code != [] {
      RedirectKeepsBranches(code[..|code| - 1], placeholder, target, base);
    }
  }

  lemma SettleKeepsBranches(op: BoolOp, code: seq<Instr>, target: int, base: nat)
    ensures Branches(Settle(op, code, target), base) == Branches(code, base)
  {
    match op
    case And => RedirectKeepsBranches(code, TRUE_JUMP, target, base);
    case Or =>
      if code != [] {
        RedirectKeepsBranches(code[..|code| - 1], FALSE_JUMP, target, base);
      }
  }

  lemma {:induction false} FixEachAppends(a: seq<Instr>, b: seq<Instr>, positions: seq<int>, fix: Fix)
    requires InCode(positions, |a|)
    ensures FixEach(a + b, positions, fix) == FixEach(a, positions, fix) + b
  {
    if positions != [] {
      FixEachAppends(a, b, positions[..|positions| - 1], fix);
    }
  }

  lemma FixEachMore(code: seq<Instr>, positions: seq<int>, p: int, fix: Fix)
    requires InCode(positions, |code|) && 0 <= p < |code|
    ensures InCode(positions + [p], |code|)
    ensures var rest := FixEach(code, positions, fix);
      FixEach(code, positions + [p], fix) == rest[p := FixOne(rest[p], fix)]
  {
    assert (positions + [p])[..|positions|] == positions;
  }

  function FixBranch(i: Instr, fix: Fix): Instr {
    if i.op.Branch? then FixOne(i, fix) else i
  }

  lemma FixAllMore(code: seq<Instr>, i: Instr, fix: Fix)
    requires fix.Both? ==> Placed(fix.ifFalse)
    ensures FixAll(code + [i], fix) == FixAll(code, fix) + [FixBranch(i, fix)]
  {
    match fix
    case ToFalse(target) => RedirectAppends(code, [i], FALSE_JUMP, target);
    case ToTrue(target) => RedirectAppends(code, [i], TRUE_JUMP, target);
    case Both(ifFalse, ifTrue) => ResolveAppends(code, [i], ifFalse, ifTrue);
  }

  lemma FixLast(before: seq<Instr>, i: Instr, positions: seq<int>, after: seq<Instr>, fix: Fix)
    requires InCode(positions, |before|) && FixEach(before, positions, fix) == after
    ensures var p := positions + if i.op.Branch? then [|before|] else [];
      InCode(p, |before| + 1) && FixEach(before + [i], p, fix) == after + [FixBranch(i, fix)]
  {
    FixEachAppends(before, [i], positions, fix);
    if i.op.Branch? {
      FixEachMore(before + [i], positions, |before|, fix);
    } else {
      assert positions + [] == positions;
    }
  }

  /** Visiting exactly the recorded branches of a stretch patches that stretch and nothing else. */
  lemma {:induction false} FixEachIsLocal(before: seq<Instr>, code: seq<Instr>, fix: Fix)
    requires fix.Both? ==> Placed(fix.ifFalse)
    ensures InCode(Branches(code, |before|), |before + code|)
    ensures FixEach(before + code, Branches(code, |before|), fix) == before + FixAll(code, fix)
  {
    hide FixAll, FixOne, FixBranch;
    BranchesInCode(code, |before|);
    if code == [] {
      assert before + code == before;
    } else {
      var n := |code| - 1;
      var init, last := code[..n], code[n];
      assert code == init + [last];
      FixEachIsLocal(before, init, fix);
      FixAllMore(init, last, fix);
      FixLast(before + init, last, Branches(init, |before|), before + FixAll(init, fix), fix);
      assert before + code == (before + init) + [last];
    }
  }

  // ----- the generator -----

  class CodeGenerator {
    var opCode: seq<Instr>
    var pc: int
    var topReg: nat

    /** The program counter is the address the next instruction will have. */
    ghost predicate Valid()
      reads this
    {
      pc == |opCode| + 1
    }

    constructor ()
      ensures Valid() && topReg == 0
      ensures opCode == [Instr(AluI(Add), SP, 0, 4096)]
    {
      opCode := [Instr(AluI(Add), SP, 0, 4096)];
      pc := 2;
      topReg := 0;
    }

    method PutOpCode(i: Instr)
      requires Valid()
      modifies this
      ensures Valid() && opCode == old(opCode) + [i] && topReg == old(topReg)
    {
      opCode := opCode + [i];
      pc := pc + 1;
    }

    method NextReg() returns (r: nat)
      modifies this
      ensures r == topReg == old(topReg) + 1
      ensures opCode == old(opCode) && pc == old(pc)
    {
      topReg := topReg + 1;
      r := topReg;
    }

    method LoadWordType(c: Cell)
      requires Valid()
      modifies this
      ensures Valid() && opCode == old(opCode) + [LoadWord(c, topReg)] && topReg == old(topReg) + 1
    {
      var b, offset := FP, c.offset;
      if c.global {
        b := 0;
        offset := 0 - offset;
      }
      var r := NextReg();
      PutOpCode(Instr(Ldw, r, b, offset));
    }

    method StoreWordCell(c: Cell)
      requires Valid() && topReg > 0
      modifies this
      ensures Valid() && opCode == old(opCode) + [StoreWord(c, old(topReg))] && topReg == old(topReg) - 1
    {
      var b, offset := FP, c.offset;
      if c.global {
        b := 0;
        offset := 0 - offset;
      }
      PutOpCode(Instr(Stw, topReg, b, offset));
      topReg := topReg - 1;
    }

    method AddI(n: Int32)
      requires Valid()
      modifies this
      ensures Valid() && opCode == old(opCode) + [Instr(AluI(Add), topReg, 0, n)] && topReg == old(topReg) + 1
    {
      var r := NextReg();
      PutOpCode(Instr(AluI(Add), r, 0, n));
    }

    method InvertValOfLastReg()
      requires Valid()
      modifies this
      ensures Valid() && opCode == old(opCode) + [Instr(Alu(Sub), topReg, 0, topReg)] && topReg == old(topReg)
    {
      PutOpCode(Instr(Alu(Sub), topReg, 0, topReg));
    }

    method PutOperation2Reg(op: Arith)
      requires Valid() && topReg > 1
      modifies this
      ensures Valid() && topReg == old(topReg) - 1
      ensures opCode == old(opCode) + [Instr(Alu(op), topReg, topReg, topReg + 1)]
    {
      PutOpCode(Instr(Alu(op), topReg - 1, topReg - 1, topReg));
      topReg := topReg - 1;
    }

    method PutImOp2Reg(op: Arith, n: Int32)
      requires Valid()
      modifies this
      ensures Valid() && opCode == old(opCode) + [Instr(AluI(op), topReg, topReg, n)] && topReg == old(topReg)
    {
      PutOpCode(Instr(AluI(op), topReg, topReg, n));
    }

    /** Compares the top two registers and branches on the result; returns the list position of the
        branch, whose target is still open. */
    method Relation(rel: Rel) returns (position: int)
      requires Valid() && topReg > 1
      modifies this
      ensures Valid() && topReg == old(topReg) - 2 && position == |opCode| - 1
      ensures opCode == old(opCode) + [Instr(Cmp, topReg + 1, topReg + 1, topReg + 2),
                                       Instr(Branch(rel), topReg + 1, 0, FALSE_JUMP)]
    {
      PutOpCode(Instr(Cmp, topReg - 1, topReg - 1, topReg));
      topReg := topReg - 1;
      PutOpCode(Instr(Branch(rel), topReg, 0, FALSE_JUMP));
      topReg := topReg - 1;
      position := pc - 2;
    }

    method ElseAndLoopJump(target: int) returns (position: int)
      requires Valid()
      modifies this
      ensures Valid() && topReg == old(topReg) && position == |opCode| - 1
      ensures opCode == old(opCode) + [Instr(Branch(Eq), 0, 0, target)]
    {
      PutOpCode(Instr(Branch(Eq), 0, 0, target));
      position := pc - 2;
    }

    method PrintIO()
      requires Valid()
      modifies this
      ensures Valid() && opCode == old(opCode) + [Instr(Prni, 0, 0, topReg)] && topReg == old(topReg)
    {
      PutOpCode(Instr(Prni, 0, 0, topReg));
    }

    /** Meets an operator: `invert` turns the jump at `position` into an open true jump; otherwise an
        open true jump (before &&) or false jump (before ||) is sent to the next instruction. */
    method FixOrJumps(position: int, invert: bool, and: bool)
      requires Valid() && 0 <= position < |opCode|
      modifies this
      ensures Valid() && topReg == old(topReg) && pc == old(pc)
      ensures var i := old(opCode)[position];
        opCode == old(opCode)[position := if invert then FlipOne(i, TRUE_JUMP).(c := TRUE_JUMP)
                                          else FixOne(i, if and then ToTrue(pc) else ToFalse(pc))]
    {
      var i := opCode[position];
      if invert {
        if i.op.Branch? {
          i := i.(op := Branch(Invert(i.op.rel)));
        }
        i := i.(c := TRUE_JUMP);
      } else if and {
        if i.c == TRUE_JUMP {
          i := i.(c := pc);
        }
      } else {
        if i.c == FALSE_JUMP {
          i := i.(c := pc);
        }
      }
      opCode := opCode[position := i];
    }

    /** Gives every recorded jump that is still open its target. */
    method FixConditionJumps(positions: seq<int>, falseJump: int, trueJump: int)
      requires Valid() && InCode(positions, |opCode|)
      modifies this
      ensures Valid() && topReg == old(topReg) && pc == old(pc)
      ensures opCode == FixEach(old(opCode), positions, Both(falseJump, trueJump))
    {
      var k := 0;
      while k < |positions|
        invariant 0 <= k <= |positions| && Valid() && topReg == old(topReg) && pc == old(pc)
        invariant InCode(positions[..k], |old(opCode)|)
        invariant opCode == FixEach(old(opCode), positions[..k], Both(falseJump, trueJump))
      {
        FixConditionJump(positions[k], falseJump, trueJump);
        assert positions[..k + 1][..k] == positions[..k];
        k := k + 1;
      }
      assert positions[..k] == positions;
    }

    method FixConditionJump(position: int, falseJump: int, trueJump: int)
      requires Valid() && 0 <= position < |opCode|
      modifies this
      ensures Valid() && topReg == old(topReg) && pc == old(pc)
      ensures opCode == old(opCode)[position := FixOne(old(opCode)[position], Both(falseJump, trueJump))]
    {
      var i := opCode[position];
      if i.c == FALSE_JUMP {
        opCode := opCode[position := i.(c := falseJump)];
      } else if i.c == TRUE_JUMP {
        opCode := opCode[position := i.(c := trueJump)];
      }
    }
  }
}
