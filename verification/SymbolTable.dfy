/** The symbol table gives every variable of a method its own word of the frame. */
module SymbolTable {
  import opened Machine
  import opened Source
  import opened Simulation

  datatype Kind = Variable | Method

  /** A table entry. A method carries its own table: the entries and the running offset. */
  datatype Symbol = Symbol(name: string, kind: Kind, cell: Cell, locals: seq<Symbol>, localOffset: int)

  predicate Declared(symbols: seq<Symbol>, name: string) {
    exists i :: 0 <= i < |symbols| && symbols[i].name == name
  }

  /** Names once declared in a table, and the cells counted down from `offset`. */
  ghost predicate CountsDown(symbols: seq<Symbol>, names: seq<string>, offset: int) {
    && |symbols| == |names|
    && (forall i :: 0 <= i < |names| ==> symbols[i].name == names[i] && symbols[i].cell == Cell(false, offset - 1 - i))
  }

  ghost predicate Distinct(names: seq<string>) {
    forall i, j :: 0 <= i < j < |names| ==> names[i] != names[j]
  }

  class SymbolTableList {
    var symList: seq<Symbol>
    var scope: int
    var offset: int

    constructor ()
      ensures symList == [] && scope == 0 && offset == 0
    {
      symList, scope, offset := [], 0, 0;
    }

    /** After a method has been declared, its name is the last entry and scope is 1. */
    ghost predicate InMethod()
      reads this
    {
      scope == 1 && symList != [] && symList[|symList| - 1].kind == Method
    }

    /** The table of the method declared last. */
    function Locals(): seq<Symbol>
      requires symList != []
      reads this
    {
      symList[|symList| - 1].locals
    }

    method AddLocal(name: string) returns (added: bool)
      requires InMethod()
      modifies this`symList
      ensures InMethod()
      ensures var last := old(symList)[|old(symList)| - 1];
        && added == !Declared(last.locals, name)
        && symList == if !added then old(symList) else
             old(symList)[|old(symList)| - 1 :=
               last.(locals := last.locals + [Symbol(name, Variable, Cell(false, last.localOffset - 1), [], 0)],
                     localOffset := last.localOffset - 1)]
    {
      var n := |symList| - 1;
      var last := symList[n];
      added := true;
      var i := 0;
      while i < |last.locals|
        invariant 0 <= i <= |last.locals|
        invariant added <==> forall k :: 0 <= k < i ==> last.locals[k].name != name
      {
        if last.locals[i].name == name {
          added := false;
        }
        i := i + 1;
      }
      if added {
        var cell := Cell(false, last.localOffset - 1);
        symList := symList[n := last.(locals := last.locals + [Symbol(name, Variable, cell, [], 0)],
                                      localOffset := last.localOffset - 1)];
      }
    }

    method FixLocalOffset(fix: int)
      requires InMethod()
      modifies this`symList
      ensures InMethod()
      ensures var n := |old(symList)| - 1;
        symList == old(symList)[n := old(symList)[n].(localOffset := old(symList)[n].localOffset + fix)]
    {
      var n := |symList| - 1;
      symList := symList[n := symList[n].(localOffset := symList[n].localOffset + fix)];
    }

    /** Adds one variable after the other, all with different names. */
    method AddLocals(names: seq<string>)
      requires InMethod() && Distinct(names)
      requires forall i :: 0 <= i < |names| ==> !Declared(Locals(), names[i])
      modifies this`symList
      ensures InMethod() && |symList| == |old(symList)|
      ensures var n := |symList| - 1;
        var was, now := old(symList)[n], symList[n];
        && was.locals <= now.locals
        && CountsDown(now.locals[|was.locals|..], names, was.localOffset)
        && now.localOffset == was.localOffset - |names|
    {
      ghost var was := symList[|symList| - 1];
      var i := 0;
      while i < |names|
        invariant 0 <= i <= |names| && InMethod() && |symList| == |old(symList)|
        invariant was.locals <= Locals()
        invariant CountsDown(Locals()[|was.locals|..], names[..i], was.localOffset)
        invariant symList[|symList| - 1].localOffset == was.localOffset - i
        invariant forall k :: i <= k < |names| ==> !Declared(Locals(), names[k])
      {
        ghost var before := Locals();
        var added := AddLocal(names[i]);
        assert Locals() == before + [Locals()[|before|]];
        assert Locals()[|was.locals|..] == before[|was.locals|..] + [Locals()[|before|]];
        assert names[..i + 1] == names[..i] + [names[i]];
        i := i + 1;
      }
      assert names[..i] == names;
    }

    /** Declares a method with its parameters and locals; `size` is the room its prologue makes. */
    method DeclareMethod(name: string, params: seq<string>, locals: seq<string>) returns (size: nat)
      requires Distinct(params + locals)
      modifies this
      ensures size == |locals|
      ensures InMethod() && |Locals()| == |params| + |locals|
      ensures CountsDown(Locals()[..|params|], params, |params| + 2)
      ensures CountsDown(Locals()[|params|..], locals, 0)
    {
      symList := symList + [Symbol(name, Method, Cell(true, offset), [], 0)];
      scope := 1;
      FixLocalOffset(|params| + 2);
      DistinctParts(params, locals);
      AddLocals(params);
      assert Locals()[0..] == Locals();
      ghost var placed := Locals();
      FixLocalOffset(-2);
      NotYetDeclared(params, locals, placed, |params| + 2);
      AddLocals(locals);
      assert Locals()[..|params|] == placed;
      var last := symList[|symList| - 1].localOffset;
      size := if last < 0 then 0 - last else last;
    }

    lemma DistinctParts(params: seq<string>, locals: seq<string>)
      requires Distinct(params + locals)
      ensures Distinct(params) && Distinct(locals)
      ensures forall i, j :: 0 <= i < |params| && 0 <= j < |locals| ==> params[i] != locals[j]
    {
      var all := params + locals;
      forall i, j | 0 <= i < |params| && 0 <= j < |locals| ensures params[i] != locals[j] {
        assert all[i] == params[i] && all[|params| + j] == locals[j];
      }
      forall i, j | 0 <= i < j < |params| ensures params[i] != params[j] {
        assert all[i] == params[i] && all[j] == params[j];
      }
      forall i, j | 0 <= i < j < |locals| ensures locals[i] != locals[j] {
        assert all[|params| + i] == locals[i] && all[|params| + j] == locals[j];
      }
    }

    lemma NotYetDeclared(params: seq<string>, locals: seq<string>, placed: seq<Symbol>, offset: int)
      requires Distinct(params + locals) && CountsDown(placed, params, offset)
      ensures forall j :: 0 <= j < |locals| ==> !Declared(placed, locals[j])
    {
      DistinctParts(params, locals);
    }
  }

  /** The cells of a declared method. */
  ghost predicate InFrame(c: Cell, params: nat, locals: nat) {
    !c.global && (2 <= c.offset <= params + 1 || 1 <= -c.offset <= locals)
  }

  lemma FrameCell(c: Cell, params: nat, locals: nat, fp: int)
    requires locals <= fp && fp + params + 1 < MEMORY && InFrame(c, params, locals)
    ensures Address(c, fp) == fp + c.offset && c == Cell(false, c.offset)
  {
  }

  /** Declared cells lie in the frame: parameters above the two saved words, locals below them; and no
      two variables share a word. */
  lemma FrameIsDisjoint(vars: set<Cell>, params: nat, locals: nat, fp: int)
    requires locals <= fp && fp + params + 1 < MEMORY
    requires forall c :: c in vars ==> InFrame(c, params, locals)
    ensures Separate(vars, fp)
    ensures forall c :: c in vars ==>
      Address(c, fp) != fp && Address(c, fp) != fp + 1 && fp - locals <= Address(c, fp) <= fp + params + 1
  {
    hide Address;
    forall c | c in vars ensures Address(c, fp) == fp + c.offset && c == Cell(false, c.offset) {
      FrameCell(c, params, locals, fp);
    }
  }

  /** What the body pushes below the room for its locals changes neither a declared cell nor a saved word,
      and leaves the stack pointer where the next push is again below them. */
  lemma PushMissesFrame(s: State, a: nat, vars: set<Cell>, params: nat, locals: nat, fp: int)
    requires s.Ok() && a < REGISTERS && locals <= fp && fp + params + 1 < MEMORY
    requires 1 <= s.regs[SP] <= fp - locals
    requires forall c :: c in vars ==> InFrame(c, params, locals)
    ensures var t := Execute(Instr(Psh, a, SP, 1), s);
      && t.Ok() && t.regs[SP] == s.regs[SP] - 1 <= fp - locals
      && (a != SP ==> t.mem[t.regs[SP]] == s.regs[a])
      && t.mem[fp] == s.mem[fp] && t.mem[fp + 1] == s.mem[fp + 1]
      && forall c :: c in vars ==> Mapped(Address(c, fp)) && t.mem[Address(c, fp)] == s.mem[Address(c, fp)]
  {
    hide Address, InFrame;
    FrameIsDisjoint(vars, params, locals, fp);
  }

  /** The frame of a method called from below those locals, with its pushed arguments, its saved words and
      its own locals, shares no word with the caller's frame. */
  lemma FramesApart(vars: set<Cell>, params: nat, locals: nat, fp: int,
                    callees: set<Cell>, params': nat, locals': nat, sp: int)
    requires locals <= fp && fp + params + 1 < MEMORY && sp <= fp - locals
    requires forall c :: c in vars ==> InFrame(c, params, locals)
    requires params' + 2 + locals' <= sp
    requires forall c :: c in callees ==> InFrame(c, params', locals')
    ensures var fp': Int32 := sp - params' - 2;
      && (forall c, d :: c in vars && d in callees ==> Address(c, fp) != Address(d, fp'))
      && (forall c :: c in vars ==> Address(c, fp) > fp' + 1)
      && (forall d :: d in callees ==> Address(d, fp') < fp)
  {
    hide Address, InFrame;
    FrameIsDisjoint(vars, params, locals, fp);
    FrameIsDisjoint(callees, params', locals', sp - params' - 2);
  }

  lemma DeclaredInFrame(symbols: seq<Symbol>, params: seq<string>, locals: seq<string>)
    requires |symbols| == |params| + |locals|
    requires CountsDown(symbols[..|params|], params, |params| + 2) && CountsDown(symbols[|params|..], locals, 0)
    ensures forall i :: 0 <= i < |symbols| ==> InFrame(symbols[i].cell, |params|, |locals|)
    ensures forall i, j :: 0 <= i < j < |symbols| ==> symbols[i].cell != symbols[j].cell
  {
    forall i | 0 <= i < |symbols|
      ensures symbols[i].cell == Cell(false, if i < |params| then |params| + 1 - i else |params| - 1 - i)
    {
      if i < |params| {
        assert symbols[..|params|][i] == symbols[i];
      } else {
        assert symbols[|params|..][i - |params|] == symbols[i];
      }
    }
  }
}
