/** Source programs and their meaning. Every meaning comes in two readings: `Intended`, what the
    language says, and `Compiled`, what the emitted code does. The readings differ in three places
    only: the operand order of some arithmetic, comparisons whose difference overflows, and
    conditions that mix && and || without parentheses. */
module Source {
  import opened Machine

  datatype Reading = Intended | Compiled

  /** A variable is its symbol table cell: the scope and the offset the table gave it. */
  datatype Cell = Cell(global: bool, offset: int)

  datatype Expr = Var(cell: Cell) | Num(n: Int32) | Bin(op: Arith, l: Expr, r: Expr)

  datatype BoolOp = And | Or

  /** A condition is a chain of operands in written order, as the parser meets them. */
  datatype Operand = Compare(rel: Rel, l: Expr, r: Expr) | Paren(c: Cond)
  datatype Cond = One(o: Operand) | Link(o: Operand, op: BoolOp, rest: Cond)

  datatype Stmt =
    | Skip
    | Seq(first: Stmt, second: Stmt)
    | Assign(cell: Cell, e: Expr)
    | Print(e: Expr)
    | If(c: Cond, thn: Stmt)
    | IfElse(c: Cond, thn: Stmt, els: Stmt)
    | While(c: Cond, body: Stmt)

  type Env = map<Cell, Int32>

  // ----- arithmetic -----

  /** Where the delayed code generator keeps an operand it has not yet combined: still in memory,
      a constant (folded so far), or in the top register. */
  datatype Item = VarItem(cell: Cell) | ImmItem(n: Int32) | RegItem

  function ItemOf(e: Expr): Item {
    match e
    case Var(c) => VarItem(c)
    case Num(n) => ImmItem(n)
    case Bin(op, l, r) =>
      match (ItemOf(l), ItemOf(r))
      case (ImmItem(a), ImmItem(b)) => ImmItem(Apply(op, a, b))
      case _ => RegItem
  }

  /** The operand modes for which the emitted instruction has its operands the wrong way round. */
  predicate Swaps(op: Arith, l: Item, r: Item) {
    || (op in {Sub, Div, Mod} && l.VarItem? && r.RegItem?)
    || (op in {Div, Mod} && l.ImmItem? && !r.ImmItem?)
  }

  function Combine(op: Arith, l: Item, r: Item, a: Int32, b: Int32, reading: Reading): Int32 {
    if reading == Compiled && Swaps(op, l, r) then Apply(op, b, a) else Apply(op, a, b)
  }

  /** Every variable of the expression is one of `vars`. */
  predicate Scoped(e: Expr, vars: set<Cell>) {
    match e
    case Var(c) => c in vars
    case Num(_) => true
    case Bin(_, l, r) => Scoped(l, vars) && Scoped(r, vars)
  }

  function Value(e: Expr, env: Env, reading: Reading): Int32
    requires Scoped(e, env.Keys)
  {
    match e
    case Var(c) => env[c]
    case Num(n) => n
    case Bin(op, l, r) =>
      Combine(op, ItemOf(l), ItemOf(r), Value(l, env, reading), Value(r, env, reading), reading)
  }

  // ----- conditions -----

  predicate OperandScoped(o: Operand, vars: set<Cell>) {
    match o
    case Compare(_, l, r) => Scoped(l, vars) && Scoped(r, vars)
    case Paren(c) => CondScoped(c, vars)
  }

  predicate CondScoped(c: Cond, vars: set<Cell>) {
    OperandScoped(c.o, vars) && (c.Link? ==> CondScoped(c.rest, vars))
  }

  /** The outcome of a condition and the operand pairs compared on the way, in order. */
  datatype Verdict = Verdict(holds: bool, compared: seq<(Int32, Int32)>)

  function CompareValues(rel: Rel, a: Int32, b: Int32, reading: Reading): bool {
    match reading
    case Intended => Holds(rel, a, b)
    case Compiled => Holds(rel, Difference(a, b), 0)
  }

  function OperandVerdict(o: Operand, env: Env, reading: Reading): Verdict
    requires OperandScoped(o, env.Keys)
    decreases o, 0
  {
    match o
    case Compare(rel, l, r) =>
      var a, b := Value(l, env, reading), Value(r, env, reading);
      Verdict(CompareValues(rel, a, b, reading), [(a, b)])
    case Paren(c) => CondVerdict(c, env, reading)
  }

  function CondVerdict(c: Cond, env: Env, reading: Reading): Verdict
    requires CondScoped(c, env.Keys)
    decreases c, 1
  {
    match reading
    case Intended => Precedence(true, c, env, reading)
    case Compiled => RightToLeft(c, env, reading)
  }

  /** && binds tighter than ||. `group` tells whether the && group read so far holds; operands
      after a false one are skipped up to the next ||, and everything after a true group is. */
  function Precedence(group: bool, c: Cond, env: Env, reading: Reading): Verdict
    requires CondScoped(c, env.Keys)
    decreases c, 0
  {
    var v := if group then OperandVerdict(c.o, env, reading) else Verdict(false, []);
    match c
    case One(_) => v
    case Link(_, And, rest) => After(v, Precedence(v.holds, rest, env, reading))
    case Link(_, Or, rest) => if v.holds then v else After(v, Precedence(true, rest, env, reading))
  }

  /** Both operators at one level, grouped from the right: a && b || c is a && (b || c). */
  function RightToLeft(c: Cond, env: Env, reading: Reading): Verdict
    requires CondScoped(c, env.Keys)
    decreases c, 0
  {
    var v := OperandVerdict(c.o, env, reading);
    match c
    case One(_) => v
    case Link(_, op, rest) => if v.holds == (op == And) then After(v, RightToLeft(rest, env, reading)) else v
  }

  function After(first: Verdict, second: Verdict): Verdict {
    Verdict(second.holds, first.compared + second.compared)
  }

  // ----- statements -----

  predicate StmtScoped(s: Stmt, vars: set<Cell>) {
    match s
    case Skip => true
    case Seq(a, b) => StmtScoped(a, vars) && StmtScoped(b, vars)
    case Assign(c, e) => c in vars && Scoped(e, vars)
    case Print(e) => Scoped(e, vars)
    case If(c, thn) => CondScoped(c, vars) && StmtScoped(thn, vars)
    case IfElse(c, thn, els) => CondScoped(c, vars) && StmtScoped(thn, vars) && StmtScoped(els, vars)
    case While(c, body) => CondScoped(c, vars) && StmtScoped(body, vars)
  }

  datatype Store = Store(env: Env, out: seq<Int32>, compared: seq<(Int32, Int32)>)

  datatype Option<T> = None | Some(value: T)

  function Decide(c: Cond, s: Store, reading: Reading): (bool, Store)
    requires CondScoped(c, s.env.Keys)
  {
    var v := CondVerdict(c, s.env, reading);
    (v.holds, s.(compared := s.compared + v.compared))
  }

  /** Runs a statement for at most `turns` turns of each loop on the way down; None when that is
      not enough. */
  function Exec(s: Stmt, st: Store, reading: Reading, turns: nat): (r: Option<Store>)
    requires StmtScoped(s, st.env.Keys)
    ensures r.Some? ==> r.value.env.Keys == st.env.Keys
    decreases turns, s
  {
    match s
    case Skip => Some(st)
    case Seq(a, b) =>
      (match Exec(a, st, reading, turns)
       case None => None
       case Some(mid) => Exec(b, mid, reading, turns))
    case Assign(c, e) => Some(st.(env := st.env[c := Value(e, st.env, reading)]))
    case Print(e) => Some(st.(out := st.out + [Value(e, st.env, reading)]))
    case If(c, thn) =>
      var (holds, next) := Decide(c, st, reading);
      if holds then Exec(thn, next, reading, turns) else Some(next)
    case IfElse(c, thn, els) =>
      var (holds, next) := Decide(c, st, reading);
      if holds then Exec(thn, next, reading, turns) else Exec(els, next, reading, turns)
    case While(c, body) =>
      if turns == 0 then None
      else
        var (holds, next) := Decide(c, st, reading);
        if !holds then Some(next)
        else
          match Exec(body, next, reading, turns)
          case None => None
          case Some(mid) => Exec(s, mid, reading, turns - 1)
  }
}
