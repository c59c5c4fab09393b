/** Statements and expressions of the source language, and what they mean. */
module SyntaxTree {
  import opened Division
  import opened Mips
  import opened Options

  datatype Arith = Plus | Minus | Times | Over

  datatype Expr =
    | Num(n: int)
    | Arithmetic(op: Arith, l: Expr, r: Expr)
    | Comparison(rel: Relation, l: Expr, r: Expr)
    | Negate(e: Expr)
    | Value(v: Variable)

  /** A variable at nesting level 1, found under its label, or at level 2, found below the frame
      pointer, with the fields and indices selected from it. */
  datatype Variable = Global(name: nat, selects: Selects) | Local(offset: int, selects: Selects)

  datatype Selects = NoMore | Field(offset: int, rest: Selects) | Index(e: Expr, rest: Selects)

  /** A statement list grows to the right: everything before, then one operation. */
  datatype Stmt = Nothing | Then(before: Stmt, op: Operation)

  datatype Operation =
    | Assign(v: Variable, e: Expr)
    | IfElse(chain: Chain)
    | Loop(cond: Expr, body: Stmt)

  datatype Chain = NoBranch | If(before: Chain, cond: Expr, body: Stmt) | Else(before: Chain, body: Stmt)

  /** Where variables live: the addresses of labels, the frame pointer, and the stack pointer.  The code
      may use `scratch` words as its stack, from the one at the stack pointer downward; all others, above
      and below, belong to the program. */
  datatype Frame = Frame(names: nat -> int, fp: int, sp: int, scratch: nat)

  /** The first word below the stack. */
  function Low(f: Frame): int { f.sp - 4 * f.scratch }

  /** The aligned words outside the stack can be used by the program. */
  predicate Usable(f: Frame, a: int) {
    a % 4 == 0 && !(Low(f) < a <= f.sp)
  }

  function Compute(op: Arith, x: int, y: int): Option<int> {
    match op
    case Plus => Some(x + y)
    case Minus => Some(x - y)
    case Times => Some(x * y)
    case Over => if y == 0 then None else Some(Quotient(x, y))
  }

  /** The value of an expression; None when it divides by zero or uses a word it must not use. */
  function Eval(e: Expr, f: Frame, mem: Memory): Option<int> {
    match e
    case Num(n) => Some(n)
    case Arithmetic(op, l, r) =>
      var x, y := Eval(l, f, mem), Eval(r, f, mem);
      if x.None? || y.None? then None else Compute(op, x.value, y.value)
    case Comparison(rel, l, r) =>
      var x, y := Eval(l, f, mem), Eval(r, f, mem);
      if x.None? || y.None? then None else Some(Holds(rel, x.value, y.value))
    case Negate(e1) =>
      var x := Eval(e1, f, mem);
      if x.None? then None else Some(-x.value)
    case Value(v) =>
      var a := Address(v, f, mem);
      if a.Some? && Usable(f, a.value) then Some(Read(mem, a.value)) else None
  }

  /** The distance from the start of a variable to the word selected from it. */
  function Distance(s: Selects, f: Frame, mem: Memory): Option<int> {
    match s
    case NoMore => Some(0)
    case Field(offset, rest) =>
      var d := Distance(rest, f, mem);
      if d.None? then None else Some(offset + d.value)
    case Index(e, rest) =>
      var i, d := Eval(e, f, mem), Distance(rest, f, mem);
      if i.None? || d.None? then None else Some(4 * i.value + d.value)
  }

  /** Globals grow upward from their label, locals downward from the frame pointer. */
  function Address(v: Variable, f: Frame, mem: Memory): Option<int> {
    var d := Distance(v.selects, f, mem);
    if d.None? then None
    else match v
      case Global(name, _) => Some(f.names(name) + d.value)
      case Local(offset, _) => Some(f.fp - offset - d.value)
  }

  /** How executing a statement ends.  `Running` means that it needs more loop iterations than allowed,
      `Fault` that it computed something undefined. */
  datatype Outcome = Done(mem: Memory) | Running | Fault

  /** Execution with at most `fuel` nested or successive iterations of each loop. */
  function Exec(s: Stmt, f: Frame, mem: Memory, fuel: nat): Outcome
    decreases fuel, s
  {
    match s
    case Nothing => Done(mem)
    case Then(before, op) =>
      var o := Exec(before, f, mem, fuel);
      if o.Done? then ExecOperation(op, f, o.mem, fuel) else o
  }

  function ExecOperation(op: Operation, f: Frame, mem: Memory, fuel: nat): Outcome
    decreases fuel, op
  {
    match op
    case Assign(v, e) =>
      var a, x := Address(v, f, mem), Eval(e, f, mem);
      if a.Some? && x.Some? && Usable(f, a.value) then Done(mem[a.value := x.value]) else Fault
    case IfElse(chain) =>
      var (taken, o) := ExecChain(chain, f, mem, fuel);
      o
    case Loop(cond, body) =>
      var x := Eval(cond, f, mem);
      if x.None? then Fault
      else if x.value == 0 then Done(mem)
      else if fuel == 0 then Running
      else
        var o := Exec(body, f, mem, fuel - 1);
        if o.Done? then ExecOperation(op, f, o.mem, fuel - 1) else o
  }

  /** The first branch whose condition is not zero is executed; whether there was one. */
  function ExecChain(c: Chain, f: Frame, mem: Memory, fuel: nat): (bool, Outcome)
    decreases fuel, c
  {
    match c
    case NoBranch => (false, Done(mem))
    case If(before, cond, body) =>
      var (taken, o) := ExecChain(before, f, mem, fuel);
      if taken || !o.Done? then (taken, o)
      else
        var x := Eval(cond, f, o.mem);
        if x.None? then (false, Fault)
        else if x.value == 0 then (false, o)
        else (true, Exec(body, f, o.mem, fuel))
    case Else(before, body) =>
      var (taken, o) := ExecChain(before, f, mem, fuel);
      if taken || !o.Done? then (taken, o) else (true, Exec(body, f, o.mem, fuel))
  }
}
