/** The code generator: the code it emits for each tree as a function, and the emitter itself, which
    appends to the assembly file and hands out label numbers. */
module Codegen {
  import opened Extrema
  import opened Mips
  import opened Options
  import opened SyntaxTree

  function Push(r: Reg): seq<Instr> { [Sw(r, 0, Sp), Addi(Sp, Sp, -4)] }

  function Pop(r: Reg): seq<Instr> { [Lw(r, 4, Sp), Addi(Sp, Sp, 4)] }

  function OpCode(op: Arith): seq<Instr> {
    match op
    case Plus => [Add(T0, T0, T1)]
    case Minus => [Sub(T0, T0, T1)]
    case Times => [Mult(T0, T1), Mflo(T0)]
    case Over => [Div(T0, T1), Mflo(T0)]
  }

  /** Replaces the two words on top of the stack by the result of `op`. */
  function Combine(op: seq<Instr>): seq<Instr> {
    Pop(T1) + [Lw(T0, 4, Sp)] + op + [Sw(T0, 4, Sp)]
  }

  function ExprCode(e: Expr): seq<Instr> {
    match e
    case Num(n) => [Li(T0, n)] + Push(T0)
    case Arithmetic(op, l, r) => ExprCode(l) + ExprCode(r) + Combine(OpCode(op))
    case Comparison(rel, l, r) => ExprCode(l) + ExprCode(r) + Combine([Compare(rel, T0, T0, T1)])
    case Negate(e1) => ExprCode(e1) + [Lw(T0, 4, Sp), Li(T1, -1), Mult(T0, T1), Mflo(T0), Sw(T0, 4, Sp)]
    case Value(v) => VarCode(v) + [Lw(T1, 4, Sp), Lw(T0, 0, T1), Sw(T0, 4, Sp)]
  }

  function SelectsCode(s: Selects): seq<Instr> {
    match s
    case NoMore => []
    case Field(offset, rest) =>
      [Li(T1, offset), Lw(T0, 4, Sp), Add(T0, T0, T1), Sw(T0, 4, Sp)] + SelectsCode(rest)
    case Index(e, rest) => ExprCode(e) + IndexTail() + SelectsCode(rest)
  }

  function IndexTail(): seq<Instr> {
    Pop(T1) + [Li(T0, 4), Mult(T0, T1), Mflo(T1), Lw(T0, 4, Sp), Add(T0, T0, T1), Sw(T0, 4, Sp)]
  }

  function BaseCode(v: Variable): seq<Instr> {
    match v
    case Global(name, _) => [La(T0, name)]
    case Local(offset, _) => [Move(T0, Fp), Li(T1, offset), Sub(T0, T0, T1)]
  }

  /** Pushes the address of a variable: its base and the distance to the selected word are computed
      on the stack and then combined. */
  function VarCode(v: Variable): seq<Instr> {
    BaseCode(v) + Push(T0) + Push(Zero) + SelectsCode(v.selects)
    + Combine(if v.Global? then [Add(T0, T0, T1)] else [Sub(T0, T0, T1)])
  }

  function AssignCode(v: Variable, e: Expr): seq<Instr> {
    VarCode(v) + ExprCode(e) + Pop(T1) + Pop(T0) + [Sw(T1, 0, T0)]
  }

  /** Pops a condition and goes to `whenTrue` if it is not zero and to `whenFalse` otherwise. */
  function Decide(whenTrue: nat, whenFalse: nat): seq<Instr> {
    Pop(T0) + [Bnez(T0, whenTrue), B(whenFalse), Label(whenTrue)]
  }

  /** The code of a statement whose labels are numbered from `id`, and the first number left over. */
  function StmtCode(s: Stmt, id: nat): (seq<Instr>, nat) {
    match s
    case Nothing => ([], id)
    case Then(before, op) =>
      var (c1, id1) := StmtCode(before, id);
      var (c2, id2) := OperationCode(op, id1);
      (c1 + c2, id2)
  }

  function OperationCode(op: Operation, id: nat): (seq<Instr>, nat) {
    match op
    case Assign(v, e) => (AssignCode(v, e), id)
    case IfElse(chain) =>
      var (c, id1) := ChainCode(chain, id, id + 1);
      (c + [Label(id)], id1)
    case Loop(cond, body) =>
      var (c, id1) := StmtCode(body, id + 3);
      ([Label(id)] + ExprCode(cond) + Decide(id + 1, id + 2) + c + [B(id), Label(id + 2)], id1)
  }

  /** The code of an if/else chain that leaves for the label `next` once a branch is done. */
  function ChainCode(chain: Chain, next: nat, id: nat): (seq<Instr>, nat) {
    match chain
    case NoBranch => ([], id)
    case If(before, cond, body) =>
      var (c1, id1) := ChainCode(before, next, id + 2);
      var (c2, id2) := StmtCode(body, id1);
      (c1 + ExprCode(cond) + Decide(id, id + 1) + c2 + [B(next), Label(id + 1)], id2)
    case Else(before, body) =>
      var (c1, id1) := ChainCode(before, next, id + 2);
      var (c2, id2) := StmtCode(body, id1);
      (c1 + c2 + [B(next)], id2)
  }

  // ----- how many words of stack the code needs -----

  function ExprDepth(e: Expr): (d: nat)
    ensures d > 0
  {
    match e
    case Num(_) => 1
    case Arithmetic(_, l, r) => Max(ExprDepth(l), 1 + ExprDepth(r))
    case Comparison(_, l, r) => Max(ExprDepth(l), 1 + ExprDepth(r))
    case Negate(e1) => ExprDepth(e1)
    case Value(v) => VarDepth(v)
  }

  function SelectsDepth(s: Selects): nat {
    match s
    case NoMore => 0
    case Field(_, rest) => SelectsDepth(rest)
    case Index(e, rest) => Max(ExprDepth(e), SelectsDepth(rest))
  }

  /** The base and the distance lie on the stack while the selections are computed. */
  function VarDepth(v: Variable): nat {
    2 + SelectsDepth(v.selects)
  }

  function StmtDepth(s: Stmt): nat {
    match s
    case Nothing => 0
    case Then(before, op) => Max(StmtDepth(before), OperationDepth(op))
  }

  function OperationDepth(op: Operation): nat {
    match op
    case Assign(v, e) => Max(VarDepth(v), 1 + ExprDepth(e))
    case IfElse(chain) => ChainDepth(chain)
    case Loop(cond, body) => Max(ExprDepth(cond), StmtDepth(body))
  }

  function ChainDepth(chain: Chain): nat {
    match chain
    case NoBranch => 0
    case If(before, cond, body) => Max(ChainDepth(before), Max(ExprDepth(cond), StmtDepth(body)))
    case Else(before, body) => Max(ChainDepth(before), StmtDepth(body))
  }

  /** The constant value the declarations of the language are initialised with; comparisons and
      variables count as 0, and None stands for the crash on a division by zero. */
  function EvalExpression(e: Expr): Option<int> {
    match e
    case Num(n) => Some(n)
    case Arithmetic(op, l, r) =>
      var x, y := EvalExpression(l), EvalExpression(r);
      if x.None? || y.None? then None else Compute(op, x.value, y.value)
    case Comparison(_, l, r) =>
      if EvalExpression(l).None? || EvalExpression(r).None? then None else Some(0)
    case Negate(e1) =>
      var x := EvalExpression(e1);
      if x.None? then None else Some(-1 * x.value)
    case Value(_) => Some(0)
  }

  lemma Assoc(a: seq<Instr>, b: seq<Instr>, c: seq<Instr>)
    ensures a + b + c == a + (b + c)
  {
  }

  lemma AssocBranch(out: seq<Instr>, front: seq<Instr>, test: seq<Instr>, decide: seq<Instr>, body: seq<Instr>, leave: seq<Instr>)
    ensures out + front + test + decide + body + leave == out + (front + test + decide + body + leave)
  {
    Assoc(out, front, test);
    Assoc(out, front + test, decide);
    Assoc(out, front + test + decide, body);
    Assoc(out, front + test + decide + body, leave);
  }

  class Generator {
    var asmFile: seq<Instr>
    var labelId: nat

    constructor ()
      ensures asmFile == [] && labelId == 0
    {
      asmFile, labelId := [], 0;
    }

    method Emit(lines: seq<Instr>)
      modifies this`asmFile
      ensures asmFile == old(asmFile) + lines
    {
      asmFile := asmFile + lines;
    }

    method NewLabel() returns (id: nat)
      modifies this`labelId
      ensures id == old(labelId) && labelId == id + 1
    {
      id := labelId;
      labelId := labelId + 1;
    }

    method GenExpression(e: Expr)
      modifies this`asmFile
      ensures asmFile == old(asmFile) + ExprCode(e)
      decreases e, 0
    {
      match e
      case Num(n) =>
        Emit([Li(T0, n), Sw(T0, 0, Sp), Addi(Sp, Sp, -4)]);
      case Arithmetic(op, l, r) =>
        GenExpression(l);
        GenExpression(r);
        Emit([Lw(T1, 4, Sp), Addi(Sp, Sp, 4), Lw(T0, 4, Sp)] + OpCode(op) + [Sw(T0, 4, Sp)]);
        Assoc(old(asmFile), ExprCode(l), ExprCode(r));
        Assoc(old(asmFile), ExprCode(l) + ExprCode(r), Combine(OpCode(op)));
      case Comparison(rel, l, r) =>
        GenExpression(l);
        GenExpression(r);
        Emit([Lw(T1, 4, Sp), Addi(Sp, Sp, 4), Lw(T0, 4, Sp)] + [Compare(rel, T0, T0, T1)] + [Sw(T0, 4, Sp)]);
        Assoc(old(asmFile), ExprCode(l), ExprCode(r));
        Assoc(old(asmFile), ExprCode(l) + ExprCode(r), Combine([Compare(rel, T0, T0, T1)]));
      case Negate(e1) =>
        GenExpression(e1);
        Emit([Lw(T0, 4, Sp), Li(T1, -1), Mult(T0, T1), Mflo(T0), Sw(T0, 4, Sp)]);
      case Value(v) =>
        GenVar(v);
        Emit([Lw(T1, 4, Sp), Lw(T0, 0, T1), Sw(T0, 4, Sp)]);
    }

    method GenVar(v: Variable)
      modifies this`asmFile
      ensures asmFile == old(asmFile) + VarCode(v)
      decreases v, 1
    {
      match v {
        case Global(name, _) => Emit([La(T0, name)]);
        case Local(offset, _) => Emit([Move(T0, Fp), Li(T1, offset), Sub(T0, T0, T1)]);
      }
      Emit(Push(T0) + Push(Zero));
      ghost var head := asmFile;
      assert head == old(asmFile) + (BaseCode(v) + Push(T0) + Push(Zero));
      var s := v.selects;
      while !s.NoMore?
        invariant s == v.selects || s < v.selects
        invariant asmFile + SelectsCode(s) == head + SelectsCode(v.selects)
        decreases s
      {
        ghost var before := asmFile;
        match s {
          case Field(offset, rest) =>
            Emit([Li(T1, offset), Lw(T0, 4, Sp), Add(T0, T0, T1), Sw(T0, 4, Sp)]);
            Assoc(before, [Li(T1, offset), Lw(T0, 4, Sp), Add(T0, T0, T1), Sw(T0, 4, Sp)], SelectsCode(rest));
          case Index(e, rest) =>
            GenExpression(e);
            Emit(Pop(T1) + [Li(T0, 4), Mult(T0, T1), Mflo(T1), Lw(T0, 4, Sp), Add(T0, T0, T1), Sw(T0, 4, Sp)]);
            Assoc(before, ExprCode(e), IndexTail());
            Assoc(before, ExprCode(e) + IndexTail(), SelectsCode(rest));
        }
        s := s.rest;
      }
      assert asmFile + [] == asmFile;
      ghost var front, tail := BaseCode(v) + Push(T0) + Push(Zero), Combine(if v.Global? then [Add(T0, T0, T1)] else [Sub(T0, T0, T1)]);
      Assoc(old(asmFile), front, SelectsCode(v.selects));
      Assoc(old(asmFile), front + SelectsCode(v.selects), tail);
      Emit(Combine(if v.Global? then [Add(T0, T0, T1)] else [Sub(T0, T0, T1)]));
    }

    method GenStmt(s: Stmt)
      modifies this
      ensures asmFile == old(asmFile) + StmtCode(s, old(labelId)).0
      ensures labelId == StmtCode(s, old(labelId)).1
      decreases s, 0
    {
      hide AssignCode;
      match s
      case Nothing =>
      case Then(before, op) =>
        GenStmt(before);
        ghost var start := asmFile;
        match op {
          case Assign(v, e) => AssignmentStmt(v, e);
          case IfElse(chain) =>
            var nextLabel := NewLabel();
            IfElseStmt(chain, nextLabel);
            Emit([Label(nextLabel)]);
            assert asmFile == start + OperationCode(op, nextLabel).0;
          case Loop(cond, body) => LoopStmt(cond, body);
        }
    }

    method AssignmentStmt(v: Variable, e: Expr)
      modifies this`asmFile
      ensures asmFile == old(asmFile) + AssignCode(v, e)
    {
      hide VarCode, ExprCode;
      GenVar(v);
      GenExpression(e);
      Emit(Pop(T1));
      Emit(Pop(T0));
      Emit([Sw(T1, 0, T0)]);
    }

    method LoopStmt(cond: Expr, body: Stmt)
      modifies this
      ensures asmFile == old(asmFile) + OperationCode(Loop(cond, body), old(labelId)).0
      ensures labelId == OperationCode(Loop(cond, body), old(labelId)).1
      decreases body, 1
    {
      hide ExprCode, StmtCode;
      var mainLabel := NewLabel();
      var trueLabel := NewLabel();
      var falseLabel := NewLabel();
      Emit([Label(mainLabel)]);
      GenExpression(cond);
      Emit(Pop(T0) + [Bnez(T0, trueLabel), B(falseLabel), Label(trueLabel)]);
      GenStmt(body);
      Emit([B(mainLabel), Label(falseLabel)]);
      ghost var c := StmtCode(body, mainLabel + 3).0;
      ghost var decide := Decide(trueLabel, falseLabel);
      AssocBranch(old(asmFile), [Label(mainLabel)], ExprCode(cond), decide, c, [B(mainLabel), Label(falseLabel)]);
    }

    method IfElseStmt(chain: Chain, nextLabel: nat)
      modifies this
      ensures asmFile == old(asmFile) + ChainCode(chain, nextLabel, old(labelId)).0
      ensures labelId == ChainCode(chain, nextLabel, old(labelId)).1
      decreases chain
    {
      hide ExprCode, StmtCode;
      match chain
      case NoBranch =>
      case If(before, cond, body) =>
        var trueLabel := NewLabel();
        var falseLabel := NewLabel();
        IfElseStmt(before, nextLabel);
        GenExpression(cond);
        Emit(Pop(T0) + [Bnez(T0, trueLabel), B(falseLabel), Label(trueLabel)]);
        GenStmt(body);
        Emit([B(nextLabel), Label(falseLabel)]);
        ghost var (c1, id1) := ChainCode(before, nextLabel, trueLabel + 2);
        ghost var (c2, id2) := StmtCode(body, id1);
        ghost var decide := Decide(trueLabel, falseLabel);
        AssocBranch(old(asmFile), c1, ExprCode(cond), decide, c2, [B(nextLabel), Label(falseLabel)]);
      case Else(before, body) =>
        var trueLabel := NewLabel();
        var falseLabel := NewLabel();
        IfElseStmt(before, nextLabel);
        GenStmt(body);
        Emit([B(nextLabel)]);
    }
  }
}
