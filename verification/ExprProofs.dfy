/** The code of an expression pushes its value, the code of a variable its address, and neither
    changes anything but the words of the stack below, of which it needs no more than its depth. */
module ExprProofs {
  import opened Codegen
  import opened Division
  import opened Extrema
  import opened Mips
  import opened Options
  import opened SyntaxTree

  /** A run of `code` from the state `from`. */
  datatype Run = Run(code: seq<Instr>, f: Frame, from: Machine)

  ghost predicate At(r: Run, n: nat, m: Machine) {
    Runs(r.code, r.f.names, r.from, n, m)
  }

  ghost predicate Embedded(code: seq<Instr>, at: nat, part: seq<Instr>) {
    && at + |part| <= |code|
    && forall i {:trigger part[i]} :: 0 <= i < |part| ==> code[at + i] == part[i]
  }

  lemma EmbeddedParts(code: seq<Instr>, at: nat, a: seq<Instr>, b: seq<Instr>)
    requires Embedded(code, at, a + b)
    ensures Embedded(code, at, a) && Embedded(code, at + |a|, b)
  {
    forall i | 0 <= i < |a|
      ensures code[at + i] == a[i]
    {
      assert (a + b)[i] == a[i];
    }
    forall i | 0 <= i < |b|
      ensures code[at + |a| + i] == b[i]
    {
      assert (a + b)[|a| + i] == b[i];
    }
  }

  /** One more instruction: the one `part` has at position `k`. */
  lemma Do(r: Run, n: nat, m: Machine, at: nat, part: seq<Instr>, k: nat) returns (m': Machine)
    requires At(r, n, m) && Embedded(r.code, at, part) && k < |part| && m.pc == at + k
    requires Execute(part[k], r.code, r.f.names, m).Some?
    ensures m' == Execute(part[k], r.code, r.f.names, m).value && At(r, n + 1, m')
  {
    assert r.code[at + k] == part[k];
    m' := Advance(r.code, r.f.names, r.from, n, m);
  }

  /** The stack pointer is aligned, and `need` words of the stack are left from there on. */
  ghost predicate Ready(r: Run, m: Machine, need: int) {
    && m.fp == r.f.fp && m.sp <= r.f.sp && m.sp % 4 == 0 && r.f.sp % 4 == 0
    && m.sp - 4 * need >= Low(r.f)
  }

  /** The memories agree outside the words from above `low` up to `high`. */
  ghost predicate Same(low: int, high: int, a: Memory, b: Memory) {
    forall x :: x <= low || x > high ==> Read(a, x) == Read(b, x)
  }

  /** `m'` is `m` after code of length `len` that pushed `v` and otherwise used the stack below. */
  ghost predicate Pushed(low: int, m: Machine, m': Machine, len: nat, v: int) {
    && m'.pc == m.pc + len && m'.sp == m.sp - 4 && m'.fp == m.fp
    && Read(m'.mem, m.sp) == v && Same(low, m.sp, m.mem, m'.mem)
  }

  // ----- what expressions depend on -----

  lemma {:induction false} EvalSame(e: Expr, f: Frame, a: Memory, b: Memory)
    requires Same(Low(f), f.sp, a, b)
    ensures Eval(e, f, a) == Eval(e, f, b)
    decreases e
  {
    match e
    case Num(_) =>
    case Arithmetic(_, l, r) => EvalSame(l, f, a, b); EvalSame(r, f, a, b);
    case Comparison(_, l, r) => EvalSame(l, f, a, b); EvalSame(r, f, a, b);
    case Negate(e1) => EvalSame(e1, f, a, b);
    case Value(v) => DistanceSame(v.selects, f, a, b);
  }

  lemma {:induction false} DistanceSame(s: Selects, f: Frame, a: Memory, b: Memory)
    requires Same(Low(f), f.sp, a, b)
    ensures Distance(s, f, a) == Distance(s, f, b)
    decreases s
  {
    match s
    case NoMore =>
    case Field(_, rest) => DistanceSame(rest, f, a, b);
    case Index(e, rest) => EvalSame(e, f, a, b); DistanceSame(rest, f, a, b);
  }

  lemma AddressSame(v: Variable, f: Frame, a: Memory, b: Memory)
    requires Same(Low(f), f.sp, a, b)
    ensures Address(v, f, a) == Address(v, f, b)
  {
    DistanceSame(v.selects, f, a, b);
  }

  // ----- straight pieces of code -----

  lemma PushRuns(r: Run, n: nat, m: Machine, s: Reg) returns (m': Machine)
    requires At(r, n, m) && m.sp % 4 == 0 && Embedded(r.code, m.pc, Push(s)) && s != Sp
    ensures At(r, n + 2, m')
    ensures m' == m.(pc := m.pc + 2, sp := m.sp - 4, mem := m.mem[m.sp := Get(m, s)])
  {
    var m1 := Do(r, n, m, m.pc, Push(s), 0);
    m' := Do(r, n + 1, m1, m.pc, Push(s), 1);
  }

  lemma PopRuns(r: Run, n: nat, m: Machine, d: Reg) returns (m': Machine)
    requires At(r, n, m) && m.sp % 4 == 0 && Embedded(r.code, m.pc, Pop(d)) && (d == T0 || d == T1)
    ensures At(r, n + 2, m')
    ensures m' == Put(m.(pc := m.pc + 2, sp := m.sp + 4), d, Read(m.mem, m.sp + 4))
  {
    var m1 := Do(r, n, m, m.pc, Pop(d), 0);
    m' := Do(r, n + 1, m1, m.pc, Pop(d), 1);
  }

  /** `op` leaves the result `v` of combining $t0 and $t1 in $t0. */
  ghost predicate Computes(op: seq<Instr>, x: int, y: int, v: int) {
    || (op == [Add(T0, T0, T1)] && v == x + y)
    || (op == [Sub(T0, T0, T1)] && v == x - y)
    || (op == [Mult(T0, T1), Mflo(T0)] && v == x * y)
    || (op == [Div(T0, T1), Mflo(T0)] && y != 0 && v == Quotient(x, y))
    || exists rel :: op == [Compare(rel, T0, T0, T1)] && v == Holds(rel, x, y)
  }

  lemma OpRuns(r: Run, n: nat, m: Machine, op: seq<Instr>, v: int) returns (n': nat, m': Machine)
    requires At(r, n, m) && Embedded(r.code, m.pc, op) && Computes(op, m.t0, m.t1, v)
    ensures At(r, n', m') && n' > n && m' == m.(pc := m.pc + |op|, t0 := v, lo := m'.lo)
  {
    m' := Do(r, n, m, m.pc, op, 0);
    n' := n + 1;
    if |op| == 2 {
      m' := Do(r, n', m', m.pc, op, 1);
      n' := n + 2;
    }
  }

  lemma CombineLength(op: seq<Instr>)
    ensures |Combine(op)| == |op| + 4
  {
  }

  /** The two words on top of the stack are replaced by their combination. */
  lemma CombineRuns(r: Run, n: nat, m: Machine, op: seq<Instr>, v: int) returns (n': nat, m': Machine)
    requires At(r, n, m) && m.sp % 4 == 0 && Embedded(r.code, m.pc, Combine(op))
    requires Computes(op, Read(m.mem, m.sp + 8), Read(m.mem, m.sp + 4), v)
    ensures At(r, n', m') && n' > n
    ensures m'.pc == m.pc + |op| + 4 && m'.sp == m.sp + 4 && m'.fp == m.fp && m'.mem == m.mem[m.sp + 8 := v]
  {
    var top, rest := [Lw(T0, 4, Sp)], [Sw(T0, 4, Sp)];
    EmbeddedParts(r.code, m.pc, Pop(T1) + top + op, rest);
    EmbeddedParts(r.code, m.pc, Pop(T1) + top, op);
    EmbeddedParts(r.code, m.pc, Pop(T1), top);
    var m1 := PopRuns(r, n, m, T1);
    var m2 := Do(r, n + 2, m1, m1.pc, top, 0);
    var n3, m3 := OpRuns(r, n + 3, m2, op, v);
    m' := Do(r, n3, m3, m3.pc, rest, 0);
    n' := n3 + 1;
  }

  /** The word on top of the stack is replaced by another one. */
  ghost predicate TopReplaced(m: Machine, m': Machine, len: nat, v: int) {
    m'.pc == m.pc + len && m'.sp == m.sp && m'.fp == m.fp && m'.mem == m.mem[m.sp + 4 := v]
  }

  lemma NegateRuns(r: Run, n: nat, m: Machine) returns (m': Machine)
    requires At(r, n, m) && m.sp % 4 == 0
    requires Embedded(r.code, m.pc, [Lw(T0, 4, Sp), Li(T1, -1), Mult(T0, T1), Mflo(T0), Sw(T0, 4, Sp)])
    ensures At(r, n + 5, m') && TopReplaced(m, m', 5, -Read(m.mem, m.sp + 4))
  {
    var part := [Lw(T0, 4, Sp), Li(T1, -1), Mult(T0, T1), Mflo(T0), Sw(T0, 4, Sp)];
    m' := Do(r, n, m, m.pc, part, 0);
    m' := Do(r, n + 1, m', m.pc, part, 1);
    m' := Do(r, n + 2, m', m.pc, part, 2);
    m' := Do(r, n + 3, m', m.pc, part, 3);
    m' := Do(r, n + 4, m', m.pc, part, 4);
  }

  lemma LoadRuns(r: Run, n: nat, m: Machine) returns (m': Machine)
    requires At(r, n, m) && m.sp % 4 == 0 && Read(m.mem, m.sp + 4) % 4 == 0
    requires Embedded(r.code, m.pc, [Lw(T1, 4, Sp), Lw(T0, 0, T1), Sw(T0, 4, Sp)])
    ensures At(r, n + 3, m') && TopReplaced(m, m', 3, Read(m.mem, Read(m.mem, m.sp + 4)))
  {
    var part := [Lw(T1, 4, Sp), Lw(T0, 0, T1), Sw(T0, 4, Sp)];
    m' := Do(r, n, m, m.pc, part, 0);
    m' := Do(r, n + 1, m', m.pc, part, 1);
    m' := Do(r, n + 2, m', m.pc, part, 2);
  }

  lemma FieldRuns(r: Run, n: nat, m: Machine, offset: int) returns (m': Machine)
    requires At(r, n, m) && m.sp % 4 == 0
    requires Embedded(r.code, m.pc, [Li(T1, offset), Lw(T0, 4, Sp), Add(T0, T0, T1), Sw(T0, 4, Sp)])
    ensures At(r, n + 4, m') && TopReplaced(m, m', 4, Read(m.mem, m.sp + 4) + offset)
  {
    var part := [Li(T1, offset), Lw(T0, 4, Sp), Add(T0, T0, T1), Sw(T0, 4, Sp)];
    m' := Do(r, n, m, m.pc, part, 0);
    m' := Do(r, n + 1, m', m.pc, part, 1);
    m' := Do(r, n + 2, m', m.pc, part, 2);
    m' := Do(r, n + 3, m', m.pc, part, 3);
  }

  lemma IndexTailLength()
    ensures |IndexTail()| == 8
  {
  }

  /** Pops an index and adds four times it to the distance below. */
  lemma IndexRuns(r: Run, n: nat, m: Machine) returns (m': Machine)
    requires At(r, n, m) && m.sp % 4 == 0 && Embedded(r.code, m.pc, IndexTail())
    ensures At(r, n + 8, m')
    ensures m'.pc == m.pc + 8 && m'.sp == m.sp + 4 && m'.fp == m.fp
    ensures m'.mem == m.mem[m.sp + 8 := Read(m.mem, m.sp + 8) + 4 * Read(m.mem, m.sp + 4)]
  {
    var part := [Li(T0, 4), Mult(T0, T1), Mflo(T1), Lw(T0, 4, Sp), Add(T0, T0, T1), Sw(T0, 4, Sp)];
    EmbeddedParts(r.code, m.pc, Pop(T1), part);
    m' := PopRuns(r, n, m, T1);
    var at := m'.pc;
    m' := Do(r, n + 2, m', at, part, 0);
    m' := Do(r, n + 3, m', at, part, 1);
    m' := Do(r, n + 4, m', at, part, 2);
    m' := Do(r, n + 5, m', at, part, 3);
    m' := Do(r, n + 6, m', at, part, 4);
    m' := Do(r, n + 7, m', at, part, 5);
  }

  ghost function Base(v: Variable, f: Frame): int {
    match v
    case Global(name, _) => f.names(name)
    case Local(offset, _) => f.fp - offset
  }

  lemma BaseRuns(r: Run, n: nat, m: Machine, v: Variable) returns (n': nat, m': Machine)
    requires At(r, n, m) && m.fp == r.f.fp && Embedded(r.code, m.pc, BaseCode(v))
    ensures At(r, n', m') && n' > n && m' == m.(pc := m.pc + |BaseCode(v)|, t0 := Base(v, r.f), t1 := m'.t1)
  {
    m' := Do(r, n, m, m.pc, BaseCode(v), 0);
    n' := n + 1;
    if v.Local? {
      m' := Do(r, n', m', m.pc, BaseCode(v), 1);
      m' := Do(r, n' + 1, m', m.pc, BaseCode(v), 2);
      n' := n + 3;
    }
  }

  // ----- whole expressions -----

  lemma NumRuns(r: Run, n: nat, m: Machine, x: int) returns (n': nat, m': Machine)
    requires At(r, n, m) && Ready(r, m, 1) && Embedded(r.code, m.pc, [Li(T0, x)] + Push(T0))
    ensures At(r, n', m') && n' > n && Pushed(Low(r.f), m, m', 3, x)
  {
    EmbeddedParts(r.code, m.pc, [Li(T0, x)], Push(T0));
    var m1 := Do(r, n, m, m.pc, [Li(T0, x)], 0);
    m' := PushRuns(r, n + 1, m1, T0);
    n' := n + 3;
  }

  /** The pushed word has been replaced by another one. */
  lemma PushedAnother(low: int, m: Machine, m1: Machine, len: nat, v: int, m': Machine, more: nat, v': int)
    requires Pushed(low, m, m1, len, v) && TopReplaced(m1, m', more, v') && low < m.sp
    ensures Pushed(low, m, m', len + more, v')
  {
  }

  /** The code of a defined expression runs through and pushes the value of the expression. */
  lemma {:induction false} ExprRuns(r: Run, n: nat, m: Machine, e: Expr) returns (n': nat, m': Machine)
    requires At(r, n, m) && Ready(r, m, ExprDepth(e)) && Embedded(r.code, m.pc, ExprCode(e))
    requires Eval(e, r.f, m.mem).Some?
    ensures At(r, n', m') && n' > n
    ensures Pushed(Low(r.f), m, m', |ExprCode(e)|, Eval(e, r.f, m.mem).value)
    decreases e, 1
  {
    hide Embedded;
    match e
    case Num(x) =>
      n', m' := NumRuns(r, n, m, x);
    case Arithmetic(op, left, right) =>
      n', m' := BinaryRuns(r, n, m, e, left, right, OpCode(op));
    case Comparison(rel, left, right) =>
      n', m' := BinaryRuns(r, n, m, e, left, right, [Compare(rel, T0, T0, T1)]);
    case Negate(e1) =>
      n', m' := NegatedRuns(r, n, m, e1);
    case Value(v) =>
      n', m' := LoadedRuns(r, n, m, v);
  }

  lemma {:induction false} NegatedRuns(r: Run, n: nat, m: Machine, e1: Expr) returns (n': nat, m': Machine)
    requires At(r, n, m) && Ready(r, m, ExprDepth(Negate(e1))) && Embedded(r.code, m.pc, ExprCode(Negate(e1)))
    requires Eval(Negate(e1), r.f, m.mem).Some?
    ensures At(r, n', m') && n' > n
    ensures Pushed(Low(r.f), m, m', |ExprCode(Negate(e1))|, Eval(Negate(e1), r.f, m.mem).value)
    decreases e1, 2
  {
    hide Embedded;
    var tail := [Lw(T0, 4, Sp), Li(T1, -1), Mult(T0, T1), Mflo(T0), Sw(T0, 4, Sp)];
    EmbeddedParts(r.code, m.pc, ExprCode(e1), tail);
    var n1, m1 := ExprRuns(r, n, m, e1);
    m' := NegateRuns(r, n1, m1);
    PushedAnother(Low(r.f), m, m1, |ExprCode(e1)|, Eval(e1, r.f, m.mem).value, m', 5, -Eval(e1, r.f, m.mem).value);
    n' := n1 + 5;
  }

  lemma {:induction false} LoadedRuns(r: Run, n: nat, m: Machine, v: Variable) returns (n': nat, m': Machine)
    requires At(r, n, m) && Ready(r, m, ExprDepth(Value(v))) && Embedded(r.code, m.pc, ExprCode(Value(v)))
    requires Eval(Value(v), r.f, m.mem).Some?
    ensures At(r, n', m') && n' > n
    ensures Pushed(Low(r.f), m, m', |ExprCode(Value(v))|, Eval(Value(v), r.f, m.mem).value)
    decreases v, 1
  {
    hide Embedded, VarCode;
    var tail := [Lw(T1, 4, Sp), Lw(T0, 0, T1), Sw(T0, 4, Sp)];
    EmbeddedParts(r.code, m.pc, VarCode(v), tail);
    var n1, m1 := VarRuns(r, n, m, v);
    m' := LoadRuns(r, n1, m1);
    ghost var a := Address(v, r.f, m.mem).value;
    PushedAnother(Low(r.f), m, m1, |VarCode(v)|, a, m', 3, Read(m.mem, a));
    n' := n1 + 3;
  }

  lemma {:induction false} BinaryRuns(r: Run, n: nat, m: Machine, e: Expr, left: Expr, right: Expr, op: seq<Instr>)
    returns (n': nat, m': Machine)
    requires At(r, n, m) && Ready(r, m, Max(ExprDepth(left), 1 + ExprDepth(right))) && Embedded(r.code, m.pc, ExprCode(left) + ExprCode(right) + Combine(op))
    requires Eval(e, r.f, m.mem).Some? && left < e && right < e
    requires Eval(left, r.f, m.mem).Some? && Eval(right, r.f, m.mem).Some?
    requires Computes(op, Eval(left, r.f, m.mem).value, Eval(right, r.f, m.mem).value, Eval(e, r.f, m.mem).value)
    ensures At(r, n', m') && n' > n
    ensures Pushed(Low(r.f), m, m', |ExprCode(left) + ExprCode(right) + Combine(op)|, Eval(e, r.f, m.mem).value)
    decreases e, 0
  {
    hide Embedded, ExprCode, ExprDepth, Eval, Combine, Computes;
    CombineLength(op);
    EmbeddedParts(r.code, m.pc, ExprCode(left) + ExprCode(right), Combine(op));
    EmbeddedParts(r.code, m.pc, ExprCode(left), ExprCode(right));
    var n1, m1 := ExprRuns(r, n, m, left);
    EvalSame(right, r.f, m.mem, m1.mem);
    var n2, m2 := ExprRuns(r, n1, m1, right);
    n', m' := CombineRuns(r, n2, m2, op, Eval(e, r.f, m.mem).value);
  }

  /** The code of the selections adds the distance they select to the word on top of the stack. */
  lemma {:induction false} SelectsRun(r: Run, n: nat, m: Machine, s: Selects) returns (n': nat, m': Machine)
    requires At(r, n, m) && Ready(r, m, SelectsDepth(s)) && m.sp + 4 <= r.f.sp && Embedded(r.code, m.pc, SelectsCode(s))
    requires Distance(s, r.f, m.mem).Some?
    ensures At(r, n', m') && n' >= n
    ensures m'.pc == m.pc + |SelectsCode(s)| && m'.sp == m.sp && m'.fp == m.fp
    ensures Read(m'.mem, m.sp + 4) == Read(m.mem, m.sp + 4) + Distance(s, r.f, m.mem).value
    ensures Same(Low(r.f), m.sp + 4, m.mem, m'.mem)
    decreases s, 0
  {
    hide Embedded, ExprCode, IndexTail, ExprDepth;
    IndexTailLength();
    match s
    case NoMore =>
      n', m' := n, m;
    case Field(offset, rest) =>
      var part := [Li(T1, offset), Lw(T0, 4, Sp), Add(T0, T0, T1), Sw(T0, 4, Sp)];
      EmbeddedParts(r.code, m.pc, part, SelectsCode(rest));
      var m1 := FieldRuns(r, n, m, offset);
      DistanceSame(rest, r.f, m.mem, m1.mem);
      n', m' := SelectsRun(r, n + 4, m1, rest);
    case Index(e, rest) =>
      EmbeddedParts(r.code, m.pc, ExprCode(e) + IndexTail(), SelectsCode(rest));
      EmbeddedParts(r.code, m.pc, ExprCode(e), IndexTail());
      var n1, m1 := ExprRuns(r, n, m, e);
      var m2 := IndexRuns(r, n1, m1);
      DistanceSame(rest, r.f, m.mem, m2.mem);
      n', m' := SelectsRun(r, n1 + 8, m2, rest);
  }

  /** The code of a variable runs through and pushes its address. */
  lemma {:induction false} VarRuns(r: Run, n: nat, m: Machine, v: Variable) returns (n': nat, m': Machine)
    requires At(r, n, m) && Ready(r, m, VarDepth(v)) && Embedded(r.code, m.pc, VarCode(v))
    requires Address(v, r.f, m.mem).Some?
    ensures At(r, n', m') && n' > n
    ensures Pushed(Low(r.f), m, m', |VarCode(v)|, Address(v, r.f, m.mem).value)
    decreases v, 0
  {
    hide Embedded;
    var op := if v.Global? then [Add(T0, T0, T1)] else [Sub(T0, T0, T1)];
    var n3, m3 := BaseAndZeroRun(r, n, m, v);
    EmbeddedParts(r.code, m.pc, BaseCode(v) + Push(T0) + Push(Zero) + SelectsCode(v.selects), Combine(op));
    DistanceSame(v.selects, r.f, m.mem, m3.mem);
    var n4, m4 := SelectsRun(r, n3, m3, v.selects);
    assert Same(Low(r.f), m.sp, m.mem, m4.mem) && Read(m4.mem, m.sp) == Base(v, r.f);
    n', m' := CombineRuns(r, n4, m4, op, Address(v, r.f, m.mem).value);
  }

  /** The first part of the code of a variable pushes its base and a zero. */
  lemma BaseAndZeroRun(r: Run, n: nat, m: Machine, v: Variable) returns (n3: nat, m3: Machine)
    requires At(r, n, m) && Ready(r, m, 2) && Embedded(r.code, m.pc, VarCode(v))
    ensures At(r, n3, m3) && n3 > n
    ensures m3.pc == m.pc + |BaseCode(v)| + 4 && m3.sp == m.sp - 8 && m3.fp == m.fp
    ensures m3.mem == m.mem[m.sp := Base(v, r.f)][m.sp - 4 := 0] && Same(Low(r.f), m.sp, m.mem, m3.mem)
    ensures Embedded(r.code, m3.pc, SelectsCode(v.selects))
  {
    hide Embedded;
    var op := if v.Global? then [Add(T0, T0, T1)] else [Sub(T0, T0, T1)];
    EmbeddedParts(r.code, m.pc, BaseCode(v) + Push(T0) + Push(Zero) + SelectsCode(v.selects), Combine(op));
    EmbeddedParts(r.code, m.pc, BaseCode(v) + Push(T0) + Push(Zero), SelectsCode(v.selects));
    EmbeddedParts(r.code, m.pc, BaseCode(v) + Push(T0), Push(Zero));
    EmbeddedParts(r.code, m.pc, BaseCode(v), Push(T0));
    var n1, m1 := BaseRuns(r, n, m, v);
    var m2 := PushRuns(r, n1, m1, T0);
    m3 := PushRuns(r, n1 + 2, m2, Zero);
    n3 := n1 + 4;
  }

  // ----- the stack is needed -----

  /** At some point of its run the code of an expression has its whole depth on the stack. */
  lemma {:induction false} DepthIsReached(r: Run, n: nat, m: Machine, e: Expr) returns (k: nat, mk: Machine)
    requires At(r, n, m) && Ready(r, m, ExprDepth(e)) && Embedded(r.code, m.pc, ExprCode(e))
    requires Eval(e, r.f, m.mem).Some?
    ensures At(r, k, mk) && k >= n && mk.sp == m.sp - 4 * ExprDepth(e)
    decreases e, 1
  {
    hide Embedded;
    match e
    case Num(x) =>
      k, mk := NumRuns(r, n, m, x);
    case Arithmetic(op, left, right) =>
      k, mk := BinaryReaches(r, n, m, e, left, right, OpCode(op));
    case Comparison(rel, left, right) =>
      k, mk := BinaryReaches(r, n, m, e, left, right, [Compare(rel, T0, T0, T1)]);
    case Negate(e1) =>
      EmbeddedParts(r.code, m.pc, ExprCode(e1), [Lw(T0, 4, Sp), Li(T1, -1), Mult(T0, T1), Mflo(T0), Sw(T0, 4, Sp)]);
      k, mk := DepthIsReached(r, n, m, e1);
    case Value(v) =>
      EmbeddedParts(r.code, m.pc, VarCode(v), [Lw(T1, 4, Sp), Lw(T0, 0, T1), Sw(T0, 4, Sp)]);
      k, mk := VarDepthIsReached(r, n, m, v);
  }

  lemma {:induction false} BinaryReaches(r: Run, n: nat, m: Machine, e: Expr, left: Expr, right: Expr, op: seq<Instr>)
    returns (k: nat, mk: Machine)
    requires At(r, n, m) && Ready(r, m, Max(ExprDepth(left), 1 + ExprDepth(right)))
    requires Embedded(r.code, m.pc, ExprCode(left) + ExprCode(right) + Combine(op)) && left < e && right < e
    requires Eval(left, r.f, m.mem).Some? && Eval(right, r.f, m.mem).Some?
    ensures At(r, k, mk) && k >= n && mk.sp == m.sp - 4 * Max(ExprDepth(left), 1 + ExprDepth(right))
    decreases e, 0
  {
    hide Embedded, ExprCode, ExprDepth, Eval, Combine;
    EmbeddedParts(r.code, m.pc, ExprCode(left) + ExprCode(right), Combine(op));
    EmbeddedParts(r.code, m.pc, ExprCode(left), ExprCode(right));
    if ExprDepth(left) >= 1 + ExprDepth(right) {
      k, mk := DepthIsReached(r, n, m, left);
    } else {
      var n1, m1 := ExprRuns(r, n, m, left);
      EvalSame(right, r.f, m.mem, m1.mem);
      k, mk := DepthIsReached(r, n1, m1, right);
    }
  }

  lemma {:induction false} SelectsDepthIsReached(r: Run, n: nat, m: Machine, s: Selects) returns (k: nat, mk: Machine)
    requires At(r, n, m) && Ready(r, m, SelectsDepth(s)) && m.sp + 4 <= r.f.sp && Embedded(r.code, m.pc, SelectsCode(s))
    requires Distance(s, r.f, m.mem).Some?
    ensures At(r, k, mk) && k >= n && mk.sp == m.sp - 4 * SelectsDepth(s)
    decreases s, 0
  {
    hide Embedded, ExprCode, IndexTail, ExprDepth;
    IndexTailLength();
    match s
    case NoMore =>
      k, mk := n, m;
    case Field(offset, rest) =>
      EmbeddedParts(r.code, m.pc, [Li(T1, offset), Lw(T0, 4, Sp), Add(T0, T0, T1), Sw(T0, 4, Sp)], SelectsCode(rest));
      var m1 := FieldRuns(r, n, m, offset);
      DistanceSame(rest, r.f, m.mem, m1.mem);
      k, mk := SelectsDepthIsReached(r, n + 4, m1, rest);
    case Index(e, rest) =>
      EmbeddedParts(r.code, m.pc, ExprCode(e) + IndexTail(), SelectsCode(rest));
      EmbeddedParts(r.code, m.pc, ExprCode(e), IndexTail());
      if ExprDepth(e) >= SelectsDepth(rest) {
        k, mk := DepthIsReached(r, n, m, e);
      } else {
        var n1, m1 := ExprRuns(r, n, m, e);
        var m2 := IndexRuns(r, n1, m1);
        DistanceSame(rest, r.f, m.mem, m2.mem);
        k, mk := SelectsDepthIsReached(r, n1 + 8, m2, rest);
      }
  }

  lemma {:induction false} VarDepthIsReached(r: Run, n: nat, m: Machine, v: Variable) returns (k: nat, mk: Machine)
    requires At(r, n, m) && Ready(r, m, VarDepth(v)) && Embedded(r.code, m.pc, VarCode(v))
    requires Address(v, r.f, m.mem).Some?
    ensures At(r, k, mk) && k >= n && mk.sp == m.sp - 4 * VarDepth(v)
    decreases v, 0
  {
    hide Embedded;
    var n3, m3 := BaseAndZeroRun(r, n, m, v);
    DistanceSame(v.selects, r.f, m.mem, m3.mem);
    k, mk := SelectsDepthIsReached(r, n3, m3, v.selects);
  }

  // ----- what the operators compute -----

  /** `v` is 1 if the comparison of `a` with `b` holds, and 0 otherwise. */
  ghost predicate IsTruthOf(rel: Relation, a: int, b: int, v: int) {
    match rel
    case Lt => (a < b ==> v == 1) && (a >= b ==> v == 0)
    case Gt => (a > b ==> v == 1) && (a <= b ==> v == 0)
    case Eq => (a == b ==> v == 1) && (a != b ==> v == 0)
    case Ne => (a != b ==> v == 1) && (a == b ==> v == 0)
    case Le => (a <= b ==> v == 1) && (a > b ==> v == 0)
    case Ge => (a >= b ==> v == 1) && (a < b ==> v == 0)
  }

  /** `v` is the sum, difference or product of `a` and `b`, or their quotient truncated toward zero: the one
      that leaves a remainder smaller than the divisor with the sign of the dividend. */
  ghost predicate IsResultOf(op: Arith, a: int, b: int, v: int) {
    match op
    case Plus => v == a + b
    case Minus => v == a - b
    case Times => v == a * b
    case Over =>
      var rest := a - v * b;
      && b != 0 && (a >= 0 ==> rest >= 0) && (a <= 0 ==> rest <= 0)
      && (b > 0 ==> -b < rest < b) && (b < 0 ==> b < rest < -b)
  }

  /** The code of a comparison of two values pushes 1 exactly when it holds, and 0 otherwise. */
  lemma ComparisonRuns(r: Run, n: nat, m: Machine, rel: Relation, left: Expr, right: Expr, a: int, b: int)
    returns (n': nat, m': Machine, v: int)
    requires var e := Comparison(rel, left, right); At(r, n, m) && Ready(r, m, ExprDepth(e)) && Embedded(r.code, m.pc, ExprCode(e))
    requires Eval(left, r.f, m.mem) == Some(a) && Eval(right, r.f, m.mem) == Some(b)
    ensures At(r, n', m') && Pushed(Low(r.f), m, m', |ExprCode(Comparison(rel, left, right))|, v)
    ensures IsTruthOf(rel, a, b, v)
  {
    var e := Comparison(rel, left, right);
    v := Eval(e, r.f, m.mem).value;
    n', m' := ExprRuns(r, n, m, e);
  }

  /** An operation on two values is undefined exactly for a division by zero, and else its code pushes the
      result. */
  lemma ArithmeticRuns(r: Run, n: nat, m: Machine, op: Arith, left: Expr, right: Expr, a: int, b: int)
    returns (n': nat, m': Machine, v: int)
    requires var e := Arithmetic(op, left, right); At(r, n, m) && Ready(r, m, ExprDepth(e)) && Embedded(r.code, m.pc, ExprCode(e))
    requires Eval(left, r.f, m.mem) == Some(a) && Eval(right, r.f, m.mem) == Some(b)
    ensures Eval(Arithmetic(op, left, right), r.f, m.mem) == None <==> op == Over && b == 0
    ensures !(op == Over && b == 0) ==>
              && At(r, n', m') && Pushed(Low(r.f), m, m', |ExprCode(Arithmetic(op, left, right))|, v)
              && IsResultOf(op, a, b, v)
  {
    var e := Arithmetic(op, left, right);
    n', m', v := n, m, 0;
    if !(op == Over && b == 0) {
      v := Eval(e, r.f, m.mem).value;
      n', m' := ExprRuns(r, n, m, e);
      if op == Over {
        QuotientTruncates(a, b);
        assert v == Quotient(a, b);
      }
    }
  }

  /** The code of a negated value pushes its negative. */
  lemma NegationRuns(r: Run, n: nat, m: Machine, e: Expr, a: int) returns (n': nat, m': Machine)
    requires At(r, n, m) && Ready(r, m, ExprDepth(Negate(e))) && Embedded(r.code, m.pc, ExprCode(Negate(e)))
    requires Eval(e, r.f, m.mem) == Some(a)
    ensures At(r, n', m') && Pushed(Low(r.f), m, m', |ExprCode(Negate(e))|, 0 - a)
  {
    n', m' := ExprRuns(r, n, m, Negate(e));
  }
}
