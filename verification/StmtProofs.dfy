/** The code of statements: it terminates exactly when the statement does, and then memory is what
    the statement says. */
module StmtProofs {
  import opened Codegen
  import opened ExprProofs
  import opened Mips
  import opened Options
  import opened SyntaxTree

  // ----- labels -----

  ghost function Labels(code: seq<Instr>): set<nat> {
    set i | 0 <= i < |code| && code[i].Label? :: code[i].id
  }

  lemma JoinLabels(a: seq<Instr>, b: seq<Instr>)
    requires DistinctLabels(a) && DistinctLabels(b) && Labels(a) !! Labels(b)
    ensures DistinctLabels(a + b) && Labels(a + b) == Labels(a) + Labels(b)
  {
    var c := a + b;
    forall i, j | 0 <= i < j < |c| && c[i].Label? && c[j].Label?
      ensures c[i].id != c[j].id
    {
      if i < |a| <= j {
        assert a[i].id in Labels(a) && b[j - |a|].id in Labels(b);
      }
    }
    forall x | x in Labels(a) + Labels(b)
      ensures x in Labels(c)
    {
      if x in Labels(a) {
        var i :| 0 <= i < |a| && a[i].Label? && a[i].id == x;
        assert c[i].id == x;
      } else {
        var i :| 0 <= i < |b| && b[i].Label? && b[i].id == x;
        assert c[|a| + i].id == x;
      }
    }
  }

  ghost predicate NoLabels(code: seq<Instr>) {
    forall i :: 0 <= i < |code| ==> !code[i].Label?
  }

  lemma CombineNoLabels(l: seq<Instr>, r: seq<Instr>, op: seq<Instr>)
    requires NoLabels(l) && NoLabels(r) && NoLabels(op)
    ensures NoLabels(l + r + Combine(op))
  {
    assert NoLabels(l + r) && NoLabels(Combine(op));
  }

  lemma {:induction false} ExprNoLabels(e: Expr)
    ensures NoLabels(ExprCode(e))
    decreases e, 0
  {
    match e
    case Num(_) =>
    case Arithmetic(op, l, r) =>
      ExprNoLabels(l);
      ExprNoLabels(r);
      CombineNoLabels(ExprCode(l), ExprCode(r), OpCode(op));
    case Comparison(rel, l, r) =>
      ExprNoLabels(l);
      ExprNoLabels(r);
      CombineNoLabels(ExprCode(l), ExprCode(r), [Compare(rel, T0, T0, T1)]);
    case Negate(e1) => ExprNoLabels(e1);
    case Value(v) => VarNoLabels(v);
  }

  lemma {:induction false} VarNoLabels(v: Variable)
    ensures NoLabels(VarCode(v))
    decreases v, 0
  {
    SelectsNoLabels(v.selects);
  }

  lemma {:induction false} SelectsNoLabels(s: Selects)
    ensures NoLabels(SelectsCode(s))
    decreases s, 0
  {
    match s
    case NoMore =>
    case Field(_, rest) => SelectsNoLabels(rest);
    case Index(e, rest) => ExprNoLabels(e); SelectsNoLabels(rest);
  }

  ghost predicate Numbered(code: seq<Instr>, lo: nat, hi: nat) {
    lo <= hi && DistinctLabels(code) && forall x :: x in Labels(code) ==> lo <= x < hi
  }

  /** All labels of a statement are distinct and come from the numbers it used up. */
  lemma {:induction false} StmtLabels(s: Stmt, id: nat)
    ensures Numbered(StmtCode(s, id).0, id, StmtCode(s, id).1)
    decreases s, 0
  {
    match s
    case Nothing =>
    case Then(before, op) =>
      var (c1, id1) := StmtCode(before, id);
      StmtLabels(before, id);
      OperationLabels(op, id1);
      JoinLabels(c1, OperationCode(op, id1).0);
  }

  lemma {:induction false} OperationLabels(op: Operation, id: nat)
    ensures Numbered(OperationCode(op, id).0, id, OperationCode(op, id).1)
    decreases op, 0
  {
    match op
    case Assign(v, e) =>
      VarNoLabels(v);
      ExprNoLabels(e);
      assert NoLabels(AssignCode(v, e));
    case IfElse(chain) =>
      ChainLabels(chain, id, id + 1);
      SingleLabel([], id);
      JoinLabels(ChainCode(chain, id, id + 1).0, [Label(id)]);
    case Loop(cond, body) =>
      StmtLabels(body, id + 3);
      SingleLabel([], id);
      BranchLabels([Label(id)], cond, id + 1, id + 2, StmtCode(body, id + 3).0, id);
  }

  /** The labels of code that decides on a condition and then branches away. */
  lemma BranchLabels(front: seq<Instr>, cond: Expr, whenTrue: nat, whenFalse: nat, body: seq<Instr>, target: nat)
    requires DistinctLabels(front) && DistinctLabels(body) && Labels(front) !! Labels(body) && whenTrue != whenFalse
    requires {whenTrue, whenFalse} !! Labels(front) + Labels(body)
    ensures var code := front + ExprCode(cond) + Decide(whenTrue, whenFalse) + body + [B(target), Label(whenFalse)];
            DistinctLabels(code) && Labels(code) == Labels(front) + {whenTrue} + Labels(body) + {whenFalse}
  {
    ExprNoLabels(cond);
    NoLabelsIn(ExprCode(cond));
    DecideLabels(whenTrue, whenFalse);
    SingleLabel([B(target)], whenFalse);
    assert [B(target)] + [Label(whenFalse)] == [B(target), Label(whenFalse)];
    JoinLabels(front, ExprCode(cond));
    var c := front + ExprCode(cond);
    JoinLabels(c, Decide(whenTrue, whenFalse));
    var d := c + Decide(whenTrue, whenFalse);
    JoinLabels(d, body);
    JoinLabels(d + body, [B(target), Label(whenFalse)]);
  }

  lemma NoLabelsIn(code: seq<Instr>)
    requires NoLabels(code)
    ensures DistinctLabels(code) && Labels(code) == {}
  {
  }

  lemma SingleLabel(code: seq<Instr>, id: nat)
    requires NoLabels(code)
    ensures DistinctLabels(code + [Label(id)]) && Labels(code + [Label(id)]) == {id}
  {
    assert (code + [Label(id)])[|code|] == Label(id);
  }

  lemma DecideLabels(whenTrue: nat, whenFalse: nat)
    ensures DistinctLabels(Decide(whenTrue, whenFalse)) && Labels(Decide(whenTrue, whenFalse)) == {whenTrue}
  {
    SingleLabel(Pop(T0) + [Bnez(T0, whenTrue), B(whenFalse)], whenTrue);
    assert Decide(whenTrue, whenFalse) == Pop(T0) + [Bnez(T0, whenTrue), B(whenFalse)] + [Label(whenTrue)];
  }

  lemma {:induction false} ChainLabels(chain: Chain, next: nat, id: nat)
    ensures Numbered(ChainCode(chain, next, id).0, id, ChainCode(chain, next, id).1)
    decreases chain, 0
  {
    match chain
    case NoBranch =>
    case If(before, cond, body) =>
      var (c1, id1) := ChainCode(before, next, id + 2);
      var (c2, id2) := StmtCode(body, id1);
      ChainLabels(before, next, id + 2);
      StmtLabels(body, id1);
      BranchLabels(c1, cond, id, id + 1, c2, next);
    case Else(before, body) =>
      var (c1, id1) := ChainCode(before, next, id + 2);
      ChainLabels(before, next, id + 2);
      StmtLabels(body, id1);
      JoinLabels(c1, StmtCode(body, id1).0);
      JoinLabels(c1 + StmtCode(body, id1).0, [B(next)]);
  }

  // ----- statements -----

  /** Between statements the stack pointer is where the program found it, and memory agrees with that
      of the statements outside the stack. */
  ghost predicate Level(r: Run, m: Machine, mem: Memory) {
    Ready(r, m, r.f.scratch) && m.sp == r.f.sp && Same(Low(r.f), r.f.sp, mem, m.mem)
  }

  /** `m'` is where the code from `m` on has to be after the outcome `o`: at `pc` with the memory of
      the statement when it is done, and some number of steps further while it is still running. */
  ghost predicate Reached(r: Run, n: nat, n': nat, m': Machine, o: Outcome, pc: nat, fuel: nat) {
    && At(r, n', m') && n' >= n
    && (o.Done? ==> m'.pc == pc && Level(r, m', o.mem))
    && (o.Running? ==> n' >= n + fuel)
  }

  lemma AssignRuns(r: Run, n: nat, m: Machine, v: Variable, e: Expr, mem: Memory, fuel: nat)
    returns (n': nat, m': Machine)
    requires At(r, n, m) && Level(r, m, mem) && Embedded(r.code, m.pc, AssignCode(v, e))
    requires ExecOperation(Assign(v, e), r.f, mem, fuel).Done?
    requires OperationDepth(Assign(v, e)) <= r.f.scratch
    ensures Reached(r, n, n', m', ExecOperation(Assign(v, e), r.f, mem, fuel), m.pc + |AssignCode(v, e)|, fuel)
  {
    hide At, Embedded, VarCode, ExprCode, ExprDepth, Eval, Address;
    var tail := Pop(T1) + Pop(T0) + [Sw(T1, 0, T0)];
    assert AssignCode(v, e) == VarCode(v) + ExprCode(e) + tail;
    EmbeddedParts(r.code, m.pc, VarCode(v) + ExprCode(e), tail);
    EmbeddedParts(r.code, m.pc, VarCode(v), ExprCode(e));
    AddressSame(v, r.f, mem, m.mem);
    EvalSame(e, r.f, mem, m.mem);
    var n1, m1 := VarRuns(r, n, m, v);
    EvalSame(e, r.f, m.mem, m1.mem);
    var n2, m2 := ExprRuns(r, n1, m1, e);
    assert Read(m2.mem, m.sp) == Read(m1.mem, m.sp);
    m' := StoreRuns(r, n2, m2);
    n' := n2 + 5;
    SameAfterWrite(Low(r.f), r.f.sp, mem, m2.mem, Address(v, r.f, mem).value, Eval(e, r.f, mem).value);
  }

  /** The two words on top of the stack are popped, and the upper one is stored at the lower one. */
  lemma StoreRuns(r: Run, n: nat, m: Machine) returns (m': Machine)
    requires At(r, n, m) && m.sp % 4 == 0 && Read(m.mem, m.sp + 8) % 4 == 0
    requires Embedded(r.code, m.pc, Pop(T1) + Pop(T0) + [Sw(T1, 0, T0)])
    ensures At(r, n + 5, m')
    ensures m'.pc == m.pc + 5 && m'.sp == m.sp + 8 && m'.fp == m.fp
    ensures m'.mem == m.mem[Read(m.mem, m.sp + 8) := Read(m.mem, m.sp + 4)]
  {
    EmbeddedParts(r.code, m.pc, Pop(T1) + Pop(T0), [Sw(T1, 0, T0)]);
    EmbeddedParts(r.code, m.pc, Pop(T1), Pop(T0));
    m' := PopRuns(r, n, m, T1);
    m' := PopRuns(r, n + 2, m', T0);
    m' := Do(r, n + 4, m', m'.pc, [Sw(T1, 0, T0)], 0);
  }

  lemma SameAfterWrite(low: int, high: int, a: Memory, b: Memory, x: int, v: int)
    requires Same(low, high, a, b)
    ensures Same(low, high, a[x := v], b[x := v])
  {
    var a', b' := a[x := v], b[x := v];
    forall y | y <= low || y > high
      ensures Read(a', y) == Read(b', y)
    {
      assert Read(a, y) == Read(b, y);
    }
  }

  /** A condition is computed, popped and decided on: not zero leads behind the code of the decision,
      zero to the label for it. */
  lemma ConditionRuns(r: Run, n: nat, m: Machine, at: nat, cond: Expr, mem: Memory, whenTrue: nat, whenFalse: nat, falsePos: nat)
    returns (n': nat, m': Machine)
    requires At(r, n, m) && m.pc == at && Level(r, m, mem) && Resolved(r.code)
    requires Embedded(r.code, at, ExprCode(cond) + Decide(whenTrue, whenFalse))
    requires Eval(cond, r.f, mem).Some? && ExprDepth(cond) <= r.f.scratch
    requires falsePos < |r.code| && r.code[falsePos] == Label(whenFalse)
    ensures At(r, n', m') && n' > n && Level(r, m', mem)
    ensures m'.pc == if Eval(cond, r.f, mem).value != 0 then at + |ExprCode(cond) + Decide(whenTrue, whenFalse)| else falsePos
  {
    hide Embedded, ExprCode, Resolved;
    EmbeddedParts(r.code, m.pc, ExprCode(cond), Decide(whenTrue, whenFalse));
    EmbeddedParts(r.code, m.pc + |ExprCode(cond)|, Pop(T0), [Bnez(T0, whenTrue), B(whenFalse), Label(whenTrue)]);
    EvalSame(cond, r.f, mem, m.mem);
    var n1, m1 := ExprRuns(r, n, m, cond);
    var m2 := PopRuns(r, n1, m1, T0);
    m' := JumpRuns(r, n1 + 2, m2, whenTrue, whenFalse, falsePos);
    n' := n1 + 4;
  }

  lemma JumpRuns(r: Run, n: nat, m: Machine, whenTrue: nat, whenFalse: nat, falsePos: nat) returns (m': Machine)
    requires At(r, n, m) && Resolved(r.code)
    requires Embedded(r.code, m.pc, [Bnez(T0, whenTrue), B(whenFalse), Label(whenTrue)])
    requires falsePos < |r.code| && r.code[falsePos] == Label(whenFalse)
    ensures At(r, n + 2, m') && m' == m.(pc := if m.t0 != 0 then m.pc + 3 else falsePos)
  {
    var jump := [Bnez(T0, whenTrue), B(whenFalse), Label(whenTrue)];
    assert r.code[m.pc + 2] == jump[2];
    var m1 := Do(r, n, m, m.pc, jump, 0);
    if m.t0 != 0 {
      m' := Do(r, n + 1, m1, m.pc, jump, 2);
    } else {
      m' := Do(r, n + 1, m1, m.pc, jump, 1);
    }
  }

  /** The end of a branch: an unconditional jump to `target`, with the label of the other way out
      behind it. */
  lemma LeaveRuns(r: Run, n: nat, m: Machine, at: nat, target: nat, pos: nat, mem: Memory) returns (m': Machine)
    requires At(r, n, m) && m.pc == at && Level(r, m, mem) && Resolved(r.code)
    requires at < |r.code| && r.code[at] == B(target) && pos < |r.code| && r.code[pos] == Label(target)
    ensures At(r, n + 1, m') && m'.pc == pos && Level(r, m', mem)
  {
    m' := Advance(r.code, r.f.names, r.from, n, m);
  }

  lemma LabelRuns(r: Run, n: nat, m: Machine, at: nat, mem: Memory) returns (m': Machine)
    requires At(r, n, m) && m.pc == at && Level(r, m, mem)
    requires at < |r.code| && r.code[at].Label?
    ensures At(r, n + 1, m') && m'.pc == at + 1 && Level(r, m', mem)
  {
    m' := Advance(r.code, r.f.names, r.from, n, m);
  }

  lemma {:induction false} StmtRuns(r: Run, n: nat, m: Machine, at: nat, s: Stmt, id: nat, mem: Memory, fuel: nat)
    returns (n': nat, m': Machine)
    requires At(r, n, m) && m.pc == at && Level(r, m, mem) && Resolved(r.code)
    requires Embedded(r.code, at, StmtCode(s, id).0) && Exec(s, r.f, mem, fuel) != Fault
    requires StmtDepth(s) <= r.f.scratch
    ensures Reached(r, n, n', m', Exec(s, r.f, mem, fuel), at + |StmtCode(s, id).0|, fuel)
    decreases fuel, s, 0
  {
    match s
    case Nothing =>
      n', m' := n, m;
    case Then(before, op) =>
      var (c1, id1) := StmtCode(before, id);
      EmbeddedParts(r.code, at, c1, OperationCode(op, id1).0);
      n', m' := StmtRuns(r, n, m, at, before, id, mem, fuel);
      var o := Exec(before, r.f, mem, fuel);
      if o.Done? {
        n', m' := OperationRuns(r, n', m', at + |c1|, op, id1, o.mem, fuel);
      }
  }

  lemma {:induction false} OperationRuns(r: Run, n: nat, m: Machine, at: nat, op: Operation, id: nat, mem: Memory, fuel: nat)
    returns (n': nat, m': Machine)
    requires At(r, n, m) && m.pc == at && Level(r, m, mem) && Resolved(r.code)
    requires Embedded(r.code, at, OperationCode(op, id).0) && ExecOperation(op, r.f, mem, fuel) != Fault
    requires OperationDepth(op) <= r.f.scratch
    ensures Reached(r, n, n', m', ExecOperation(op, r.f, mem, fuel), at + |OperationCode(op, id).0|, fuel)
    decreases fuel, op, 0
  {
    hide Resolved, Embedded, At, Level, Reached, AssignCode, ExprCode, BranchAt, Decide;
    match op
    case Assign(v, e) =>
      n', m' := AssignRuns(r, n, m, v, e, mem, fuel);
    case IfElse(chain) =>
      n', m' := IfElseRuns(r, n, m, at, chain, id, mem, fuel);
    case Loop(cond, body) =>
      LoopEmbedded(r.code, at, cond, id, StmtCode(body, id + 3).0);
      n', m' := LoopRuns(r, n, m, at, cond, body, id, mem, fuel);
  }

  /** A chain with the label of the common end behind it. */
  lemma {:induction false} IfElseRuns(r: Run, n: nat, m: Machine, at: nat, chain: Chain, id: nat, mem: Memory, fuel: nat)
    returns (n': nat, m': Machine)
    requires At(r, n, m) && m.pc == at && Level(r, m, mem) && Resolved(r.code)
    requires Embedded(r.code, at, ChainCode(chain, id, id + 1).0 + [Label(id)]) && ExecChain(chain, r.f, mem, fuel).1 != Fault
    requires ChainDepth(chain) <= r.f.scratch
    ensures Reached(r, n, n', m', ExecChain(chain, r.f, mem, fuel).1, at + |ChainCode(chain, id, id + 1).0| + 1, fuel)
    decreases fuel, chain, 2
  {
    hide Resolved, Embedded, At, Level;
    var (c, id1) := ChainCode(chain, id, id + 1);
    assert c == c + [];
    TailEmbedded(r.code, at, c, [], Label(id));
    n', m' := ChainRuns(r, n, m, at, chain, id, id + 1, mem, fuel, at + |c|);
    var o := ExecChain(chain, r.f, mem, fuel).1;
    if o.Done? {
      m' := LabelRuns(r, n', m', at + |c|, o.mem);
      n' := n' + 1;
    }
  }

  /** At `at` there is code that decides on a condition, does something and then branches away. */
  ghost predicate BranchAt(code: seq<Instr>, at: nat, cond: Expr, whenTrue: nat, whenFalse: nat, body: seq<Instr>, target: nat) {
    var test := ExprCode(cond) + Decide(whenTrue, whenFalse);
    var end := at + |test| + |body|;
    && Embedded(code, at, test) && Embedded(code, at + |test|, body)
    && end + 1 < |code| && code[end] == B(target) && code[end + 1] == Label(whenFalse)
  }

  lemma BranchEmbedded(code: seq<Instr>, at: nat, front: seq<Instr>, cond: Expr, whenTrue: nat, whenFalse: nat, body: seq<Instr>, target: nat)
    requires Embedded(code, at, front + ExprCode(cond) + Decide(whenTrue, whenFalse) + body + [B(target), Label(whenFalse)])
    ensures Embedded(code, at, front) && BranchAt(code, at + |front|, cond, whenTrue, whenFalse, body, target)
  {
    hide ExprCode, Decide;
    var test, last := ExprCode(cond) + Decide(whenTrue, whenFalse), [B(target), Label(whenFalse)];
    assert front + ExprCode(cond) + Decide(whenTrue, whenFalse) == front + test;
    EmbeddedParts(code, at, front + test + body, last);
    EmbeddedParts(code, at, front + test, body);
    EmbeddedParts(code, at, front, test);
    var end := at + |front| + |test| + |body|;
    assert code[end + 0] == last[0] && code[end + 1] == last[1];
  }

  lemma LoopEmbedded(code: seq<Instr>, at: nat, cond: Expr, id: nat, body: seq<Instr>)
    requires Embedded(code, at, [Label(id)] + ExprCode(cond) + Decide(id + 1, id + 2) + body + [B(id), Label(id + 2)])
    ensures at < |code| && code[at] == Label(id) && BranchAt(code, at + 1, cond, id + 1, id + 2, body, id)
  {
    hide ExprCode, Decide, BranchAt;
    BranchEmbedded(code, at, [Label(id)], cond, id + 1, id + 2, body, id);
    assert code[at + 0] == [Label(id)][0];
  }

  lemma TailEmbedded(code: seq<Instr>, at: nat, a: seq<Instr>, b: seq<Instr>, i: Instr)
    requires Embedded(code, at, a + b + [i])
    ensures Embedded(code, at, a) && Embedded(code, at + |a|, b)
    ensures at + |a| + |b| < |code| && code[at + |a| + |b|] == i
  {
    EmbeddedParts(code, at, a + b, [i]);
    EmbeddedParts(code, at, a, b);
    assert code[at + |a + b| + 0] == [i][0];
  }

  lemma {:induction false} LoopRuns(r: Run, n: nat, m: Machine, at: nat, cond: Expr, body: Stmt, id: nat, mem: Memory, fuel: nat)
    returns (n': nat, m': Machine)
    requires At(r, n, m) && m.pc == at && Level(r, m, mem) && Resolved(r.code)
    requires ExecOperation(Loop(cond, body), r.f, mem, fuel) != Fault
    requires ExprDepth(cond) <= r.f.scratch && StmtDepth(body) <= r.f.scratch
    requires at < |r.code| && r.code[at] == Label(id)
    requires BranchAt(r.code, at + 1, cond, id + 1, id + 2, StmtCode(body, id + 3).0, id)
    ensures Reached(r, n, n', m', ExecOperation(Loop(cond, body), r.f, mem, fuel),
                    at + 1 + |ExprCode(cond) + Decide(id + 1, id + 2)| + |StmtCode(body, id + 3).0| + 2, fuel)
    decreases fuel, body, 3
  {
    hide At, Level, Resolved, BranchAt;
    var m1 := LabelRuns(r, n, m, at, mem);
    if Eval(cond, r.f, mem).value == 0 {
      n', m' := BranchRuns(r, n + 1, m1, at + 1, cond, body, id + 1, id + 3, mem, fuel, id, at);
    } else if fuel == 0 {
      n', m' := n, m;
    } else {
      n', m' := BranchRuns(r, n + 1, m1, at + 1, cond, body, id + 1, id + 3, mem, fuel - 1, id, at);
      var o := Exec(body, r.f, mem, fuel - 1);
      if o.Done? {
        n', m' := LoopRuns(r, n', m', at, cond, body, id, o.mem, fuel - 1);
      }
    }
  }

  /** After a chain: at the label behind the whole statement if a branch was taken, else behind the
      chain. */
  ghost predicate ChainReached(r: Run, n: nat, n': nat, m': Machine, end: (bool, Outcome), nextPos: nat, behind: nat, fuel: nat) {
    Reached(r, n, n', m', end.1, if end.0 then nextPos else behind, fuel)
  }

  lemma {:induction false} ChainRuns(r: Run, n: nat, m: Machine, at: nat, chain: Chain, next: nat, id: nat, mem: Memory, fuel: nat, nextPos: nat)
    returns (n': nat, m': Machine)
    requires At(r, n, m) && m.pc == at && Level(r, m, mem) && Resolved(r.code)
    requires Embedded(r.code, at, ChainCode(chain, next, id).0) && ExecChain(chain, r.f, mem, fuel).1 != Fault
    requires ChainDepth(chain) <= r.f.scratch
    requires nextPos < |r.code| && r.code[nextPos] == Label(next)
    ensures ChainReached(r, n, n', m', ExecChain(chain, r.f, mem, fuel), nextPos, at + |ChainCode(chain, next, id).0|, fuel)
    decreases fuel, chain, 1
  {
    match chain
    case NoBranch =>
      n', m' := n, m;
    case If(_, _, _) =>
      n', m' := IfRuns(r, n, m, at, chain, next, id, mem, fuel, nextPos);
    case Else(_, _) =>
      n', m' := ElseRuns(r, n, m, at, chain, next, id, mem, fuel, nextPos);
  }

  lemma {:induction false} IfRuns(r: Run, n: nat, m: Machine, at: nat, chain: Chain, next: nat, id: nat, mem: Memory, fuel: nat, nextPos: nat)
    returns (n': nat, m': Machine)
    requires At(r, n, m) && m.pc == at && Level(r, m, mem) && Resolved(r.code)
    requires Embedded(r.code, at, ChainCode(chain, next, id).0) && ExecChain(chain, r.f, mem, fuel).1 != Fault
    requires ChainDepth(chain) <= r.f.scratch
    requires nextPos < |r.code| && r.code[nextPos] == Label(next) && chain.If?
    ensures ChainReached(r, n, n', m', ExecChain(chain, r.f, mem, fuel), nextPos, at + |ChainCode(chain, next, id).0|, fuel)
    decreases fuel, chain, 0
  {
    hide At, Level, Resolved, Embedded, BranchAt, ExprCode, Decide, StmtCode, Eval, ExprDepth, StmtDepth;
    var If(before, cond, body) := chain;
    var (c1, id1) := ChainCode(before, next, id + 2);
    BranchEmbedded(r.code, at, c1, cond, id, id + 1, StmtCode(body, id1).0, next);
    n', m' := ChainRuns(r, n, m, at, before, next, id + 2, mem, fuel, nextPos);
    var (taken, o) := ExecChain(before, r.f, mem, fuel);
    if !taken && o.Done? {
      n', m' := BranchRuns(r, n', m', at + |c1|, cond, body, id, id1, o.mem, fuel, next, nextPos);
    }
  }

  lemma {:induction false} ElseRuns(r: Run, n: nat, m: Machine, at: nat, chain: Chain, next: nat, id: nat, mem: Memory, fuel: nat, nextPos: nat)
    returns (n': nat, m': Machine)
    requires At(r, n, m) && m.pc == at && Level(r, m, mem) && Resolved(r.code)
    requires Embedded(r.code, at, ChainCode(chain, next, id).0) && ExecChain(chain, r.f, mem, fuel).1 != Fault
    requires ChainDepth(chain) <= r.f.scratch
    requires nextPos < |r.code| && r.code[nextPos] == Label(next) && chain.Else?
    ensures ChainReached(r, n, n', m', ExecChain(chain, r.f, mem, fuel), nextPos, at + |ChainCode(chain, next, id).0|, fuel)
    decreases fuel, chain, 0
  {
    hide At, Level, Resolved, Embedded, StmtCode, StmtDepth;
    var Else(before, body) := chain;
    var (c1, id1) := ChainCode(before, next, id + 2);
    TailEmbedded(r.code, at, c1, StmtCode(body, id1).0, B(next));
    n', m' := ChainRuns(r, n, m, at, before, next, id + 2, mem, fuel, nextPos);
    var (taken, o) := ExecChain(before, r.f, mem, fuel);
    if !taken && o.Done? {
      n', m' := BodyRuns(r, n', m', at + |c1|, body, id1, o.mem, fuel, next, nextPos);
    }
  }

  /** One branch of a chain: skipped if its condition is zero, executed and left otherwise. */
  lemma {:induction false} BranchRuns(r: Run, n: nat, m: Machine, at: nat, cond: Expr, body: Stmt, id: nat, id1: nat, mem: Memory,
                                      fuel: nat, next: nat, nextPos: nat)
    returns (n': nat, m': Machine)
    requires At(r, n, m) && m.pc == at && Level(r, m, mem) && Resolved(r.code)
    requires nextPos < |r.code| && r.code[nextPos] == Label(next)
    requires BranchAt(r.code, at, cond, id, id + 1, StmtCode(body, id1).0, next)
    requires Eval(cond, r.f, mem).Some? && ExprDepth(cond) <= r.f.scratch && StmtDepth(body) <= r.f.scratch
    requires Eval(cond, r.f, mem).value != 0 ==> Exec(body, r.f, mem, fuel) != Fault
    ensures if Eval(cond, r.f, mem).value != 0 then Reached(r, n, n', m', Exec(body, r.f, mem, fuel), nextPos, fuel)
            else Reached(r, n, n', m', Done(mem), at + |ExprCode(cond) + Decide(id, id + 1)| + |StmtCode(body, id1).0| + 2, fuel)
    decreases fuel, body, 2
  {
    hide At, Level, Resolved, ExprCode, Decide, StmtCode;
    var test, c := ExprCode(cond) + Decide(id, id + 1), StmtCode(body, id1).0;
    var end := at + |test| + |c|;
    n', m' := ConditionRuns(r, n, m, at, cond, mem, id, id + 1, end + 1);
    if Eval(cond, r.f, mem).value == 0 {
      m' := LabelRuns(r, n', m', end + 1, mem);
      n' := n' + 1;
    } else {
      n', m' := BodyRuns(r, n', m', at + |test|, body, id1, mem, fuel, next, nextPos);
    }
  }

  /** A statement with an unconditional branch behind it. */
  lemma {:induction false} BodyRuns(r: Run, n: nat, m: Machine, at: nat, body: Stmt, id: nat, mem: Memory,
                                    fuel: nat, target: nat, targetPos: nat)
    returns (n': nat, m': Machine)
    requires At(r, n, m) && m.pc == at && Level(r, m, mem) && Resolved(r.code)
    requires targetPos < |r.code| && r.code[targetPos] == Label(target)
    requires Embedded(r.code, at, StmtCode(body, id).0) && Exec(body, r.f, mem, fuel) != Fault
    requires StmtDepth(body) <= r.f.scratch
    requires var end := at + |StmtCode(body, id).0|; end < |r.code| && r.code[end] == B(target)
    ensures Reached(r, n, n', m', Exec(body, r.f, mem, fuel), targetPos, fuel)
    decreases fuel, body, 1
  {
    hide At, Level, Resolved, Embedded, StmtCode;
    n', m' := StmtRuns(r, n, m, at, body, id, mem, fuel);
    var o := Exec(body, r.f, mem, fuel);
    if o.Done? {
      m' := LeaveRuns(r, n', m', at + |StmtCode(body, id).0|, target, targetPos, o.mem);
      n' := n' + 1;
    }
  }

  // ----- the theorem -----

  /** The machine at the start of the code of `s`, in the frame `f` with stack enough for it. */
  ghost predicate Starts(s: Stmt, f: Frame, m: Machine) {
    m.pc == 0 && m.sp == f.sp && m.fp == f.fp && f.sp % 4 == 0 && StmtDepth(s) <= f.scratch
  }

  ghost predicate Terminates(s: Stmt, f: Frame, mem: Memory, end: Memory) {
    exists fuel: nat :: Exec(s, f, mem, fuel) == Done(end)
  }

  /** The statement never computes anything undefined. */
  ghost predicate Defined(s: Stmt, f: Frame, mem: Memory) {
    forall fuel: nat :: Exec(s, f, mem, fuel) != Fault
  }

  lemma CodeRuns(s: Stmt, f: Frame, m: Machine, fuel: nat) returns (n: nat, m': Machine)
    requires Starts(s, f, m) && Exec(s, f, m.mem, fuel) != Fault
    ensures var code := StmtCode(s, 0).0;
            && Runs(code, f.names, m, n, m')
            && match Exec(s, f, m.mem, fuel) {
                 case Done(end) => Ends(code, f.names, m, n, m') && m'.sp == m.sp && m'.fp == m.fp && Same(Low(f), f.sp, end, m'.mem)
                 case _ => n >= fuel
               }
  {
    var code := StmtCode(s, 0).0;
    var r := Run(code, f, m);
    StmtLabels(s, 0);
    DistinctResolved(code);
    n, m' := StmtRuns(r, 0, m, 0, s, 0, m.mem, fuel);
  }

  /** Compiler correctness.  The emitted code, run from its first instruction, reaches its end
      exactly when the statement terminates; whenever both do, the stack and frame pointers are back
      where they were, and every word but the `f.scratch` words of the stack, which may be as few as the
      depth of the statement, is what the statement says. */
  lemma CompilerCorrect(s: Stmt, f: Frame, m: Machine)
    requires Starts(s, f, m) && Defined(s, f, m.mem)
    ensures (exists n: nat, m' :: Ends(StmtCode(s, 0).0, f.names, m, n, m')) <==> (exists end :: Terminates(s, f, m.mem, end))
    ensures forall n: nat, m', end :: Ends(StmtCode(s, 0).0, f.names, m, n, m') && Terminates(s, f, m.mem, end) ==>
              m'.sp == m.sp && m'.fp == m.fp && Same(Low(f), f.sp, end, m'.mem)
  {
    var code := StmtCode(s, 0).0;
    if end :| Terminates(s, f, m.mem, end) {
      var fuel: nat :| Exec(s, f, m.mem, fuel) == Done(end);
      var n, m' := CodeRuns(s, f, m, fuel);
    }
    if n: nat, m' :| Ends(code, f.names, m, n, m') {
      var n2, m2 := CodeRuns(s, f, m, n + 1);
      EndIsUnique(code, f.names, m, n, m', n2, m2);
      assert Exec(s, f, m.mem, n + 1).Done?;
      assert Terminates(s, f, m.mem, Exec(s, f, m.mem, n + 1).mem);
    }
    forall n: nat, m', end | Ends(code, f.names, m, n, m') && Terminates(s, f, m.mem, end)
      ensures m'.sp == m.sp && m'.fp == m.fp && Same(Low(f), f.sp, end, m'.mem)
    {
      var fuel: nat :| Exec(s, f, m.mem, fuel) == Done(end);
      var n2, m2 := CodeRuns(s, f, m, fuel);
      EndIsUnique(code, f.names, m, n2, m2, n, m');
    }
  }

  /** A store to a global in the data segment, which lies below the stack, is among what the theorem covers. */
  lemma GlobalsAreCovered(f: Frame, mem: Memory, name: nat, n: int)
    requires f.names(name) % 4 == 0 && f.names(name) <= Low(f)
    ensures var s := Then(Nothing, Assign(Global(name, NoMore), Num(n)));
            Defined(s, f, mem) && Terminates(s, f, mem, mem[f.names(name) := n])
  {
    var v := Global(name, NoMore);
    assert Distance(NoMore, f, mem) == Some(0) && Address(v, f, mem) == Some(f.names(name));
    forall fuel: nat
      ensures Exec(Then(Nothing, Assign(v, Num(n))), f, mem, fuel) == Done(mem[f.names(name) := n])
    {
      assert Exec(Nothing, f, mem, fuel) == Done(mem);
      assert ExecOperation(Assign(v, Num(n)), f, mem, fuel) == Done(mem[f.names(name) := n]);
    }
    assert Exec(Then(Nothing, Assign(v, Num(n))), f, mem, 0) == Done(mem[f.names(name) := n]);
  }

  // ----- constants -----

  /** The expression with every variable and every comparison replaced by 0. */
  function Zeroed(e: Expr): Expr {
    match e
    case Num(_) => e
    case Arithmetic(op, l, r) => Arithmetic(op, Zeroed(l), Zeroed(r))
    case Comparison(_, _, _) => Num(0)
    case Negate(e1) => Negate(Zeroed(e1))
    case Value(_) => Num(0)
  }

  /** There are no variables, and no comparison holds or divides by zero on the way. */
  predicate NothingHolds(e: Expr, f: Frame, mem: Memory) {
    match e
    case Num(_) => true
    case Arithmetic(_, l, r) => NothingHolds(l, f, mem) && NothingHolds(r, f, mem)
    case Comparison(_, l, r) => NothingHolds(l, f, mem) && NothingHolds(r, f, mem) && Eval(e, f, mem) != Some(1)
    case Negate(e1) => NothingHolds(e1, f, mem)
    case Value(_) => false
  }

  /** Some division inside has a divisor that is 0 at compile time. */
  predicate DividesByZero(e: Expr) {
    match e
    case Num(_) => false
    case Arithmetic(op, l, r) => DividesByZero(l) || DividesByZero(r) || (op == Over && EvalExpression(r) == Some(0))
    case Comparison(_, l, r) => DividesByZero(l) || DividesByZero(r)
    case Negate(e1) => DividesByZero(e1)
    case Value(_) => false
  }

  /** What the initial value of a declaration is: the value of its expression with variables and
      comparisons taken as 0; there is none exactly when some division has the divisor 0. */
  lemma {:induction false} EvalExpressionMeaning(e: Expr, f: Frame, mem: Memory)
    ensures EvalExpression(e) == None <==> DividesByZero(e)
    ensures EvalExpression(e).Some? ==> Eval(Zeroed(e), f, mem) == EvalExpression(e)
  {
    match e
    case Arithmetic(_, l, r) => EvalExpressionMeaning(l, f, mem); EvalExpressionMeaning(r, f, mem);
    case Comparison(_, l, r) => EvalExpressionMeaning(l, f, mem); EvalExpressionMeaning(r, f, mem);
    case Negate(e1) => EvalExpressionMeaning(e1, f, mem);
    case _ =>
  }

  /** On expressions over numbers in which no comparison holds, the compile-time value is the value the
      emitted code computes; a division by zero stops both. */
  lemma {:induction false} ConstantsAgree(e: Expr, f: Frame, mem: Memory)
    requires NothingHolds(e, f, mem)
    ensures EvalExpression(e) == Eval(e, f, mem)
  {
    match e
    case Arithmetic(_, l, r) => ConstantsAgree(l, f, mem); ConstantsAgree(r, f, mem);
    case Comparison(_, l, r) => ConstantsAgree(l, f, mem); ConstantsAgree(r, f, mem);
    case Negate(e1) => ConstantsAgree(e1, f, mem);
    case _ =>
  }

  /** It is not on a comparison that holds: comparisons are 0 at compile time, so whatever the operands
      are, if they have values, the two agree exactly when the comparison is false. */
  lemma ComparisonsDiffer(rel: Relation, l: Expr, r: Expr, f: Frame, mem: Memory)
    requires EvalExpression(l).Some? && EvalExpression(r).Some? && Eval(l, f, mem).Some? && Eval(r, f, mem).Some?
    ensures EvalExpression(Comparison(rel, l, r)) == Eval(Comparison(rel, l, r), f, mem) <==>
            Holds(rel, Eval(l, f, mem).value, Eval(r, f, mem).value) == 0
  {
  }

  /** The expressions 1 < 2 and 1 + (1 < 2) are initialised wrongly. */
  lemma TrueComparisonsFail(f: Frame, mem: Memory)
    ensures var less := Comparison(Lt, Num(1), Num(2));
            && EvalExpression(less) == Some(0) && Eval(less, f, mem) == Some(1)
            && EvalExpression(Arithmetic(Plus, Num(1), less)) == Some(1)
            && Eval(Arithmetic(Plus, Num(1), less), f, mem) == Some(2)
  {
    var less := Comparison(Lt, Num(1), Num(2));
    assert Eval(Num(1), f, mem) == Some(1) && Eval(Num(2), f, mem) == Some(2);
    assert Eval(less, f, mem) == Some(Holds(Lt, 1, 2));
  }
}
