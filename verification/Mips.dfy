/** The fragment of MIPS assembly the code generator emits, and how it executes. */
module Mips {
  import opened Division
  import opened Options

  datatype Reg = Zero | T0 | T1 | Sp | Fp

  datatype Relation = Lt | Gt | Eq | Ne | Le | Ge

  datatype Instr =
    | Li(d: Reg, n: int)
    | La(d: Reg, name: nat)
    | Move(d: Reg, s: Reg)
    | Add(d: Reg, s: Reg, t: Reg)
    | Sub(d: Reg, s: Reg, t: Reg)
    | Addi(d: Reg, s: Reg, n: int)
    | Mult(s: Reg, t: Reg)
    | Div(s: Reg, t: Reg)
    | Mflo(d: Reg)
    | Compare(rel: Relation, d: Reg, s: Reg, t: Reg)
    | Lw(d: Reg, offset: int, base: Reg)
    | Sw(s: Reg, offset: int, base: Reg)
    | Bnez(s: Reg, target: nat)
    | B(target: nat)
    | Label(id: nat)

  type Memory = map<int, int>

  function Read(mem: Memory, a: int): int {
    if a in mem then mem[a] else 0
  }

  /** A machine state.  Words are unbounded integers; `lo` receives products and quotients. */
  datatype Machine = Machine(pc: nat, t0: int, t1: int, sp: int, fp: int, lo: int, mem: Memory)

  function Get(m: Machine, r: Reg): int {
    match r
    case Zero => 0
    case T0 => m.t0
    case T1 => m.t1
    case Sp => m.sp
    case Fp => m.fp
  }

  function Put(m: Machine, r: Reg, x: int): Machine {
    match r
    case Zero => m
    case T0 => m.(t0 := x)
    case T1 => m.(t1 := x)
    case Sp => m.(sp := x)
    case Fp => m.(fp := x)
  }

  function Holds(rel: Relation, x: int, y: int): int {
    var b := match rel
             case Lt => x < y
             case Gt => x > y
             case Eq => x == y
             case Ne => x != y
             case Le => x <= y
             case Ge => x >= y;
    if b then 1 else 0
  }

  /** The position of a label; the length of the code when it is not there. */
  function Find(code: seq<Instr>, id: nat): (k: nat)
    ensures k <= |code|
    ensures k < |code| ==> code[k] == Label(id)
    ensures forall i :: 0 <= i < k ==> code[i] != Label(id)
  {
    if code == [] || code[0] == Label(id) then 0 else 1 + Find(code[1..], id)
  }

  function Jump(code: seq<Instr>, m: Machine, id: nat): Option<Machine> {
    if Find(code, id) < |code| then Some(m.(pc := Find(code, id))) else None
  }

  /** The effect of the instruction `i`; None when it traps, on a division by zero, an unaligned
      access or a jump to nowhere. */
  function Execute(i: Instr, code: seq<Instr>, names: nat -> int, m: Machine): Option<Machine> {
    var m' := m.(pc := m.pc + 1);
    match i
    case Li(d, n) => Some(Put(m', d, n))
    case La(d, name) => Some(Put(m', d, names(name)))
    case Move(d, s) => Some(Put(m', d, Get(m, s)))
    case Add(d, s, t) => Some(Put(m', d, Get(m, s) + Get(m, t)))
    case Sub(d, s, t) => Some(Put(m', d, Get(m, s) - Get(m, t)))
    case Addi(d, s, n) => Some(Put(m', d, Get(m, s) + n))
    case Mult(s, t) => Some(m'.(lo := Get(m, s) * Get(m, t)))
    case Div(s, t) => if Get(m, t) == 0 then None else Some(m'.(lo := Quotient(Get(m, s), Get(m, t))))
    case Mflo(d) => Some(Put(m', d, m.lo))
    case Compare(rel, d, s, t) => Some(Put(m', d, Holds(rel, Get(m, s), Get(m, t))))
    case Lw(d, offset, base) =>
      var a := Get(m, base) + offset;
      if a % 4 != 0 then None else Some(Put(m', d, Read(m.mem, a)))
    case Sw(s, offset, base) =>
      var a := Get(m, base) + offset;
      if a % 4 != 0 then None else Some(m'.(mem := m.mem[a := Get(m, s)]))
    case Bnez(s, target) => if Get(m, s) != 0 then Jump(code, m, target) else Some(m')
    case B(target) => Jump(code, m, target)
    case Label(_) => Some(m')
  }

  /** One step; None also when the program has ended. */
  function Next(code: seq<Instr>, names: nat -> int, m: Machine): Option<Machine> {
    if m.pc >= |code| then None else Execute(code[m.pc], code, names, m)
  }

  function Stepper(code: seq<Instr>, names: nat -> int): Machine -> Option<Machine> {
    m => Next(code, names, m)
  }

  /** `n` steps take `m` to `m'`. */
  ghost predicate Iterates<M(!new)>(step: M -> Option<M>, m: M, n: nat, m': M)
    decreases n
  {
    if n == 0 then m' == m
    else step(m).Some? && Iterates(step, step(m).value, n - 1, m')
  }

  lemma {:induction false} IteratesJoin<M(!new)>(step: M -> Option<M>, a: M, i: nat, b: M, j: nat, c: M)
    requires Iterates(step, a, i, b) && Iterates(step, b, j, c)
    ensures Iterates(step, a, i + j, c)
    decreases i
  {
    if i > 0 {
      IteratesJoin(step, step(a).value, i - 1, b, j, c);
    }
  }

  /** Of two iterations the shorter one is the beginning of the longer one. */
  lemma {:induction false} IteratesPrefix<M(!new)>(step: M -> Option<M>, a: M, i: nat, b: M, j: nat, c: M)
    requires Iterates(step, a, i, b) && Iterates(step, a, j, c) && i <= j
    ensures Iterates(step, b, j - i, c)
    decreases i
  {
    if i > 0 {
      IteratesPrefix(step, step(a).value, i - 1, b, j - 1, c);
    }
  }

  /** `n` instructions take the machine from `m` to `m'`. */
  ghost predicate Runs(code: seq<Instr>, names: nat -> int, m: Machine, n: nat, m': Machine) {
    Iterates(Stepper(code, names), m, n, m')
  }

  /** The program has run to its end, the position after its last instruction. */
  ghost predicate Ends(code: seq<Instr>, names: nat -> int, m: Machine, n: nat, m': Machine) {
    Runs(code, names, m, n, m') && m'.pc == |code|
  }

  /** The machine is deterministic and nothing runs past the end of the program. */
  lemma EndIsUnique(code: seq<Instr>, names: nat -> int, a: Machine, i: nat, b: Machine, j: nat, c: Machine)
    requires Ends(code, names, a, i, b) && Runs(code, names, a, j, c)
    ensures j <= i
    ensures c.pc == |code| ==> j == i && c == b
  {
    if i <= j {
      IteratesPrefix(Stepper(code, names), a, i, b, j, c);
    } else {
      IteratesPrefix(Stepper(code, names), a, j, c, i, b);
    }
  }

  /** Extends a run by the instruction the machine is at. */
  lemma Advance(code: seq<Instr>, names: nat -> int, a: Machine, n: nat, m: Machine) returns (m': Machine)
    requires Runs(code, names, a, n, m) && Next(code, names, m).Some?
    ensures m' == Next(code, names, m).value && Runs(code, names, a, n + 1, m')
  {
    m' := Next(code, names, m).value;
    assert Iterates(Stepper(code, names), m', 0, m');
    IteratesJoin(Stepper(code, names), a, n, m, 1, m');
  }

  ghost predicate DistinctLabels(code: seq<Instr>) {
    forall i, j :: 0 <= i < j < |code| && code[i].Label? && code[j].Label? ==> code[i].id != code[j].id
  }

  /** A branch finds every label. */
  ghost predicate Resolved(code: seq<Instr>) {
    forall k :: 0 <= k < |code| && code[k].Label? ==> Find(code, code[k].id) == k
  }

  lemma DistinctResolved(code: seq<Instr>)
    requires DistinctLabels(code)
    ensures Resolved(code)
  {
  }
}
