/**
 The part of the virtual machine that boolean expressions compile to (misc/sqlite/vdbe.c,
 lines 1631-1850), with programs whose jumps go to labels or addresses.
 */
module Vdbe {

  /** A register value: NULL or a number. */
  datatype Value = Null | Num(r: real)

  /** SQL truth values. */
  datatype Tri = False3 | True3 | Null3

  datatype CmpOp = Lt | Le | Gt | Ge | Ne | Eq

  /** A jump target: a label resolved later, or an address. */
  datatype Dest = Label(l: nat) | Addr(a: nat)

  datatype Op =
    | Column(i: nat, out: nat)
    | Const(v: Value, out: nat)
    | SCopy(from: nat, out: nat)
    | Add(r2: nat, r1: nat, out: nat)
    | AddImm(out: nat, n: int)
    | And(r2: nat, r1: nat, out: nat)
    | Or(r2: nat, r1: nat, out: nat)
    | Not(out: nat)
    | Compare(op: CmpOp, r2: nat, dest: Dest, r1: nat, jumpIfNull: bool)
    | CompareStore(op: CmpOp, r2: nat, out: nat, r1: nat)
    | If(r1: nat, dest: Dest, jumpIfNull: bool)
    | IfNot(r1: nat, dest: Dest, jumpIfNull: bool)
    | IsNull(r1: nat, dest: Dest)
    | NotNull(r1: nat, dest: Dest)
    | Goto(dest: Dest)

  type Regs = map<nat, Value>

  /** The row under test and the comparison of two non-NULL values (negative, zero, positive). */
  datatype Env = Env(row: nat -> Value, cmp: (Value, Value) -> int)

  datatype State = At(pc: nat, regs: Regs) | Stuck

  function Get(regs: Regs, r: nat): Value {
    if r in regs then regs[r] else Null
  }

  // ---------- Values ----------

  /** sqlite3VdbeIntValue truncates toward zero. */
  function Trunc(x: real): int {
    if x >= 0.0 then x.Floor else -((-x).Floor)
  }

  /** How OP_And, OP_Or and OP_Not read a value. */
  function IntTruth(v: Value): Tri {
    match v
    case Null => Null3
    case Num(x) => if Trunc(x) != 0 then True3 else False3
  }

  /** How OP_If and OP_IfNot read a value. */
  function RealTruth(v: Value): Tri {
    match v
    case Null => Null3
    case Num(x) => if x != 0.0 then True3 else False3
  }

  function Bool(b: bool): Value {
    Num(if b then 1.0 else 0.0)
  }

  function FromTri(t: Tri): Value {
    match t
    case Null3 => Null
    case True3 => Bool(true)
    case False3 => Bool(false)
  }

  function And3(a: Tri, b: Tri): Tri {
    if a == False3 || b == False3 then False3 else if a == Null3 || b == Null3 then Null3 else True3
  }

  function Or3(a: Tri, b: Tri): Tri {
    if a == True3 || b == True3 then True3 else if a == Null3 || b == Null3 then Null3 else False3
  }

  function Not3(a: Tri): Tri {
    match a
    case Null3 => Null3
    case True3 => False3
    case False3 => True3
  }

  predicate Holds(op: CmpOp, c: int) {
    match op
    case Lt => c < 0
    case Le => c <= 0
    case Gt => c > 0
    case Ge => c >= 0
    case Ne => c != 0
    case Eq => c == 0
  }

  function CompareTri(env: Env, op: CmpOp, left: Value, right: Value): Tri {
    if left == Null || right == Null then Null3 else if Holds(op, env.cmp(left, right)) then True3 else False3
  }

  function AddValues(a: Value, b: Value): Value {
    if a == Null || b == Null then Null else Num(a.r + b.r)
  }

  // ---------- Execution ----------

  function Target(d: Dest, labels: map<nat, nat>): nat {
    match d
    case Label(l) => if l in labels then labels[l] else 0
    case Addr(a) => a
  }

  predicate Takes(t: Tri, jumpIfNull: bool) {
    t == True3 || (t == Null3 && jumpIfNull)
  }

  function Step(op: Op, labels: map<nat, nat>, env: Env, pc: nat, regs: Regs): (nat, Regs) {
    match op
    case Column(i, out) => (pc + 1, regs[out := env.row(i)])
    case Const(v, out) => (pc + 1, regs[out := v])
    case SCopy(from, out) => (pc + 1, regs[out := Get(regs, from)])
    case Add(r2, r1, out) => (pc + 1, regs[out := AddValues(Get(regs, r1), Get(regs, r2))])
    case AddImm(out, n) => (pc + 1, regs[out := AddValues(Get(regs, out), Num(n as real))])
    case And(r2, r1, out) => (pc + 1, regs[out := FromTri(And3(IntTruth(Get(regs, r2)), IntTruth(Get(regs, r1))))])
    case Or(r2, r1, out) => (pc + 1, regs[out := FromTri(Or3(IntTruth(Get(regs, r2)), IntTruth(Get(regs, r1))))])
    case Not(out) => (pc + 1, regs[out := FromTri(Not3(IntTruth(Get(regs, out))))])
    case Compare(o, r2, dest, r1, jin) =>
      (if Takes(CompareTri(env, o, Get(regs, r1), Get(regs, r2)), jin) then Target(dest, labels) else pc + 1, regs)
    case CompareStore(o, r2, out, r1) =>
      (pc + 1, regs[out := FromTri(CompareTri(env, o, Get(regs, r1), Get(regs, r2)))])
    case If(r1, dest, jin) =>
      (if Takes(RealTruth(Get(regs, r1)), jin) then Target(dest, labels) else pc + 1, regs)
    case IfNot(r1, dest, jin) =>
      (if Takes(Not3(RealTruth(Get(regs, r1))), jin) then Target(dest, labels) else pc + 1, regs)
    case IsNull(r1, dest) => (if Get(regs, r1) == Null then Target(dest, labels) else pc + 1, regs)
    case NotNull(r1, dest) => (if Get(regs, r1) != Null then Target(dest, labels) else pc + 1, regs)
    case Goto(dest) => (Target(dest, labels), regs)
  }

  /** Runs the instructions lo..hi-1 from `pc` until control leaves them. A jump backwards inside the
      range is reported as Stuck. */
  function Run(code: seq<Op>, labels: map<nat, nat>, env: Env, lo: nat, hi: nat, pc: nat, regs: Regs): State
    requires hi <= |code|
    decreases if lo <= pc < hi then hi - pc else 0
  {
    if pc < lo || hi <= pc then At(pc, regs)
    else
      var (pc', regs') := Step(code[pc], labels, env, pc, regs);
      if lo <= pc' <= pc then Stuck else Run(code, labels, env, lo, hi, pc', regs')
  }

  /** A run of an inner range is the beginning of a run of the outer one. */
  lemma {:induction false} RunInner(code: seq<Op>, labels: map<nat, nat>, env: Env, lo: nat, hi: nat, lo': nat,
                                    hi': nat, pc: nat, regs: Regs)
    requires lo <= lo' <= hi' <= hi <= |code|
    requires var s := Run(code, labels, env, lo', hi', pc, regs);
             s.At? && (s.pc < lo || hi' <= s.pc)
    ensures var s := Run(code, labels, env, lo', hi', pc, regs);
            Run(code, labels, env, lo, hi, pc, regs) == Run(code, labels, env, lo, hi, s.pc, s.regs)
    decreases if lo' <= pc < hi' then hi' - pc else 0
  {
    if lo' <= pc < hi' {
      var (pc', regs') := Step(code[pc], labels, env, pc, regs);
      RunInner(code, labels, env, lo, hi, lo', hi', pc', regs');
    }
  }
}
