/**
 Code generation for SQL boolean expressions (misc/sqlite/expr.c, lines 2893-3162 and the
 logical, comparison, BETWEEN and CASE cases of sqlite3ExprCodeTarget, lines 2171-2720), and its
 correctness on the virtual machine.

 Registers are fresh: sqlite3GetTempReg never hands out a released register (expr.c:3411-3428).
 */
module ExprCode {
  import opened Vdbe

  datatype Expr =
    | EColumn(i: nat)
    | ELiteral(v: Value)
    | ERegister(reg: nat)
    | EAdd(l: Expr, r: Expr)
    | EAnd(l: Expr, r: Expr)
    | EOr(l: Expr, r: Expr)
    | ENot(e: Expr)
    | ECmp(op: CmpOp, l: Expr, r: Expr)
    | EIsNull(e: Expr)
    | ENotNull(e: Expr)
    | EBetween(x: Expr, y: Expr, z: Expr)
    | ECase(base: Operand, whens: Whens, els: Operand)

  /** CASE's operand and its ELSE term are optional. */
  datatype Operand = NoExpr | Some(e: Expr)

  datatype Whens = NoMore | When(test: Expr, result: Expr, rest: Whens)

  // ---------- Meaning ----------

  /** The value sqlite3ExprCodeTarget computes. */
  function Eval(e: Expr, env: Env, regs: Regs): Value
    decreases e, 0
  {
    match e
    case EColumn(i) => env.row(i)
    case ELiteral(v) => v
    case ERegister(r) => Get(regs, r)
    case EAdd(l, r) => AddValues(Eval(l, env, regs), Eval(r, env, regs))
    case EAnd(l, r) => FromTri(And3(IntTruth(Eval(l, env, regs)), IntTruth(Eval(r, env, regs))))
    case EOr(l, r) => FromTri(Or3(IntTruth(Eval(l, env, regs)), IntTruth(Eval(r, env, regs))))
    case ENot(l) => FromTri(Not3(IntTruth(Eval(l, env, regs))))
    case ECmp(op, l, r) => FromTri(CompareTri(env, op, Eval(l, env, regs), Eval(r, env, regs)))
    case EIsNull(l) => Bool(Eval(l, env, regs) == Null)
    case ENotNull(l) => Bool(Eval(l, env, regs) != Null)
    case EBetween(x, y, z) =>
      FromTri(And3(CompareTri(env, Ge, Eval(x, env, regs), Eval(y, env, regs)),
                   CompareTri(env, Le, Eval(x, env, regs), Eval(z, env, regs))))
    case ECase(x, whens, els) =>
      var x' := if x.Some? then Eval(x.e, env, regs) else Null;
      match EvalWhens(whens, x.Some?, x', env, regs)
      case Found(v) => v
      case NotFound => if els.Some? then Eval(els.e, env, regs) else Null
  }

  datatype Choice = NotFound | Found(v: Value)

  /** The first WHEN whose test holds decides; with an operand the test is equality with it. */
  function EvalWhens(w: Whens, hasX: bool, x: Value, env: Env, regs: Regs): Choice
    decreases w, 0
  {
    match w
    case NoMore => NotFound
    case When(test, result, rest) =>
      var t := if hasX then CompareTri(env, Eq, x, Eval(test, env, regs)) else Truth(test, env, regs);
      if t == True3 then Found(Eval(result, env, regs)) else EvalWhens(rest, hasX, x, env, regs)
  }

  /** The three-valued truth of an expression used as a condition: SQL logic down to the
      operands that are not themselves logical, which are true when they are nonzero numbers. */
  function Truth(e: Expr, env: Env, regs: Regs): Tri
    decreases e, 1
  {
    match e
    case EAnd(l, r) => And3(Truth(l, env, regs), Truth(r, env, regs))
    case EOr(l, r) => Or3(Truth(l, env, regs), Truth(r, env, regs))
    case ENot(l) => Not3(Truth(l, env, regs))
    case ECmp(op, l, r) => CompareTri(env, op, Eval(l, env, regs), Eval(r, env, regs))
    case EIsNull(l) => if Eval(l, env, regs) == Null then True3 else False3
    case ENotNull(l) => if Eval(l, env, regs) == Null then False3 else True3
    case EBetween(x, y, z) =>
      And3(CompareTri(env, Ge, Eval(x, env, regs), Eval(y, env, regs)),
           CompareTri(env, Le, Eval(x, env, regs), Eval(z, env, regs)))
    case _ => RealTruth(Eval(e, env, regs))
  }

  // ---------- Code generation ----------

  /** The program under construction: instructions, resolved labels with their addresses, and the
      numbers of labels and registers used. */
  datatype Parse = Parse(ops: seq<Op>, fixups: seq<(nat, nat)>, nLabel: nat, nMem: nat)

  function Emit(st: Parse, op: Op): Parse {
    st.(ops := st.ops + [op])
  }

  function ResolveLabel(st: Parse, l: nat): Parse {
    st.(fixups := st.fixups + [(l, |st.ops|)])
  }

  /** Patches the jump at `addr` to go to the next instruction (sqlite3VdbeJumpHere). */
  function JumpHere(st: Parse, addr: nat): Parse
    requires addr < |st.ops| && (st.ops[addr].IsNull? || st.ops[addr].NotNull?)
  {
    st.(ops := st.ops[addr := st.ops[addr].(dest := Addr(|st.ops|))])
  }

  /** st' continues st: nothing already emitted or resolved has changed. */
  predicate Grows(st: Parse, st': Parse) {
    && st.ops <= st'.ops && st.fixups <= st'.fixups
    && st.nLabel <= st'.nLabel && st.nMem <= st'.nMem
  }

  function Size(e: Expr): (n: nat)
    ensures n > 0
  {
    match e
    case EAdd(l, r) => 1 + Size(l) + Size(r)
    case EAnd(l, r) => 1 + Size(l) + Size(r)
    case EOr(l, r) => 1 + Size(l) + Size(r)
    case ENot(l) => 1 + Size(l)
    case ECmp(_, l, r) => 1 + Size(l) + Size(r)
    case EIsNull(l) => 1 + Size(l)
    case ENotNull(l) => 1 + Size(l)
    case EBetween(x, y, z) => 5 + Size(x) + Size(y) + Size(z)
    case ECase(x, whens, els) => 1 + OperandSize(x) + WhensSize(whens) + OperandSize(els)
    case _ => 1
  }

  function OperandSize(o: Operand): nat {
    if o.Some? then Size(o.e) else 0
  }

  function WhensSize(w: Whens): nat {
    match w
    case NoMore => 0
    case When(test, result, rest) => 3 + Size(test) + Size(result) + WhensSize(rest)
  }

  /** The comparison coded when the jump is to be taken on false (expr.c:3032-3050). */
  function Opposite(op: CmpOp): CmpOp {
    match op
    case Lt => Ge
    case Le => Gt
    case Gt => Le
    case Ge => Lt
    case Ne => Eq
    case Eq => Ne
  }

  /** sqlite3ExprCodeTarget: emits code for the value of e, in `target` if need be, and returns the
      register that will hold it. */
  function CodeTarget(e: Expr, target: nat, st: Parse): (r: (Parse, nat))
    ensures Grows(st, r.0)
    decreases Size(e), 1
  {
    match e
    case EColumn(i) => (Emit(st, Column(i, target)), target)
    case ELiteral(v) => (Emit(st, Const(v, target)), target)
    case ERegister(r) => (st, r)
    case EAdd(l, r) =>
      var (s, r1, r2) := CodeOperands(l, r, st);
      (Emit(s, Add(r2, r1, target)), target)
    case EAnd(l, r) =>
      var (s, r1, r2) := CodeOperands(l, r, st);
      (Emit(s, And(r2, r1, target)), target)
    case EOr(l, r) =>
      var (s, r1, r2) := CodeOperands(l, r, st);
      (Emit(s, Or(r2, r1, target)), target)
    case ENot(l) =>
      var (s, r1) := CodeTarget(l, target, st);
      (Emit(s, Not(r1)), r1)
    case ECmp(op, l, r) =>
      var (s, r1, r2) := CodeOperands(l, r, st);
      (Emit(s, CompareStore(op, r2, target, r1)), target)
    case EIsNull(l) => (CodeNullTest(true, l, target, st), target)
    case ENotNull(l) => (CodeNullTest(false, l, target, st), target)
    case EBetween(x, y, z) => (CodeBetween(x, y, z, target, st), target)
    case ECase(x, whens, els) => (CodeCase(x, whens, els, target, st), target)
  }

  /** The operands of a binary operator or comparison, left first (expr.c:211-226, 2344-2345). */
  function CodeOperands(l: Expr, r: Expr, st: Parse): (res: (Parse, nat, nat))
    ensures Grows(st, res.0)
    decreases Size(l) + Size(r), 3
  {
    var (s1, r1) := CodeTemp(l, st);
    var (s2, r2) := CodeTemp(r, s1);
    (s2, r1, r2)
  }

  function NullJump(isNull: bool, r1: nat, dest: Dest): Op {
    if isNull then IsNull(r1, dest) else NotNull(r1, dest)
  }

  /** ISNULL and NOTNULL as a value: 1, decremented unless the jump is taken (expr.c:2384-2398). */
  function CodeNullTest(isNull: bool, l: Expr, target: nat, st: Parse): (r: Parse)
    ensures Grows(st, r)
    decreases Size(l), 3
  {
    var s0 := Emit(st, Const(Num(1.0), target));
    var (s1, r1) := CodeTemp(l, s0);
    var s2 := Emit(Emit(s1, NullJump(isNull, r1, Addr(0))), AddImm(target, -1));
    var s3 := JumpHere(s2, |s1.ops|);
    s3
  }

  /** BETWEEN as a value (expr.c:2539-2562). */
  function CodeBetween(x: Expr, y: Expr, z: Expr, target: nat, st: Parse): (r: Parse)
    ensures Grows(st, r)
    decreases Size(x) + Size(y) + Size(z), 3
  {
    var (s1, r1, r2) := CodeOperands(x, y, st);
    var r3, r4 := s1.nMem + 1, s1.nMem + 2;
    var s2 := Emit(s1.(nMem := s1.nMem + 2), CompareStore(Ge, r2, r3, r1));
    var (s3, r2') := CodeTemp(z, s2);
    var s4 := Emit(Emit(s3, CompareStore(Le, r2', r4, r1)), And(r3, r4, target));
    s4
  }

  /** CASE (expr.c:2589-2646). */
  function CodeCase(x: Operand, whens: Whens, els: Operand, target: nat, st: Parse): (r: Parse)
    ensures Grows(st, r)
    decreases OperandSize(x) + WhensSize(whens) + OperandSize(els), 5
  {
    var endLabel := st.nLabel;
    var s0 := st.(nLabel := st.nLabel + 1);
    assert x.Some? ==> Size(x.e) == OperandSize(x);
    assert els.Some? ==> Size(els.e) == OperandSize(els);
    var (s1, rx) := if x.Some? then CodeTemp(x.e, s0) else (s0, 0);
    var s2 := CodeWhens(whens, x.Some?, rx, endLabel, target, s1);
    var s3 := if els.Some? then CodeInto(els.e, target, s2) else Emit(s2, Const(Null, target));
    ResolveLabel(s3, endLabel)
  }

  /** With an operand in register rx the test of a WHEN is equality with it. */
  function WhenTest(hasX: bool, rx: nat, test: Expr): (e: Expr)
    ensures Size(e) <= 2 + Size(test)
  {
    if hasX then
      assert Size(ERegister(rx)) == 1;
      ECmp(Eq, ERegister(rx), test)
    else test
  }

  /** The WHEN clauses of a CASE (expr.c:2621-2636). */
  function CodeWhens(w: Whens, hasX: bool, rx: nat, endLabel: nat, target: nat, st: Parse): (r: Parse)
    ensures Grows(st, r)
    decreases WhensSize(w), 4
  {
    match w
    case NoMore => st
    case When(test, result, rest) =>
      var s := CodeWhen(test, result, hasX, rx, endLabel, target, st);
      var r := CodeWhens(rest, hasX, rx, endLabel, target, s);
      r
  }

  function CodeWhen(test: Expr, result: Expr, hasX: bool, rx: nat, endLabel: nat, target: nat, st: Parse): (r: Parse)
    ensures Grows(st, r)
    decreases 3 + Size(test) + Size(result), 3
  {
    var nextCase := st.nLabel;
    var s0 := st.(nLabel := st.nLabel + 1);
    var s1 := IfFalse(WhenTest(hasX, rx, test), Label(nextCase), true, s0);
    var s2 := CodeInto(result, target, s1);
    ResolveLabel(Emit(s2, Goto(Label(endLabel))), nextCase)
  }

  /** sqlite3ExprCodeTemp */
  function CodeTemp(e: Expr, st: Parse): (r: (Parse, nat))
    ensures Grows(st, r.0)
    decreases Size(e), 2
  {
    CodeTarget(e, st.nMem + 1, st.(nMem := st.nMem + 1))
  }

  /** sqlite3ExprCode */
  function CodeInto(e: Expr, target: nat, st: Parse): (r: Parse)
    ensures Grows(st, r)
    decreases Size(e), 2
  {
    var (s1, r1) := CodeTarget(e, target, st);
    if r1 != target then Emit(s1, SCopy(r1, target)) else s1
  }

  /** x BETWEEN y AND z is coded as r>=y AND r<=z once x is in register r (expr.c:2969-2999). */
  function BetweenAnd(r: nat, y: Expr, z: Expr): (e: Expr)
    ensures Size(e) == 5 + Size(y) + Size(z)
  {
    assert Size(ERegister(r)) == 1;
    assert Size(ECmp(Ge, ERegister(r), y)) == 2 + Size(y);
    assert Size(ECmp(Le, ERegister(r), z)) == 2 + Size(z);
    EAnd(ECmp(Ge, ERegister(r), y), ECmp(Le, ERegister(r), z))
  }

  /** Any other expression: its value, and a jump on that value (expr.c:3001-3006, 3152-3157). */
  function CodeJump(e: Expr, onTrue: bool, dest: Dest, jumpIfNull: bool, st: Parse): (r: Parse)
    ensures Grows(st, r)
    decreases Size(e), 3
  {
    var (s, r1) := CodeTemp(e, st);
    Emit(s, if onTrue then If(r1, dest, jumpIfNull) else IfNot(r1, dest, jumpIfNull))
  }

  /** sqlite3ExprIfTrue */
  function IfTrue(e: Expr, dest: Dest, jumpIfNull: bool, st: Parse): (r: Parse)
    ensures Grows(st, r)
    decreases Size(e), 4
  {
    match e
    case EAnd(l, r) =>
      var d2, s0 := st.nLabel, st.(nLabel := st.nLabel + 1);
      var s1 := IfFalse(l, Label(d2), !jumpIfNull, s0);
      var s2 := IfTrue(r, dest, jumpIfNull, s1);
      ResolveLabel(s2, d2)
    case EOr(l, r) =>
      var s1 := IfTrue(l, dest, jumpIfNull, st);
      var s2 := IfTrue(r, dest, jumpIfNull, s1);
      s2
    case ENot(l) => IfFalse(l, dest, jumpIfNull, st)
    case ECmp(op, l, r) =>
      var (s, r1, r2) := CodeOperands(l, r, st);
      Emit(s, Compare(op, r2, dest, r1, jumpIfNull))
    case EIsNull(l) =>
      var (s, r1) := CodeTemp(l, st);
      Emit(s, NullJump(true, r1, dest))
    case ENotNull(l) =>
      var (s, r1) := CodeTemp(l, st);
      Emit(s, NullJump(false, r1, dest))
    case EBetween(x, y, z) =>
      var (s1, r1) := CodeTemp(x, st);
      var s2 := IfTrue(BetweenAnd(r1, y, z), dest, jumpIfNull, s1);
      s2
    case _ => CodeJump(e, true, dest, jumpIfNull, st)
  }

  /** sqlite3ExprIfFalse */
  function IfFalse(e: Expr, dest: Dest, jumpIfNull: bool, st: Parse): (r: Parse)
    ensures Grows(st, r)
    decreases Size(e), 4
  {
    match e
    case EAnd(l, r) =>
      var s1 := IfFalse(l, dest, jumpIfNull, st);
      var s2 := IfFalse(r, dest, jumpIfNull, s1);
      s2
    case EOr(l, r) =>
      var d2, s0 := st.nLabel, st.(nLabel := st.nLabel + 1);
      var s1 := IfTrue(l, Label(d2), !jumpIfNull, s0);
      var s2 := IfFalse(r, dest, jumpIfNull, s1);
      ResolveLabel(s2, d2)
    case ENot(l) => IfTrue(l, dest, jumpIfNull, st)
    case ECmp(op, l, r) =>
      var (s, r1, r2) := CodeOperands(l, r, st);
      Emit(s, Compare(Opposite(op), r2, dest, r1, jumpIfNull))
    case EIsNull(l) =>
      var (s, r1) := CodeTemp(l, st);
      Emit(s, NullJump(false, r1, dest))
    case ENotNull(l) =>
      var (s, r1) := CodeTemp(l, st);
      Emit(s, NullJump(true, r1, dest))
    case EBetween(x, y, z) =>
      var (s1, r1) := CodeTemp(x, st);
      var s2 := IfFalse(BetweenAnd(r1, y, z), dest, jumpIfNull, s1);
      s2
    case _ => CodeJump(e, false, dest, jumpIfNull, st)
  }
}
