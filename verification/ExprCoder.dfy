/**
 The generators as expr.c writes them: they append opcodes to the program under construction and
 advance the label and register counters. Each leaves the state that its specification in ExprCode
 describes, so what ExprProof establishes about the code holds of what is emitted here.
 */
module ExprCoder {
  import opened Vdbe
  import opened ExprCode

  class Coder {
    var ops: seq<Op>
    var fixups: seq<(nat, nat)>
    var nLabel: nat
    var nMem: nat

    function State(): Parse
      reads this
    {
      Parse(ops, fixups, nLabel, nMem)
    }

    constructor ()
      ensures State() == Parse([], [], 0, 0)
    {
      ops, fixups, nLabel, nMem := [], [], 0, 0;
    }

    method AddOp(op: Op)
      modifies this
      ensures State() == Emit(old(State()), op)
    {
      ops := ops + [op];
    }

    method MakeLabel() returns (l: nat)
      modifies this
      ensures l == old(nLabel) && State() == old(State()).(nLabel := l + 1)
    {
      l := nLabel;
      nLabel := nLabel + 1;
    }

    method Resolve(l: nat)
      modifies this
      ensures State() == ResolveLabel(old(State()), l)
    {
      fixups := fixups + [(l, |ops|)];
    }

    method GetTempReg() returns (r: nat)
      modifies this
      ensures r == old(nMem) + 1 && State() == old(State()).(nMem := r)
    {
      nMem := nMem + 1;
      r := nMem;
    }

    /** sqlite3ExprCodeTemp */
    method Temp(e: Expr) returns (r: nat)
      modifies this
      ensures (State(), r) == CodeTemp(e, old(State()))
      decreases Size(e), 2
    {
      var t := GetTempReg();
      r := Target(e, t);
    }

    /** sqlite3ExprCode */
    method Into(e: Expr, target: nat)
      modifies this
      ensures State() == CodeInto(e, target, old(State()))
      decreases Size(e), 2
    {
      var r := Target(e, target);
      if r != target {
        AddOp(SCopy(r, target));
      }
    }

    method Operands(l: Expr, r: Expr) returns (r1: nat, r2: nat)
      modifies this
      ensures (State(), r1, r2) == CodeOperands(l, r, old(State()))
      decreases Size(l) + Size(r), 3
    {
      r1 := Temp(l);
      r2 := Temp(r);
    }

    /** sqlite3ExprCodeTarget */
    method Target(e: Expr, target: nat) returns (r: nat)
      modifies this
      ensures (State(), r) == CodeTarget(e, target, old(State()))
      decreases Size(e), 1
    {
      r := target;
      match e
      case EColumn(i) => AddOp(Column(i, target));
      case ELiteral(v) => AddOp(Const(v, target));
      case ERegister(reg) => r := reg;
      case EAdd(x, y) =>
        var r1, r2 := Operands(x, y);
        AddOp(Add(r2, r1, target));
      case EAnd(x, y) =>
        var r1, r2 := Operands(x, y);
        AddOp(And(r2, r1, target));
      case EOr(x, y) =>
        var r1, r2 := Operands(x, y);
        AddOp(Or(r2, r1, target));
      case ENot(x) =>
        r := Target(x, target);
        AddOp(Not(r));
      case ECmp(op, x, y) =>
        var r1, r2 := Operands(x, y);
        AddOp(CompareStore(op, r2, target, r1));
      case EIsNull(x) => NullTest(true, x, target);
      case ENotNull(x) => NullTest(false, x, target);
      case EBetween(x, y, z) => Between(x, y, z, target);
      case ECase(x, whens, els) => Case(x, whens, els, target);
    }

    method NullTest(isNull: bool, l: Expr, target: nat)
      modifies this
      ensures State() == CodeNullTest(isNull, l, target, old(State()))
      decreases Size(l), 3
    {
      AddOp(Const(Num(1.0), target));
      var r1 := Temp(l);
      var addr := |ops|;
      AddOp(NullJump(isNull, r1, Addr(0)));
      AddOp(AddImm(target, -1));
      ops := JumpHere(State(), addr).ops;
    }

    method Between(x: Expr, y: Expr, z: Expr, target: nat)
      modifies this
      ensures State() == CodeBetween(x, y, z, target, old(State()))
      decreases Size(x) + Size(y) + Size(z), 3
    {
      var r1, r2 := Operands(x, y);
      var r3 := GetTempReg();
      var r4 := GetTempReg();
      AddOp(CompareStore(Ge, r2, r3, r1));
      r2 := Temp(z);
      AddOp(CompareStore(Le, r2, r4, r1));
      AddOp(And(r3, r4, target));
    }

    method Case(x: Operand, whens: Whens, els: Operand, target: nat)
      modifies this
      ensures State() == CodeCase(x, whens, els, target, old(State()))
      decreases OperandSize(x) + WhensSize(whens) + OperandSize(els), 5
    {
      var endLabel := MakeLabel();
      var rx := 0;
      if x.Some? {
        rx := Temp(x.e);
      }
      var w := whens;
      ghost var s1 := State();
      while w.When?
        invariant WhensSize(w) <= WhensSize(whens)
        invariant CodeWhens(whens, x.Some?, rx, endLabel, target, s1) ==
                  CodeWhens(w, x.Some?, rx, endLabel, target, State())
        decreases WhensSize(w)
      {
        OneWhen(w.test, w.result, x.Some?, rx, endLabel, target);
        w := w.rest;
      }
      if els.Some? {
        Into(els.e, target);
      } else {
        AddOp(Const(Null, target));
      }
      Resolve(endLabel);
    }

    method OneWhen(test: Expr, result: Expr, hasX: bool, rx: nat, endLabel: nat, target: nat)
      modifies this
      ensures State() == CodeWhen(test, result, hasX, rx, endLabel, target, old(State()))
      decreases 3 + Size(test) + Size(result), 3
    {
      var nextCase := MakeLabel();
      JumpIfFalse(WhenTest(hasX, rx, test), Label(nextCase), true);
      Into(result, target);
      AddOp(Goto(Label(endLabel)));
      Resolve(nextCase);
    }

    /** sqlite3ExprIfTrue */
    method JumpIfTrue(e: Expr, dest: Dest, jumpIfNull: bool)
      modifies this
      ensures State() == IfTrue(e, dest, jumpIfNull, old(State()))
      decreases Size(e), 4
    {
      match e
      case EAnd(l, r) =>
        var d2 := MakeLabel();
        JumpIfFalse(l, Label(d2), !jumpIfNull);
        JumpIfTrue(r, dest, jumpIfNull);
        Resolve(d2);
      case EOr(l, r) =>
        JumpIfTrue(l, dest, jumpIfNull);
        JumpIfTrue(r, dest, jumpIfNull);
      case ENot(l) => JumpIfFalse(l, dest, jumpIfNull);
      case ECmp(op, l, r) =>
        var r1, r2 := Operands(l, r);
        AddOp(Compare(op, r2, dest, r1, jumpIfNull));
      case EIsNull(l) =>
        var r1 := Temp(l);
        AddOp(NullJump(true, r1, dest));
      case ENotNull(l) =>
        var r1 := Temp(l);
        AddOp(NullJump(false, r1, dest));
      case EBetween(x, y, z) =>
        var r1 := Temp(x);
        JumpIfTrue(BetweenAnd(r1, y, z), dest, jumpIfNull);
      case _ =>
        var r1 := Temp(e);
        AddOp(If(r1, dest, jumpIfNull));
    }

    /** sqlite3ExprIfFalse */
    method JumpIfFalse(e: Expr, dest: Dest, jumpIfNull: bool)
      modifies this
      ensures State() == IfFalse(e, dest, jumpIfNull, old(State()))
      decreases Size(e), 4
    {
      match e
      case EAnd(l, r) =>
        JumpIfFalse(l, dest, jumpIfNull);
        JumpIfFalse(r, dest, jumpIfNull);
      case EOr(l, r) =>
        var d2 := MakeLabel();
        JumpIfTrue(l, Label(d2), !jumpIfNull);
        JumpIfFalse(r, dest, jumpIfNull);
        Resolve(d2);
      case ENot(l) => JumpIfTrue(l, dest, jumpIfNull);
      case ECmp(op, l, r) =>
        var r1, r2 := Operands(l, r);
        AddOp(Compare(Opposite(op), r2, dest, r1, jumpIfNull));
      case EIsNull(l) =>
        var r1 := Temp(l);
        AddOp(NullJump(false, r1, dest));
      case ENotNull(l) =>
        var r1 := Temp(l);
        AddOp(NullJump(true, r1, dest));
      case EBetween(x, y, z) =>
        var r1 := Temp(x);
        JumpIfFalse(BetweenAnd(r1, y, z), dest, jumpIfNull);
      case _ =>
        var r1 := Temp(e);
        AddOp(IfNot(r1, dest, jumpIfNull));
    }
  }
}
