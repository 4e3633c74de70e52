/**
 What SQL expressions mean, said without the virtual machine: truth is 0 for false, 1 for NULL and 2 for
 true, AND is the smaller of two, OR the larger, NOT turns the scale round, and comparisons are those of
 numbers. The code generated for conditions and values is proved to follow it.
 */
module ExprMeaning {
  import opened Vdbe
  import opened ExprCode
  import opened ExprProof

  /** Values are compared as numbers. */
  ghost predicate Numeric(env: Env) {
    forall a, b :: (env.cmp(Num(a), Num(b)) < 0 <==> a < b) && (env.cmp(Num(a), Num(b)) == 0 <==> a == b)
  }

  function Min(a: int, b: int): int {
    if a < b then a else b
  }

  function Max(a: int, b: int): int {
    if a < b then b else a
  }

  predicate Related(op: CmpOp, a: real, b: real) {
    match op
    case Lt => a < b
    case Le => a <= b
    case Gt => b < a
    case Ge => b <= a
    case Ne => a != b
    case Eq => a == b
  }

  function Compared(op: CmpOp, v: Value, w: Value): int {
    if v.Null? || w.Null? then 1 else if Related(op, v.r, w.r) then 2 else 0
  }

  /** A value as a condition, and as an operand of AND, OR and NOT, where a fraction below 1 counts as 0. */
  function Condition(v: Value): int {
    if v.Null? then 1 else if v.r == 0.0 then 0 else 2
  }

  function WholeCondition(v: Value): int {
    if v.Null? then 1 else if -1.0 < v.r < 1.0 then 0 else 2
  }

  function Stored(rank: int): Value {
    if rank == 1 then Null else if rank == 0 then Num(0.0) else Num(1.0)
  }

  /** The truth of an expression used as a condition. */
  function Rank(e: Expr, row: nat -> Value, regs: Regs): int
    decreases e, 1
  {
    match e
    case EAnd(l, r) => Min(Rank(l, row, regs), Rank(r, row, regs))
    case EOr(l, r) => Max(Rank(l, row, regs), Rank(r, row, regs))
    case ENot(l) => 2 - Rank(l, row, regs)
    case ECmp(op, l, r) => Compared(op, Val(l, row, regs), Val(r, row, regs))
    case EIsNull(l) => if Val(l, row, regs).Null? then 2 else 0
    case ENotNull(l) => if Val(l, row, regs).Null? then 0 else 2
    case EBetween(x, y, z) =>
      Min(Compared(Le, Val(y, row, regs), Val(x, row, regs)), Compared(Le, Val(x, row, regs), Val(z, row, regs)))
    case _ => Condition(Val(e, row, regs))
  }

  /** Its value. */
  function Val(e: Expr, row: nat -> Value, regs: Regs): Value
    decreases e, 0
  {
    match e
    case EColumn(i) => row(i)
    case ELiteral(v) => v
    case ERegister(r) => if r in regs then regs[r] else Null
    case EAdd(l, r) =>
      var v, w := Val(l, row, regs), Val(r, row, regs);
      if v.Num? && w.Num? then Num(w.r + v.r) else Null
    case EAnd(l, r) => Stored(Min(WholeCondition(Val(l, row, regs)), WholeCondition(Val(r, row, regs))))
    case EOr(l, r) => Stored(Max(WholeCondition(Val(l, row, regs)), WholeCondition(Val(r, row, regs))))
    case ENot(l) => Stored(2 - WholeCondition(Val(l, row, regs)))
    case ECmp(op, l, r) => Stored(Compared(op, Val(l, row, regs), Val(r, row, regs)))
    case EIsNull(l) => if Val(l, row, regs).Null? then Num(1.0) else Num(0.0)
    case ENotNull(l) => if Val(l, row, regs).Null? then Num(0.0) else Num(1.0)
    case EBetween(x, y, z) =>
      Stored(Min(Compared(Le, Val(y, row, regs), Val(x, row, regs)),
                 Compared(Le, Val(x, row, regs), Val(z, row, regs))))
    case ECase(x, whens, els) =>
      WhenVal(whens, x.Some?, if x.Some? then Val(x.e, row, regs) else Null,
              if els.Some? then Val(els.e, row, regs) else Null, row, regs)
  }

  /** CASE: the result of the first WHEN that holds, or equals the operand, else `other`. */
  function WhenVal(w: Whens, hasX: bool, x: Value, other: Value, row: nat -> Value, regs: Regs): Value
    decreases w, 0
  {
    match w
    case NoMore => other
    case When(test, result, rest) =>
      if (if hasX then x.Num? && Val(test, row, regs) == x else Rank(test, row, regs) == 2)
      then Val(result, row, regs)
      else WhenVal(rest, hasX, x, other, row, regs)
  }

  function RankOf(t: Tri): int {
    match t
    case False3 => 0
    case Null3 => 1
    case True3 => 2
  }

  // ---------- The machine's operations follow it ----------

  lemma TriRanks(a: Tri, b: Tri)
    ensures RankOf(And3(a, b)) == Min(RankOf(a), RankOf(b)) && RankOf(Or3(a, b)) == Max(RankOf(a), RankOf(b))
    ensures RankOf(Not3(a)) == 2 - RankOf(a) && FromTri(a) == Stored(RankOf(a))
  {
  }

  lemma ReadingRanks(v: Value)
    ensures RankOf(RealTruth(v)) == Condition(v) && RankOf(IntTruth(v)) == WholeCondition(v)
  {
  }

  lemma LogicStored(v: Value, w: Value)
    ensures FromTri(And3(IntTruth(v), IntTruth(w))) == Stored(Min(WholeCondition(v), WholeCondition(w)))
    ensures FromTri(Or3(IntTruth(v), IntTruth(w))) == Stored(Max(WholeCondition(v), WholeCondition(w)))
    ensures FromTri(Not3(IntTruth(v))) == Stored(2 - WholeCondition(v))
  {
    hide FromTri, And3, Or3, Not3, IntTruth, WholeCondition;
    var a, b := IntTruth(v), IntTruth(w);
    ReadingRanks(v);
    ReadingRanks(w);
    TriRanks(a, b);
    TriRanks(And3(a, b), True3);
    TriRanks(Or3(a, b), True3);
    TriRanks(Not3(a), True3);
  }

  lemma CompareRanks(env: Env, op: CmpOp, v: Value, w: Value)
    requires Numeric(env)
    ensures RankOf(CompareTri(env, op, v, w)) == Compared(op, v, w)
  {
    if v.Num? && w.Num? {
      assert env.cmp(Num(v.r), Num(w.r)) < 0 <==> v.r < w.r;
    }
  }

  /** What the code is proved to compute is what expressions mean. */
  lemma {:induction false} Means(e: Expr, env: Env, regs: Regs)
    requires Numeric(env)
    ensures Eval(e, env, regs) == Val(e, env.row, regs)
    ensures RankOf(Truth(e, env, regs)) == Rank(e, env.row, regs)
    decreases e, 2
  {
    ValueMeans(e, env, regs);
    match e
    case EAnd(l, r) =>
      Means(l, env, regs);
      Means(r, env, regs);
      TriRanks(Truth(l, env, regs), Truth(r, env, regs));
    case EOr(l, r) =>
      Means(l, env, regs);
      Means(r, env, regs);
      TriRanks(Truth(l, env, regs), Truth(r, env, regs));
    case ENot(l) =>
      Means(l, env, regs);
      TriRanks(Truth(l, env, regs), True3);
    case ECmp(op, l, r) =>
      ValueMeans(l, env, regs);
      ValueMeans(r, env, regs);
      CompareRanks(env, op, Eval(l, env, regs), Eval(r, env, regs));
    case EIsNull(l) => ValueMeans(l, env, regs);
    case ENotNull(l) => ValueMeans(l, env, regs);
    case EBetween(x, y, z) =>
      ValueMeans(x, env, regs);
      ValueMeans(y, env, regs);
      ValueMeans(z, env, regs);
      BetweenRanks(env, Eval(x, env, regs), Eval(y, env, regs), Eval(z, env, regs));
    case _ => ReadingRanks(Eval(e, env, regs));
  }

  lemma BetweenRanks(env: Env, vx: Value, vy: Value, vz: Value)
    requires Numeric(env)
    ensures var t := And3(CompareTri(env, Ge, vx, vy), CompareTri(env, Le, vx, vz));
            RankOf(t) == Min(Compared(Le, vy, vx), Compared(Le, vx, vz)) && FromTri(t) == Stored(RankOf(t))
  {
    hide FromTri, And3, CompareTri;
    CompareRanks(env, Ge, vx, vy);
    CompareRanks(env, Le, vx, vz);
    TriRanks(CompareTri(env, Ge, vx, vy), CompareTri(env, Le, vx, vz));
    TriRanks(And3(CompareTri(env, Ge, vx, vy), CompareTri(env, Le, vx, vz)), True3);
  }

  lemma {:induction false} ValueMeans(e: Expr, env: Env, regs: Regs)
    requires Numeric(env)
    ensures Eval(e, env, regs) == Val(e, env.row, regs)
    decreases e, 1
  {
    if e.EAnd? || e.EOr? || e.ENot? {
      LogicMeans(e, env, regs);
    } else if e.EBetween? {
      BetweenMeans(e, env, regs);
    } else if e.ECase? {
      CaseMeans(e, env, regs);
    } else {
      SimpleMeans(e, env, regs);
    }
  }

  lemma {:induction false} SimpleMeans(e: Expr, env: Env, regs: Regs)
    requires Numeric(env) && !e.EAnd? && !e.EOr? && !e.ENot? && !e.EBetween? && !e.ECase?
    ensures Eval(e, env, regs) == Val(e, env.row, regs)
    decreases e, 0
  {
    hide FromTri, CompareTri, Compared, Stored;
    match e
    case EColumn(_) =>
    case ELiteral(_) =>
    case ERegister(_) =>
    case EAdd(l, r) =>
      ValueMeans(l, env, regs);
      ValueMeans(r, env, regs);
    case ECmp(op, l, r) =>
      ValueMeans(l, env, regs);
      ValueMeans(r, env, regs);
      CompareRanks(env, op, Eval(l, env, regs), Eval(r, env, regs));
      TriRanks(CompareTri(env, op, Eval(l, env, regs), Eval(r, env, regs)), True3);
    case EIsNull(l) => ValueMeans(l, env, regs);
    case ENotNull(l) => ValueMeans(l, env, regs);
  }

  lemma {:induction false} LogicMeans(e: Expr, env: Env, regs: Regs)
    requires Numeric(env) && (e.EAnd? || e.EOr? || e.ENot?)
    ensures Eval(e, env, regs) == Val(e, env.row, regs)
    decreases e, 0
  {
    hide FromTri, And3, Or3, Not3, IntTruth, WholeCondition, Stored;
    match e
    case EAnd(l, r) =>
      ValueMeans(l, env, regs);
      ValueMeans(r, env, regs);
      LogicStored(Eval(l, env, regs), Eval(r, env, regs));
    case EOr(l, r) =>
      ValueMeans(l, env, regs);
      ValueMeans(r, env, regs);
      LogicStored(Eval(l, env, regs), Eval(r, env, regs));
    case ENot(l) =>
      ValueMeans(l, env, regs);
      LogicStored(Eval(l, env, regs), Null);
  }

  lemma {:induction false} BetweenMeans(e: Expr, env: Env, regs: Regs)
    requires Numeric(env) && e.EBetween?
    ensures Eval(e, env, regs) == Val(e, env.row, regs)
    decreases e, 0
  {
    hide FromTri, And3, CompareTri, Compared, Stored;
    ValueMeans(e.x, env, regs);
    ValueMeans(e.y, env, regs);
    ValueMeans(e.z, env, regs);
    BetweenRanks(env, Eval(e.x, env, regs), Eval(e.y, env, regs), Eval(e.z, env, regs));
  }

  lemma {:induction false} CaseMeans(e: Expr, env: Env, regs: Regs)
    requires Numeric(env) && e.ECase?
    ensures Eval(e, env, regs) == Val(e, env.row, regs)
    decreases e, 0
  {
    var x, els := e.base, e.els;
    if x.Some? {
      ValueMeans(x.e, env, regs);
    }
    if els.Some? {
      ValueMeans(els.e, env, regs);
    }
    WhensMean(e.whens, x.Some?, if x.Some? then Eval(x.e, env, regs) else Null,
              if els.Some? then Eval(els.e, env, regs) else Null, env, regs);
  }

  lemma {:induction false} WhensMean(w: Whens, hasX: bool, x: Value, other: Value, env: Env, regs: Regs)
    requires Numeric(env)
    ensures WhenVal(w, hasX, x, other, env.row, regs) ==
            match EvalWhens(w, hasX, x, env, regs)
            case Found(v) => v
            case NotFound => other
    decreases w, 0
  {
    match w
    case NoMore =>
    case When(test, result, rest) =>
      Means(test, env, regs);
      ValueMeans(result, env, regs);
      CompareRanks(env, Eq, x, Eval(test, env, regs));
      WhensMean(rest, hasX, x, other, env, regs);
  }

  // ---------- The code ----------

  /** For every source expression and row, the code of sqlite3ExprIfTrue goes to the target exactly if the
      expression is true, or NULL with jumpIfNull set, and that of sqlite3ExprIfFalse exactly if it is
      false, or NULL with jumpIfNull set; otherwise it goes on behind its own end. */
  lemma ConditionMeans(e: Expr, onTrue: bool, dest: Dest, jin: bool, st: Parse, code: seq<Op>,
                       labels: map<nat, nat>, env: Env, regs: Regs)
    requires Numeric(env) && Mentioned(e) == {}
    requires Extends(code, labels, Jump(e, onTrue, dest, jin, st))
    requires Outside(dest, labels, st, Jump(e, onTrue, dest, jin, st))
    ensures var lo, hi := |st.ops|, |Jump(e, onTrue, dest, jin, st).ops|;
            var s, k := Run(code, labels, env, lo, hi, lo, regs), Rank(e, env.row, regs);
            && s.At?
            && s.pc == if k == (if onTrue then 2 else 0) || (k == 1 && jin) then Target(dest, labels) else hi
  {
    Means(e, env, regs);
    TriRanks(Truth(e, env, regs), True3);
    ConditionCode(e, onTrue, dest, jin, st, code, labels, env, regs);
  }

  /** The code of sqlite3ExprCodeTarget leaves the value in the register it returns. */
  lemma TargetMeans(e: Expr, target: nat, st: Parse, code: seq<Op>, labels: map<nat, nat>, env: Env, regs: Regs)
    requires Numeric(env) && Mentioned(e) == {} && target <= st.nMem && RegsOk(e, st.nMem, target)
    requires Extends(code, labels, CodeTarget(e, target, st).0)
    ensures var (st', r) := CodeTarget(e, target, st);
            var s := Run(code, labels, env, |st.ops|, |st'.ops|, |st.ops|, regs);
            s.At? && s.pc == |st'.ops| && Get(s.regs, r) == Val(e, env.row, regs)
  {
    Means(e, env, regs);
    TargetOk(e, target, st, code, labels, env, regs);
  }

  /** The six comparisons of two numbers, and BETWEEN, as conditions. */
  lemma ComparisonsMean(op: CmpOp, a: real, b: real, c: real, dest: Dest, jin: bool, st: Parse, code: seq<Op>,
                        labels: map<nat, nat>, env: Env, regs: Regs)
    requires Numeric(env)
    ensures var e := ECmp(op, ELiteral(Num(a)), ELiteral(Num(b)));
            var st' := IfTrue(e, dest, jin, st);
            Extends(code, labels, st') && Outside(dest, labels, st, st') ==>
              var s := Run(code, labels, env, |st.ops|, |st'.ops|, |st.ops|, regs);
              var holds := match op
                           case Lt => a < b
                           case Le => a <= b
                           case Gt => a > b
                           case Ge => a >= b
                           case Ne => a != b
                           case Eq => a == b;
              s.At? && s.pc == if holds then Target(dest, labels) else |st'.ops|
    ensures var e := EBetween(ELiteral(Num(a)), ELiteral(Num(b)), ELiteral(Num(c)));
            var st' := IfTrue(e, dest, jin, st);
            Extends(code, labels, st') && Outside(dest, labels, st, st') ==>
              var s := Run(code, labels, env, |st.ops|, |st'.ops|, |st.ops|, regs);
              s.At? && s.pc == if b <= a <= c then Target(dest, labels) else |st'.ops|
  {
    var cmp, between := ECmp(op, ELiteral(Num(a)), ELiteral(Num(b))),
                        EBetween(ELiteral(Num(a)), ELiteral(Num(b)), ELiteral(Num(c)));
    assert Val(ELiteral(Num(a)), env.row, regs) == Num(a) && Val(ELiteral(Num(b)), env.row, regs) == Num(b) &&
           Val(ELiteral(Num(c)), env.row, regs) == Num(c);
    var st1, st2 := IfTrue(cmp, dest, jin, st), IfTrue(between, dest, jin, st);
    if Extends(code, labels, st1) && Outside(dest, labels, st, st1) {
      ConditionMeans(cmp, true, dest, jin, st, code, labels, env, regs);
    }
    if Extends(code, labels, st2) && Outside(dest, labels, st, st2) {
      ConditionMeans(between, true, dest, jin, st, code, labels, env, regs);
    }
  }
}
