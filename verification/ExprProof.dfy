/**
 Correctness of the generated code: jump code jumps exactly when SQL's three-valued logic says so,
 and value code leaves the value in its register, for every expression, row and comparison function.
 */
module ExprProof {
  import opened Vdbe
  import opened ExprCode

  /** Code and labels that contain everything generated so far. */
  predicate Extends(code: seq<Op>, labels: map<nat, nat>, st: Parse) {
    && st.ops <= code
    && forall i :: 0 <= i < |st.fixups| ==> Target(Label(st.fixups[i].0), labels) == st.fixups[i].1
  }

  /** Registers up to n hold the same values, except perhaps register t. */
  predicate AgreeBut(regs: Regs, regs': Regs, n: nat, t: nat) {
    forall r :: 0 <= r <= n && r != t ==> Get(regs, r) == Get(regs', r)
  }

  /** The registers an expression refers to. */
  function Mentioned(e: Expr): set<nat> {
    match e
    case EColumn(_) => {}
    case ELiteral(_) => {}
    case ERegister(r) => {r}
    case EAdd(l, r) => Mentioned(l) + Mentioned(r)
    case EAnd(l, r) => Mentioned(l) + Mentioned(r)
    case EOr(l, r) => Mentioned(l) + Mentioned(r)
    case ENot(l) => Mentioned(l)
    case ECmp(_, l, r) => Mentioned(l) + Mentioned(r)
    case EIsNull(l) => Mentioned(l)
    case ENotNull(l) => Mentioned(l)
    case EBetween(x, y, z) => Mentioned(x) + Mentioned(y) + Mentioned(z)
    case ECase(x, whens, els) => OperandMentioned(x) + WhensMentioned(whens) + OperandMentioned(els)
  }

  function OperandMentioned(o: Operand): set<nat> {
    if o.Some? then Mentioned(o.e) else {}
  }

  function WhensMentioned(w: Whens): set<nat> {
    match w
    case NoMore => {}
    case When(test, result, rest) => Mentioned(test) + Mentioned(result) + WhensMentioned(rest)
  }

  /** NOT is nowhere applied to a register, which OP_Not would overwrite. */
  predicate Clean(e: Expr) {
    match e
    case EColumn(_) => true
    case ELiteral(_) => true
    case ERegister(_) => true
    case EAdd(l, r) => Clean(l) && Clean(r)
    case EAnd(l, r) => Clean(l) && Clean(r)
    case EOr(l, r) => Clean(l) && Clean(r)
    case ENot(l) => !l.ERegister? && Clean(l)
    case ECmp(_, l, r) => Clean(l) && Clean(r)
    case EIsNull(l) => Clean(l)
    case ENotNull(l) => Clean(l)
    case EBetween(x, y, z) => Clean(x) && Clean(y) && Clean(z)
    case ECase(x, whens, els) => (x.Some? ==> Clean(x.e)) && WhensClean(whens) && (els.Some? ==> Clean(els.e))
  }

  predicate WhensClean(w: Whens) {
    match w
    case NoMore => true
    case When(test, result, rest) => Clean(test) && Clean(result) && WhensClean(rest)
  }

  predicate Within(rs: set<nat>, n: nat, t: nat) {
    forall r :: r in rs ==> r <= n && r != t
  }

  /** The registers e refers to lie in 0..n and are not t. Source expressions, which refer to no
      registers, always qualify. */
  predicate RegsOk(e: Expr, n: nat, t: nat) {
    Clean(e) && Within(Mentioned(e), n, t)
  }

  predicate OperandOk(o: Operand, n: nat, t: nat) {
    o.Some? ==> RegsOk(o.e, n, t)
  }

  predicate WhensOk(w: Whens, n: nat, t: nat) {
    WhensClean(w) && Within(WhensMentioned(w), n, t)
  }

  lemma ExtendsEarlier(code: seq<Op>, labels: map<nat, nat>, st: Parse, st': Parse)
    requires Grows(st, st') && Extends(code, labels, st')
    ensures Extends(code, labels, st)
  {
    forall i | 0 <= i < |st.fixups|
      ensures Target(Label(st.fixups[i].0), labels) == st.fixups[i].1
    {
      assert st.fixups[i] == st'.fixups[i];
    }
  }

  predicate AgreeOn(regs: Regs, regs': Regs, rs: set<nat>) {
    forall r :: r in rs ==> Get(regs, r) == Get(regs', r)
  }

  /** An expression means the same under registers that agree where it looks. */
  lemma {:induction false} SameOn(e: Expr, env: Env, regs: Regs, regs': Regs)
    requires AgreeOn(regs, regs', Mentioned(e))
    ensures Eval(e, env, regs) == Eval(e, env, regs') && Truth(e, env, regs) == Truth(e, env, regs')
    decreases e, 1
  {
    match e
    case EColumn(_) =>
    case ELiteral(_) =>
    case ERegister(_) =>
    case EAdd(l, r) => SameOn(l, env, regs, regs'); SameOn(r, env, regs, regs');
    case EAnd(l, r) => SameOn(l, env, regs, regs'); SameOn(r, env, regs, regs');
    case EOr(l, r) => SameOn(l, env, regs, regs'); SameOn(r, env, regs, regs');
    case ENot(l) => SameOn(l, env, regs, regs');
    case ECmp(_, l, r) => SameOn(l, env, regs, regs'); SameOn(r, env, regs, regs');
    case EIsNull(l) => SameOn(l, env, regs, regs');
    case ENotNull(l) => SameOn(l, env, regs, regs');
    case EBetween(x, y, z) => SameOn(x, env, regs, regs'); SameOn(y, env, regs, regs'); SameOn(z, env, regs, regs');
    case ECase(x, whens, els) =>
      if x.Some? {
        assert Mentioned(x.e) <= OperandMentioned(x) <= Mentioned(e);
        SameOn(x.e, env, regs, regs');
      }
      if els.Some? {
        assert Mentioned(els.e) <= OperandMentioned(els) <= Mentioned(e);
        SameOn(els.e, env, regs, regs');
      }
      SameWhens(whens, x.Some?, if x.Some? then Eval(x.e, env, regs) else Null, env, regs, regs');
  }

  lemma {:induction false} SameWhens(w: Whens, hasX: bool, x: Value, env: Env, regs: Regs, regs': Regs)
    requires AgreeOn(regs, regs', WhensMentioned(w))
    ensures EvalWhens(w, hasX, x, env, regs) == EvalWhens(w, hasX, x, env, regs')
    decreases w, 0
  {
    match w
    case NoMore =>
    case When(test, result, rest) =>
      SameOn(test, env, regs, regs');
      SameOn(result, env, regs, regs');
      SameWhens(rest, hasX, x, env, regs, regs');
  }

  lemma SameMeaning(e: Expr, env: Env, n: nat, t: nat, regs: Regs, regs': Regs)
    requires RegsOk(e, n, t) && AgreeBut(regs, regs', n, t)
    ensures Eval(e, env, regs) == Eval(e, env, regs') && Truth(e, env, regs) == Truth(e, env, regs')
  {
    SameOn(e, env, regs, regs');
  }

  // ---------- What the code of each generator does ----------

  /** Run from the first instruction of st to the end of st', ending at `pc` with the registers of
      st, other than t, as they were. */
  ghost predicate Arrives(code: seq<Op>, labels: map<nat, nat>, env: Env, st: Parse, st': Parse, regs: Regs, pc: nat,
                          t: nat)
    requires |st'.ops| <= |code|
  {
    var m := Run(code, labels, env, |st.ops|, |st'.ops|, |st.ops|, regs);
    m.At? && m.pc == pc && AgreeBut(regs, m.regs, st.nMem, t)
  }

  function After(code: seq<Op>, labels: map<nat, nat>, env: Env, st: Parse, st': Parse, regs: Regs): Regs
    requires |st'.ops| <= |code|
  {
    var m := Run(code, labels, env, |st.ops|, |st'.ops|, |st.ops|, regs);
    if m.At? then m.regs else regs
  }

  /** Two stretches of code one after the other: the second starts where the first falls through. */
  lemma Sequence(code: seq<Op>, labels: map<nat, nat>, env: Env, st: Parse, s1: Parse, s2: Parse, regs: Regs, pc: nat,
                 t: nat, t2: nat)
    requires |st.ops| <= |s1.ops| <= |s2.ops| <= |code| && st.nMem <= s1.nMem
    requires Arrives(code, labels, env, st, s1, regs, |s1.ops|, t)
    requires Arrives(code, labels, env, s1, s2, After(code, labels, env, st, s1, regs), pc, t2)
    requires pc < |st.ops| || |s2.ops| <= pc
    requires t2 == t || t2 > st.nMem
    ensures Arrives(code, labels, env, st, s2, regs, pc, t)
    ensures After(code, labels, env, st, s2, regs) ==
            After(code, labels, env, s1, s2, After(code, labels, env, st, s1, regs))
  {
    var lo, mid, hi := |st.ops|, |s1.ops|, |s2.ops|;
    var r1 := After(code, labels, env, st, s1, regs);
    RunInner(code, labels, env, lo, hi, lo, mid, lo, regs);
    RunInner(code, labels, env, lo, hi, mid, hi, mid, r1);
  }

  /** A first stretch that jumps out of the whole. */
  lemma LeavesEarly(code: seq<Op>, labels: map<nat, nat>, env: Env, st: Parse, s1: Parse, s2: Parse, regs: Regs,
                    pc: nat, t: nat)
    requires |st.ops| <= |s1.ops| <= |s2.ops| <= |code|
    requires Arrives(code, labels, env, st, s1, regs, pc, t)
    requires pc < |st.ops| || |s2.ops| <= pc
    ensures Arrives(code, labels, env, st, s2, regs, pc, t)
    ensures After(code, labels, env, st, s2, regs) == After(code, labels, env, st, s1, regs)
  {
    RunInner(code, labels, env, |st.ops|, |s2.ops|, |st.ops|, |s1.ops|, |st.ops|, regs);
  }

  /** A first stretch that either leaves at `out` or falls through into the second. */
  lemma Either(code: seq<Op>, labels: map<nat, nat>, env: Env, st: Parse, s1: Parse, s2: Parse, regs: Regs,
               leaves: bool, out: nat, pc: nat, t: nat, t2: nat)
    requires |st.ops| <= |s1.ops| <= |s2.ops| <= |code| && st.nMem <= s1.nMem
    requires Arrives(code, labels, env, st, s1, regs, if leaves then out else |s1.ops|, t)
    requires leaves || Arrives(code, labels, env, s1, s2, After(code, labels, env, st, s1, regs), pc, t2)
    requires out < |st.ops| || |s2.ops| <= out
    requires pc < |st.ops| || |s2.ops| <= pc
    requires t2 == t || t2 > st.nMem
    ensures Arrives(code, labels, env, st, s2, regs, if leaves then out else pc, t)
  {
    if leaves {
      LeavesEarly(code, labels, env, st, s1, s2, regs, out, t);
    } else {
      Sequence(code, labels, env, st, s1, s2, regs, pc, t, t2);
    }
  }

  /** One more instruction. */
  lemma OneOp(code: seq<Op>, labels: map<nat, nat>, env: Env, st: Parse, op: Op, regs: Regs)
    requires Extends(code, labels, Emit(st, op))
    requires var p := Step(op, labels, env, |st.ops|, regs).0; p < |st.ops| || |st.ops| < p
    ensures Run(code, labels, env, |st.ops|, |st.ops| + 1, |st.ops|, regs)
         == At(Step(op, labels, env, |st.ops|, regs).0, Step(op, labels, env, |st.ops|, regs).1)
  {
    assert code[|st.ops|] == Emit(st, op).ops[|st.ops|] == op;
  }

  /** The instruction at pc only stores v in register t. */
  predicate Writes(op: Op, labels: map<nat, nat>, env: Env, pc: nat, regs: Regs, t: nat, v: Value) {
    Step(op, labels, env, pc, regs).0 == pc + 1 && Step(op, labels, env, pc, regs).1 == regs[t := v]
  }

  /** The instruction at pc only goes to pc'. */
  predicate Jumps(op: Op, labels: map<nat, nat>, env: Env, pc: nat, regs: Regs, pc': nat) {
    Step(op, labels, env, pc, regs).0 == pc' && Step(op, labels, env, pc, regs).1 == regs
  }

  /** Straight-line code of one instruction that writes only register t. */
  lemma OneWrite(code: seq<Op>, labels: map<nat, nat>, env: Env, st: Parse, op: Op, regs: Regs, t: nat, v: Value)
    requires Extends(code, labels, Emit(st, op))
    requires Writes(op, labels, env, |st.ops|, regs, t, v)
    ensures Arrives(code, labels, env, st, Emit(st, op), regs, |st.ops| + 1, t)
    ensures After(code, labels, env, st, Emit(st, op), regs) == regs[t := v]
  {
    OneOp(code, labels, env, st, op, regs);
  }

  /** One conditional jump. */
  lemma OneJump(code: seq<Op>, labels: map<nat, nat>, env: Env, st: Parse, op: Op, regs: Regs, pc: nat)
    requires Extends(code, labels, Emit(st, op))
    requires Jumps(op, labels, env, |st.ops|, regs, pc)
    requires pc < |st.ops| || |st.ops| < pc
    ensures Arrives(code, labels, env, st, Emit(st, op), regs, pc, st.nMem + 1)
    ensures After(code, labels, env, st, Emit(st, op), regs) == regs
  {
    OneOp(code, labels, env, st, op, regs);
  }

  /** The code of st' computes e into register r, touching no register of st but t. */
  ghost predicate Computes(code: seq<Op>, labels: map<nat, nat>, env: Env, st: Parse, st': Parse, r: nat, v: Value,
                           regs: Regs, t: nat)
    requires |st'.ops| <= |code|
  {
    && Arrives(code, labels, env, st, st', regs, |st'.ops|, t)
    && Get(After(code, labels, env, st, st', regs), r) == v
    && r <= st'.nMem
  }

  lemma {:induction false} TargetRegister(e: Expr, target: nat, st: Parse)
    requires !e.ERegister? && RegsOk(e, st.nMem, target)
    ensures CodeTarget(e, target, st).1 == target
    decreases e
  {
    if e.ENot? {
      TargetRegister(e.e, target, st);
    }
  }

  lemma TempOk(e: Expr, st: Parse, code: seq<Op>, labels: map<nat, nat>, env: Env, regs: Regs)
    requires RegsOk(e, st.nMem, st.nMem + 1)
    requires Extends(code, labels, CodeTemp(e, st).0)
    ensures Computes(code, labels, env, st, CodeTemp(e, st).0, CodeTemp(e, st).1, Eval(e, env, regs), regs, st.nMem + 1)
    decreases Size(e), 2
  {
    hide Run, Eval, Truth, Mentioned, Clean, Get, CodeTarget;
    TargetOk(e, st.nMem + 1, st.(nMem := st.nMem + 1), code, labels, env, regs);
  }

  lemma OperandsOk(l: Expr, r: Expr, st: Parse, code: seq<Op>, labels: map<nat, nat>, env: Env, regs: Regs)
    requires RegsOk(l, st.nMem, st.nMem + 1) && RegsOk(r, st.nMem, st.nMem + 1)
    requires Extends(code, labels, CodeOperands(l, r, st).0)
    ensures var (s, r1, r2) := CodeOperands(l, r, st);
            && Computes(code, labels, env, st, s, r1, Eval(l, env, regs), regs, st.nMem + 1)
            && Computes(code, labels, env, st, s, r2, Eval(r, env, regs), regs, st.nMem + 1)
    decreases Size(l) + Size(r), 3
  {
    hide Run, CodeTarget, Truth, Eval, Mentioned, Clean;
    var (s1, r1) := CodeTemp(l, st);
    var (s2, r2) := CodeTemp(r, s1);
    ExtendsEarlier(code, labels, s1, s2);
    TempOk(l, st, code, labels, env, regs);
    var regs1 := After(code, labels, env, st, s1, regs);
    TempOk(r, s1, code, labels, env, regs1);
    SameMeaning(r, env, st.nMem, st.nMem + 1, regs, regs1);
    Sequence(code, labels, env, st, s1, s2, regs, |s2.ops|, st.nMem + 1, s1.nMem + 1);
  }

  /** A binary operator: both operands, then one instruction that stores v in target. */
  lemma StoreAfter(op: Op, target: nat, v: Value, st: Parse, s: Parse, code: seq<Op>, labels: map<nat, nat>, env: Env,
                   regs: Regs)
    requires target <= st.nMem <= s.nMem && |st.ops| <= |s.ops| && Extends(code, labels, Emit(s, op))
    requires Arrives(code, labels, env, st, s, regs, |s.ops|, st.nMem + 1)
    requires Writes(op, labels, env, |s.ops|, After(code, labels, env, st, s, regs), target, v)
    ensures Computes(code, labels, env, st, Emit(s, op), target, v, regs, target)
  {
    OneWrite(code, labels, env, s, op, After(code, labels, env, st, s, regs), target, v);
    Sequence(code, labels, env, st, s, Emit(s, op), regs, |s.ops| + 1, target, target);
  }

  lemma AddWrites(r2: nat, r1: nat, out: nat, labels: map<nat, nat>, env: Env, pc: nat, regs: Regs, v1: Value,
                  v2: Value)
    requires Get(regs, r1) == v1 && Get(regs, r2) == v2
    ensures Writes(Add(r2, r1, out), labels, env, pc, regs, out, AddValues(v1, v2))
  {
  }

  lemma AndWrites(r2: nat, r1: nat, out: nat, labels: map<nat, nat>, env: Env, pc: nat, regs: Regs, v1: Value,
                  v2: Value)
    requires Get(regs, r1) == v1 && Get(regs, r2) == v2
    ensures Writes(And(r2, r1, out), labels, env, pc, regs, out, FromTri(And3(IntTruth(v1), IntTruth(v2))))
  {
  }

  lemma OrWrites(r2: nat, r1: nat, out: nat, labels: map<nat, nat>, env: Env, pc: nat, regs: Regs, v1: Value, v2: Value)
    requires Get(regs, r1) == v1 && Get(regs, r2) == v2
    ensures Writes(Or(r2, r1, out), labels, env, pc, regs, out, FromTri(Or3(IntTruth(v1), IntTruth(v2))))
  {
  }

  lemma CompareWrites(op: CmpOp, r2: nat, out: nat, r1: nat, labels: map<nat, nat>, env: Env, pc: nat, regs: Regs,
                      v1: Value, v2: Value)
    requires Get(regs, r1) == v1 && Get(regs, r2) == v2
    ensures Writes(CompareStore(op, r2, out, r1), labels, env, pc, regs, out, FromTri(CompareTri(env, op, v1, v2)))
  {
  }

  lemma TargetOk(e: Expr, target: nat, st: Parse, code: seq<Op>, labels: map<nat, nat>, env: Env, regs: Regs)
    requires target <= st.nMem && RegsOk(e, st.nMem, target)
    requires Extends(code, labels, CodeTarget(e, target, st).0)
    ensures Computes(code, labels, env, st, CodeTarget(e, target, st).0, CodeTarget(e, target, st).1,
                     Eval(e, env, regs), regs, target)
    decreases Size(e), 1
  {
    match e
    case EColumn(i) => OneWrite(code, labels, env, st, Column(i, target), regs, target, env.row(i));
    case ELiteral(v) => OneWrite(code, labels, env, st, Const(v, target), regs, target, v);
    case ERegister(r) =>
    case EAdd(l, r) => AddOk(l, r, target, st, code, labels, env, regs);
    case EAnd(l, r) => AndOk(l, r, target, st, code, labels, env, regs);
    case EOr(l, r) => OrOk(l, r, target, st, code, labels, env, regs);
    case ECmp(op, l, r) => CompareOk(op, l, r, target, st, code, labels, env, regs);
    case ENot(l) => NotOk(l, target, st, code, labels, env, regs);
    case EIsNull(l) => NullTestOk(true, l, target, st, code, labels, env, regs);
    case ENotNull(l) => NullTestOk(false, l, target, st, code, labels, env, regs);
    case EBetween(x, y, z) => BetweenOk(x, y, z, target, st, code, labels, env, regs);
    case ECase(x, whens, els) => CaseOk(x, whens, els, target, st, code, labels, env, regs);
  }

  lemma AddOk(l: Expr, r: Expr, target: nat, st: Parse, code: seq<Op>, labels: map<nat, nat>, env: Env, regs: Regs)
    requires target <= st.nMem && RegsOk(l, st.nMem, target) && RegsOk(r, st.nMem, target)
    requires Extends(code, labels, CodeTarget(EAdd(l, r), target, st).0)
    ensures Computes(code, labels, env, st, CodeTarget(EAdd(l, r), target, st).0, target, Eval(EAdd(l, r), env, regs),
                     regs, target)
    decreases Size(l) + Size(r), 5
  {
    var (s, r1, r2) := CodeOperands(l, r, st);
    ExtendsEarlier(code, labels, s, Emit(s, Add(r2, r1, target)));
    OperandsOk(l, r, st, code, labels, env, regs);
    AddWrites(r2, r1, target, labels, env, |s.ops|, After(code, labels, env, st, s, regs), Eval(l, env, regs),
              Eval(r, env, regs));
    StoreAfter(Add(r2, r1, target), target, Eval(EAdd(l, r), env, regs), st, s, code, labels, env, regs);
  }

  lemma AndOk(l: Expr, r: Expr, target: nat, st: Parse, code: seq<Op>, labels: map<nat, nat>, env: Env, regs: Regs)
    requires target <= st.nMem && RegsOk(l, st.nMem, target) && RegsOk(r, st.nMem, target)
    requires Extends(code, labels, CodeTarget(EAnd(l, r), target, st).0)
    ensures Computes(code, labels, env, st, CodeTarget(EAnd(l, r), target, st).0, target, Eval(EAnd(l, r), env, regs),
                     regs, target)
    decreases Size(l) + Size(r), 5
  {
    var (s, r1, r2) := CodeOperands(l, r, st);
    ExtendsEarlier(code, labels, s, Emit(s, And(r2, r1, target)));
    OperandsOk(l, r, st, code, labels, env, regs);
    AndWrites(r2, r1, target, labels, env, |s.ops|, After(code, labels, env, st, s, regs), Eval(l, env, regs),
              Eval(r, env, regs));
    StoreAfter(And(r2, r1, target), target, Eval(EAnd(l, r), env, regs), st, s, code, labels, env, regs);
  }

  lemma OrOk(l: Expr, r: Expr, target: nat, st: Parse, code: seq<Op>, labels: map<nat, nat>, env: Env, regs: Regs)
    requires target <= st.nMem && RegsOk(l, st.nMem, target) && RegsOk(r, st.nMem, target)
    requires Extends(code, labels, CodeTarget(EOr(l, r), target, st).0)
    ensures Computes(code, labels, env, st, CodeTarget(EOr(l, r), target, st).0, target, Eval(EOr(l, r), env, regs),
                     regs, target)
    decreases Size(l) + Size(r), 5
  {
    var (s, r1, r2) := CodeOperands(l, r, st);
    ExtendsEarlier(code, labels, s, Emit(s, Or(r2, r1, target)));
    OperandsOk(l, r, st, code, labels, env, regs);
    OrWrites(r2, r1, target, labels, env, |s.ops|, After(code, labels, env, st, s, regs), Eval(l, env, regs),
             Eval(r, env, regs));
    StoreAfter(Or(r2, r1, target), target, Eval(EOr(l, r), env, regs), st, s, code, labels, env, regs);
  }

  lemma CompareOk(op: CmpOp, l: Expr, r: Expr, target: nat, st: Parse, code: seq<Op>, labels: map<nat, nat>, env: Env,
                  regs: Regs)
    requires target <= st.nMem && RegsOk(l, st.nMem, target) && RegsOk(r, st.nMem, target)
    requires Extends(code, labels, CodeTarget(ECmp(op, l, r), target, st).0)
    ensures Computes(code, labels, env, st, CodeTarget(ECmp(op, l, r), target, st).0, target,
                     Eval(ECmp(op, l, r), env, regs), regs, target)
    decreases Size(l) + Size(r), 5
  {
    var (s, r1, r2) := CodeOperands(l, r, st);
    ExtendsEarlier(code, labels, s, Emit(s, CompareStore(op, r2, target, r1)));
    OperandsOk(l, r, st, code, labels, env, regs);
    CompareWrites(op, r2, target, r1, labels, env, |s.ops|, After(code, labels, env, st, s, regs), Eval(l, env, regs),
                  Eval(r, env, regs));
    StoreAfter(CompareStore(op, r2, target, r1), target, Eval(ECmp(op, l, r), env, regs), st, s, code, labels, env,
               regs);
  }

  lemma NotOk(l: Expr, target: nat, st: Parse, code: seq<Op>, labels: map<nat, nat>, env: Env, regs: Regs)
    requires target <= st.nMem && RegsOk(ENot(l), st.nMem, target)
    requires Extends(code, labels, CodeTarget(ENot(l), target, st).0)
    ensures var (s, r) := CodeTarget(ENot(l), target, st);
            Computes(code, labels, env, st, s, r, Eval(ENot(l), env, regs), regs, target)
    decreases Size(l), 2
  {
    TargetRegister(l, target, st);
    var (s, r1) := CodeTarget(l, target, st);
    TargetOk(l, target, st, code, labels, env, regs);
    var regs1 := After(code, labels, env, st, s, regs);
    OneWrite(code, labels, env, s, Not(target), regs1, target, Eval(ENot(l), env, regs));
    Sequence(code, labels, env, st, s, Emit(s, Not(target)), regs, |s.ops| + 1, target, target);
  }

  lemma NullTestOk(isNull: bool, l: Expr, target: nat, st: Parse, code: seq<Op>, labels: map<nat, nat>, env: Env,
                   regs: Regs)
    requires target <= st.nMem && RegsOk(l, st.nMem, target)
    requires Extends(code, labels, CodeNullTest(isNull, l, target, st))
    ensures Computes(code, labels, env, st, CodeNullTest(isNull, l, target, st), target,
                     Bool(isNull == (Eval(l, env, regs) == Null)), regs, target)
    decreases Size(l), 3
  {
    hide Run, CodeTarget, Truth, Eval, Mentioned, Clean;
    var s0 := Emit(st, Const(Num(1.0), target));
    var (s1, r1) := CodeTemp(l, s0);
    var jump := NullJump(isNull, r1, Addr(|s1.ops| + 2));
    var s2, s3 := Emit(s1, jump), Emit(Emit(s1, jump), AddImm(target, -1));
    assert CodeNullTest(isNull, l, target, st) == s3;
    ExtendsEarlier(code, labels, s2, s3);
    ExtendsEarlier(code, labels, s1, s2);
    ExtendsEarlier(code, labels, s0, s1);
    OneWrite(code, labels, env, st, Const(Num(1.0), target), regs, target, Num(1.0));
    var regs0 := regs[target := Num(1.0)];
    SameMeaning(l, env, st.nMem, target, regs, regs0);
    TempOk(l, s0, code, labels, env, regs0);
    var regs1 := After(code, labels, env, s0, s1, regs0);
    Sequence(code, labels, env, st, s0, s1, regs, |s1.ops|, target, st.nMem + 1);
    NullTestTail(isNull, r1, Eval(l, env, regs), target, s1, s2, s3, code, labels, env, regs1);
    Sequence(code, labels, env, st, s1, s3, regs, |s3.ops|, target, target);
  }

  /** The jump over the decrement: register target, holding 1, ends as the result of the test. */
  lemma NullTestTail(isNull: bool, r1: nat, v: Value, target: nat, s1: Parse, s2: Parse, s3: Parse,
                     code: seq<Op>, labels: map<nat, nat>, env: Env, regs1: Regs)
    requires s2 == Emit(s1, NullJump(isNull, r1, Addr(|s1.ops| + 2))) && s3 == Emit(s2, AddImm(target, -1))
    requires Extends(code, labels, s2) && Extends(code, labels, s3)
    requires Get(regs1, r1) == v && Get(regs1, target) == Num(1.0)
    ensures Arrives(code, labels, env, s1, s3, regs1, |s3.ops|, target)
    ensures Get(After(code, labels, env, s1, s3, regs1), target) == Bool(isNull == (v == Null))
  {
    var jump := NullJump(isNull, r1, Addr(|s1.ops| + 2));
    if isNull == (v == Null) {
      OneJump(code, labels, env, s1, jump, regs1, |s1.ops| + 2);
      LeavesEarly(code, labels, env, s1, s2, s3, regs1, |s1.ops| + 2, s1.nMem + 1);
    } else {
      OneJump(code, labels, env, s1, jump, regs1, |s1.ops| + 1);
      OneWrite(code, labels, env, s2, AddImm(target, -1), regs1, target, Num(0.0));
      Sequence(code, labels, env, s1, s2, s3, regs1, |s3.ops|, target, target);
    }
  }

  lemma BetweenOk(x: Expr, y: Expr, z: Expr, target: nat, st: Parse, code: seq<Op>, labels: map<nat, nat>, env: Env,
                  regs: Regs)
    requires target <= st.nMem && RegsOk(EBetween(x, y, z), st.nMem, target)
    requires Extends(code, labels, CodeBetween(x, y, z, target, st))
    ensures Computes(code, labels, env, st, CodeBetween(x, y, z, target, st), target,
                     Eval(EBetween(x, y, z), env, regs), regs, target)
    decreases Size(x) + Size(y) + Size(z), 4
  {
    hide Run, CodeTarget, Truth;
    var (s1, r1, r2) := CodeOperands(x, y, st);
    var s2 := Emit(s1.(nMem := s1.nMem + 2), CompareStore(Ge, r2, s1.nMem + 1, r1));
    var s5 := CodeBetween(x, y, z, target, st);
    ExtendsEarlier(code, labels, s2, s5);
    BetweenLow(x, y, st, s1, r1, r2, s1.nMem + 1, s2, code, labels, env, regs);
    var regs2 := After(code, labels, env, st, s2, regs);
    SameMeaning(z, env, st.nMem, target, regs, regs2);
    var (s3, r2') := CodeTemp(z, s2);
    BetweenHigh(z, r1, s1.nMem + 1, s1.nMem + 2, target, Eval(x, env, regs),
                CompareTri(env, Ge, Eval(x, env, regs), Eval(y, env, regs)),
                s2, s3, r2', Emit(s3, CompareStore(Le, r2', s1.nMem + 2, r1)), s5, code, labels, env, regs2);
    Sequence(code, labels, env, st, s2.(nMem := s1.nMem), s5, regs, |s5.ops|, target, target);
  }

  /** BETWEEN up to the first comparison, whose result is stored in register r3. */
  lemma BetweenLow(x: Expr, y: Expr, st: Parse, s1: Parse, r1: nat, r2: nat, r3: nat, s2: Parse,
                   code: seq<Op>, labels: map<nat, nat>, env: Env, regs: Regs)
    requires RegsOk(x, st.nMem, st.nMem + 1) && RegsOk(y, st.nMem, st.nMem + 1)
    requires CodeOperands(x, y, st) == (s1, r1, r2) && r3 == s1.nMem + 1
    requires s2 == Emit(s1.(nMem := s1.nMem + 2), CompareStore(Ge, r2, r3, r1)) && Extends(code, labels, s2)
    ensures r1 <= s1.nMem
    ensures Arrives(code, labels, env, st, s2, regs, |s2.ops|, st.nMem + 1)
    ensures Get(After(code, labels, env, st, s2, regs), r1) == Eval(x, env, regs)
    ensures Get(After(code, labels, env, st, s2, regs), r3) ==
            FromTri(CompareTri(env, Ge, Eval(x, env, regs), Eval(y, env, regs)))
    decreases Size(x) + Size(y), 4
  {
    hide Run, CodeTarget, Truth, Eval, Mentioned, Clean;
    ExtendsEarlier(code, labels, s1, s2);
    OperandsOk(x, y, st, code, labels, env, regs);
    var regs1 := After(code, labels, env, st, s1, regs);
    var v := FromTri(CompareTri(env, Ge, Eval(x, env, regs), Eval(y, env, regs)));
    CompareWrites(Ge, r2, r3, r1, labels, env, |s1.ops|, regs1, Eval(x, env, regs), Eval(y, env, regs));
    OneWrite(code, labels, env, s1.(nMem := s1.nMem + 2), CompareStore(Ge, r2, r3, r1), regs1, r3, v);
    Sequence(code, labels, env, st, s1, s2, regs, |s2.ops|, st.nMem + 1, r3);
  }

  /** BETWEEN from the second operand on: vx is in r1 and the first comparison in r3. */
  lemma BetweenHigh(z: Expr, r1: nat, r3: nat, r4: nat, target: nat, vx: Value, ge: Tri, s2: Parse, s3: Parse, r2: nat,
                    s4: Parse, s5: Parse,
                    code: seq<Op>, labels: map<nat, nat>, env: Env, regs: Regs)
    requires RegsOk(z, s2.nMem, s2.nMem + 1) && r1 < r3 < r4 <= s2.nMem && target <= s2.nMem
    requires Get(regs, r1) == vx && Get(regs, r3) == FromTri(ge)
    requires CodeTemp(z, s2) == (s3, r2)
    requires s4 == Emit(s3, CompareStore(Le, r2, r4, r1)) && s5 == Emit(s4, And(r3, r4, target)) &&
             Extends(code, labels, s5)
    ensures Arrives(code, labels, env, s2.(nMem := r3 - 1), s5, regs, |s5.ops|, target)
    ensures Get(After(code, labels, env, s2, s5, regs), target) ==
            FromTri(And3(ge, CompareTri(env, Le, vx, Eval(z, env, regs))))
    decreases Size(z), 3
  {
    hide Run, CodeTarget, Truth, Eval, Mentioned, Clean;
    ExtendsEarlier(code, labels, s4, s5);
    ExtendsEarlier(code, labels, s3, s4);
    TempOk(z, s2, code, labels, env, regs);
    var regs3 := After(code, labels, env, s2, s3, regs);
    var le := CompareTri(env, Le, vx, Eval(z, env, regs));
    CompareWrites(Le, r2, r4, r1, labels, env, |s3.ops|, regs3, vx, Eval(z, env, regs));
    OneWrite(code, labels, env, s3, CompareStore(Le, r2, r4, r1), regs3, r4, FromTri(le));
    var regs4 := regs3[r4 := FromTri(le)];
    var low := s2.(nMem := r3 - 1);
    Sequence(code, labels, env, low, s3, s4, regs, |s4.ops|, s2.nMem + 1, r4);
    BetweenAndStep(r3, r4, target, ge, le, regs4, labels, env, |s4.ops|);
    OneWrite(code, labels, env, s4, And(r3, r4, target), regs4, target, FromTri(And3(ge, le)));
    Sequence(code, labels, env, low, s4, s5, regs, |s5.ops|, target, target);
  }

  lemma BetweenAndStep(r3: nat, r4: nat, target: nat, ge: Tri, le: Tri, regs: Regs, labels: map<nat, nat>, env: Env,
                       pc: nat)
    requires Get(regs, r3) == FromTri(ge) && Get(regs, r4) == FromTri(le)
    ensures Writes(And(r3, r4, target), labels, env, pc, regs, target, FromTri(And3(ge, le)))
  {
    AndWrites(r3, r4, target, labels, env, pc, regs, FromTri(le), FromTri(ge));
  }

  lemma IntoOk(e: Expr, target: nat, st: Parse, code: seq<Op>, labels: map<nat, nat>, env: Env, regs: Regs)
    requires target <= st.nMem && RegsOk(e, st.nMem, target)
    requires Extends(code, labels, CodeInto(e, target, st))
    ensures Computes(code, labels, env, st, CodeInto(e, target, st), target, Eval(e, env, regs), regs, target)
    decreases Size(e), 2
  {
    var (s, r1) := CodeTarget(e, target, st);
    ExtendsEarlier(code, labels, s, CodeInto(e, target, st));
    TargetOk(e, target, st, code, labels, env, regs);
    if r1 != target {
      var regs1 := After(code, labels, env, st, s, regs);
      OneWrite(code, labels, env, s, SCopy(r1, target), regs1, target, Eval(e, env, regs));
      Sequence(code, labels, env, st, s, Emit(s, SCopy(r1, target)), regs, |s.ops| + 1, target, target);
    }
  }

  // ---------- Jumps ----------

  /** Code that jumps to `dest` when t, or NULL with jumpIfNull, says so, and else falls through. */
  ghost predicate Branches(code: seq<Op>, labels: map<nat, nat>, env: Env, st: Parse, st': Parse, t: Tri, dest: Dest,
                           jumpIfNull: bool, regs: Regs)
    requires |st'.ops| <= |code|
  {
    Arrives(code, labels, env, st, st', regs, if Takes(t, jumpIfNull) then Target(dest, labels) else |st'.ops|,
            st.nMem + 1)
  }

  predicate Outside(d: Dest, labels: map<nat, nat>, st: Parse, st': Parse) {
    Target(d, labels) < |st.ops| || |st'.ops| <= Target(d, labels)
  }

  function Goal(t: Tri, dest: Dest, jumpIfNull: bool, labels: map<nat, nat>, st': Parse): nat {
    if Takes(t, jumpIfNull) then Target(dest, labels) else |st'.ops|
  }

  /** Every jump coded by sqlite3ExprIfTrue is taken exactly when the expression is true, or is NULL
      and jumpIfNull is set. */
  lemma IfTrueOk(e: Expr, dest: Dest, jin: bool, st: Parse, code: seq<Op>, labels: map<nat, nat>, env: Env, regs: Regs)
    requires RegsOk(e, st.nMem, st.nMem + 1)
    requires Extends(code, labels, IfTrue(e, dest, jin, st)) && Outside(dest, labels, st, IfTrue(e, dest, jin, st))
    ensures Branches(code, labels, env, st, IfTrue(e, dest, jin, st), Truth(e, env, regs), dest, jin, regs)
    decreases Size(e), 6
  {
    hide Run, CodeTarget, Get, CompareTri;
    match e
    case EAnd(l, r) => IfTrueAnd(l, r, dest, jin, st, code, labels, env, regs);
    case EOr(l, r) => IfTrueOr(l, r, dest, jin, st, code, labels, env, regs);
    case ENot(l) => IfFalseOk(l, dest, jin, st, code, labels, env, regs);
    case ECmp(op, l, r) => CompareJumpOk(op, l, r, dest, jin, st, code, labels, env, regs);
    case EIsNull(l) => NullJumpOk(true, l, dest, jin, st, code, labels, env, regs);
    case ENotNull(l) => NullJumpOk(false, l, dest, jin, st, code, labels, env, regs);
    case EBetween(x, y, z) => IfTrueBetween(x, y, z, dest, jin, st, code, labels, env, regs);
    case _ => CodeJumpOk(e, true, dest, jin, st, code, labels, env, regs);
  }

  /** Dually for sqlite3ExprIfFalse: taken exactly when the expression is false, or is NULL and
      jumpIfNull is set. */
  lemma IfFalseOk(e: Expr, dest: Dest, jin: bool, st: Parse, code: seq<Op>, labels: map<nat, nat>, env: Env, regs: Regs)
    requires RegsOk(e, st.nMem, st.nMem + 1)
    requires Extends(code, labels, IfFalse(e, dest, jin, st)) && Outside(dest, labels, st, IfFalse(e, dest, jin, st))
    ensures Branches(code, labels, env, st, IfFalse(e, dest, jin, st), Not3(Truth(e, env, regs)), dest, jin, regs)
    decreases Size(e), 6
  {
    hide Run, CodeTarget, Get, CompareTri;
    match e
    case EAnd(l, r) => IfFalseAnd(l, r, dest, jin, st, code, labels, env, regs);
    case EOr(l, r) => IfFalseOr(l, r, dest, jin, st, code, labels, env, regs);
    case ENot(l) => IfTrueOk(l, dest, jin, st, code, labels, env, regs);
    case ECmp(op, l, r) =>
      OppositeNegates(env, op, Eval(l, env, regs), Eval(r, env, regs));
      CompareJumpOk(Opposite(op), l, r, dest, jin, st, code, labels, env, regs);
    case EIsNull(l) => NullJumpOk(false, l, dest, jin, st, code, labels, env, regs);
    case ENotNull(l) => NullJumpOk(true, l, dest, jin, st, code, labels, env, regs);
    case EBetween(x, y, z) => IfFalseBetween(x, y, z, dest, jin, st, code, labels, env, regs);
    case _ => CodeJumpOk(e, false, dest, jin, st, code, labels, env, regs);
  }

  /** The opcode chosen for a jump on false is the exact complement, NULL aside. */
  lemma OppositeNegates(env: Env, op: CmpOp, a: Value, b: Value)
    ensures CompareTri(env, Opposite(op), a, b) == Not3(CompareTri(env, op, a, b))
  {
  }

  lemma IfTrueAnd(l: Expr, r: Expr, dest: Dest, jin: bool, st: Parse, code: seq<Op>, labels: map<nat, nat>, env: Env,
                  regs: Regs)
    requires RegsOk(l, st.nMem, st.nMem + 1) && RegsOk(r, st.nMem, st.nMem + 1)
    requires Extends(code, labels, IfTrue(EAnd(l, r), dest, jin, st)) &&
             Outside(dest, labels, st, IfTrue(EAnd(l, r), dest, jin, st))
    ensures Branches(code, labels, env, st, IfTrue(EAnd(l, r), dest, jin, st),
                     And3(Truth(l, env, regs), Truth(r, env, regs)), dest, jin, regs)
    decreases Size(l) + Size(r), 7
  {
    hide Run, Truth, Eval, RegsOk, Get, CodeTarget, AgreeBut;
    var d2, s0 := st.nLabel, st.(nLabel := st.nLabel + 1);
    var s1 := IfFalse(l, Label(d2), !jin, s0);
    var s2 := IfTrue(r, dest, jin, s1);
    AndOrLabel(s0, s1, s2, d2, code, labels);
    IfFalseOk(l, Label(d2), !jin, s0, code, labels, env, regs);
    SecondOperand(r, s0, s1, code, labels, env, regs);
    IfTrueOk(r, dest, jin, s1, code, labels, env, After(code, labels, env, s0, s1, regs));
    Either(code, labels, env, s0, s1, s2, regs, Takes(Not3(Truth(l, env, regs)), !jin), |s2.ops|,
           Goal(Truth(r, env, regs), dest, jin, labels, s2), st.nMem + 1, s1.nMem + 1);
  }

  lemma IfTrueOr(l: Expr, r: Expr, dest: Dest, jin: bool, st: Parse, code: seq<Op>, labels: map<nat, nat>, env: Env,
                 regs: Regs)
    requires RegsOk(l, st.nMem, st.nMem + 1) && RegsOk(r, st.nMem, st.nMem + 1)
    requires Extends(code, labels, IfTrue(EOr(l, r), dest, jin, st)) &&
             Outside(dest, labels, st, IfTrue(EOr(l, r), dest, jin, st))
    ensures Branches(code, labels, env, st, IfTrue(EOr(l, r), dest, jin, st),
                     Or3(Truth(l, env, regs), Truth(r, env, regs)), dest, jin, regs)
    decreases Size(l) + Size(r), 7
  {
    hide Run, Truth, Eval, RegsOk, Get, CodeTarget, AgreeBut;
    var s1 := IfTrue(l, dest, jin, st);
    var s2 := IfTrue(r, dest, jin, s1);
    ExtendsEarlier(code, labels, s1, s2);
    IfTrueOk(l, dest, jin, st, code, labels, env, regs);
    SecondOperand(r, st, s1, code, labels, env, regs);
    IfTrueOk(r, dest, jin, s1, code, labels, env, After(code, labels, env, st, s1, regs));
    Either(code, labels, env, st, s1, s2, regs, Takes(Truth(l, env, regs), jin), Target(dest, labels),
           Goal(Truth(r, env, regs), dest, jin, labels, s2), st.nMem + 1, s1.nMem + 1);
  }

  lemma IfFalseAnd(l: Expr, r: Expr, dest: Dest, jin: bool, st: Parse, code: seq<Op>, labels: map<nat, nat>, env: Env,
                   regs: Regs)
    requires RegsOk(l, st.nMem, st.nMem + 1) && RegsOk(r, st.nMem, st.nMem + 1)
    requires Extends(code, labels, IfFalse(EAnd(l, r), dest, jin, st)) &&
             Outside(dest, labels, st, IfFalse(EAnd(l, r), dest, jin, st))
    ensures Branches(code, labels, env, st, IfFalse(EAnd(l, r), dest, jin, st),
                     Not3(And3(Truth(l, env, regs), Truth(r, env, regs))), dest, jin, regs)
    decreases Size(l) + Size(r), 7
  {
    hide Run, Truth, Eval, RegsOk, Get, CodeTarget, AgreeBut;
    var s1 := IfFalse(l, dest, jin, st);
    var s2 := IfFalse(r, dest, jin, s1);
    ExtendsEarlier(code, labels, s1, s2);
    IfFalseOk(l, dest, jin, st, code, labels, env, regs);
    SecondOperand(r, st, s1, code, labels, env, regs);
    IfFalseOk(r, dest, jin, s1, code, labels, env, After(code, labels, env, st, s1, regs));
    Either(code, labels, env, st, s1, s2, regs, Takes(Not3(Truth(l, env, regs)), jin), Target(dest, labels),
           Goal(Not3(Truth(r, env, regs)), dest, jin, labels, s2), st.nMem + 1, s1.nMem + 1);
  }

  lemma IfFalseOr(l: Expr, r: Expr, dest: Dest, jin: bool, st: Parse, code: seq<Op>, labels: map<nat, nat>, env: Env,
                  regs: Regs)
    requires RegsOk(l, st.nMem, st.nMem + 1) && RegsOk(r, st.nMem, st.nMem + 1)
    requires Extends(code, labels, IfFalse(EOr(l, r), dest, jin, st)) &&
             Outside(dest, labels, st, IfFalse(EOr(l, r), dest, jin, st))
    ensures Branches(code, labels, env, st, IfFalse(EOr(l, r), dest, jin, st),
                     Not3(Or3(Truth(l, env, regs), Truth(r, env, regs))), dest, jin, regs)
    decreases Size(l) + Size(r), 7
  {
    hide Run, Truth, Eval, RegsOk, Get, CodeTarget, AgreeBut;
    var d2, s0 := st.nLabel, st.(nLabel := st.nLabel + 1);
    var s1 := IfTrue(l, Label(d2), !jin, s0);
    var s2 := IfFalse(r, dest, jin, s1);
    AndOrLabel(s0, s1, s2, d2, code, labels);
    IfTrueOk(l, Label(d2), !jin, s0, code, labels, env, regs);
    SecondOperand(r, s0, s1, code, labels, env, regs);
    IfFalseOk(r, dest, jin, s1, code, labels, env, After(code, labels, env, s0, s1, regs));
    Either(code, labels, env, s0, s1, s2, regs, Takes(Truth(l, env, regs), !jin), |s2.ops|,
           Goal(Not3(Truth(r, env, regs)), dest, jin, labels, s2), st.nMem + 1, s1.nMem + 1);
  }

  lemma IfTrueBetween(x: Expr, y: Expr, z: Expr, dest: Dest, jin: bool, st: Parse, code: seq<Op>, labels: map<nat, nat>,
                      env: Env, regs: Regs)
    requires RegsOk(EBetween(x, y, z), st.nMem, st.nMem + 1)
    requires Extends(code, labels, IfTrue(EBetween(x, y, z), dest, jin, st))
    requires Outside(dest, labels, st, IfTrue(EBetween(x, y, z), dest, jin, st))
    ensures Branches(code, labels, env, st, IfTrue(EBetween(x, y, z), dest, jin, st),
                     Truth(EBetween(x, y, z), env, regs), dest, jin, regs)
    decreases 5 + Size(x) + Size(y) + Size(z), 0
  {
    hide Run, CodeTarget, Eval, Get;
    var (s1, r1) := CodeTemp(x, st);
    var s2 := IfTrue(BetweenAnd(r1, y, z), dest, jin, s1);
    ExtendsEarlier(code, labels, s1, s2);
    BetweenOperand(x, y, z, st, s1, r1, code, labels, env, regs);
    IfTrueOk(BetweenAnd(r1, y, z), dest, jin, s1, code, labels, env, After(code, labels, env, st, s1, regs));
    Sequence(code, labels, env, st, s1, s2, regs, Goal(Truth(EBetween(x, y, z), env, regs), dest, jin, labels, s2),
             st.nMem + 1, s1.nMem + 1);
  }

  lemma IfFalseBetween(x: Expr, y: Expr, z: Expr, dest: Dest, jin: bool, st: Parse, code: seq<Op>, labels: map<nat,
                       nat>, env: Env, regs: Regs)
    requires RegsOk(EBetween(x, y, z), st.nMem, st.nMem + 1)
    requires Extends(code, labels, IfFalse(EBetween(x, y, z), dest, jin, st))
    requires Outside(dest, labels, st, IfFalse(EBetween(x, y, z), dest, jin, st))
    ensures Branches(code, labels, env, st, IfFalse(EBetween(x, y, z), dest, jin, st),
                     Not3(Truth(EBetween(x, y, z), env, regs)), dest, jin, regs)
    decreases 5 + Size(x) + Size(y) + Size(z), 0
  {
    hide Run, CodeTarget, Eval, Get;
    var (s1, r1) := CodeTemp(x, st);
    var s2 := IfFalse(BetweenAnd(r1, y, z), dest, jin, s1);
    ExtendsEarlier(code, labels, s1, s2);
    BetweenOperand(x, y, z, st, s1, r1, code, labels, env, regs);
    IfFalseOk(BetweenAnd(r1, y, z), dest, jin, s1, code, labels, env, After(code, labels, env, st, s1, regs));
    Sequence(code, labels, env, st, s1, s2, regs,
             Goal(Not3(Truth(EBetween(x, y, z), env, regs)), dest, jin, labels, s2), st.nMem + 1, s1.nMem + 1);
  }

  /** Any other expression: its value, then a jump on that value. */
  lemma CodeJumpOk(e: Expr, onTrue: bool, dest: Dest, jin: bool, st: Parse, code: seq<Op>, labels: map<nat, nat>,
                   env: Env, regs: Regs)
    requires RegsOk(e, st.nMem, st.nMem + 1)
    requires Extends(code, labels, CodeJump(e, onTrue, dest, jin, st)) &&
             Outside(dest, labels, st, CodeJump(e, onTrue, dest, jin, st))
    ensures var v := RealTruth(Eval(e, env, regs));
            Branches(code, labels, env, st, CodeJump(e, onTrue, dest, jin, st), if onTrue then v else Not3(v), dest,
                     jin, regs)
    decreases Size(e), 4
  {
    hide Run, CodeTarget, Eval, Truth, Mentioned, Clean;
    var (s1, r1) := CodeTemp(e, st);
    var op := if onTrue then If(r1, dest, jin) else IfNot(r1, dest, jin);
    ExtendsEarlier(code, labels, s1, Emit(s1, op));
    TempOk(e, st, code, labels, env, regs);
    var v := RealTruth(Eval(e, env, regs));
    JumpAfter(op, st, s1, code, labels, env, regs,
              Goal(if onTrue then v else Not3(v), dest, jin, labels, Emit(s1, op)));
  }

  /** The label that skips the second operand is resolved right behind it. */
  lemma AndOrLabel(s0: Parse, s1: Parse, s2: Parse, d2: nat, code: seq<Op>, labels: map<nat, nat>)
    requires Grows(s0, s1) && Grows(s1, s2)
    requires Extends(code, labels, ResolveLabel(s2, d2))
    ensures Extends(code, labels, s2) && Extends(code, labels, s1) && Target(Label(d2), labels) == |s2.ops|
  {
    var s3 := ResolveLabel(s2, d2);
    assert s3.fixups[|s2.fixups|] == (d2, |s2.ops|);
    ExtendsEarlier(code, labels, s2, s3);
    ExtendsEarlier(code, labels, s1, s2);
  }

  lemma SecondOperand(r: Expr, st: Parse, s1: Parse, code: seq<Op>, labels: map<nat, nat>, env: Env, regs: Regs)
    requires st.nMem <= s1.nMem && |s1.ops| <= |code| && RegsOk(r, st.nMem, st.nMem + 1)
    requires AgreeBut(regs, After(code, labels, env, st, s1, regs), st.nMem, st.nMem + 1)
    ensures RegsOk(r, s1.nMem, s1.nMem + 1)
    ensures Truth(r, env, After(code, labels, env, st, s1, regs)) == Truth(r, env, regs)
  {
    SameMeaning(r, env, st.nMem, st.nMem + 1, regs, After(code, labels, env, st, s1, regs));
  }

  lemma JumpAfter(op: Op, st: Parse, s1: Parse, code: seq<Op>, labels: map<nat, nat>, env: Env, regs: Regs, pc: nat)
    requires st.nMem <= s1.nMem && |st.ops| <= |s1.ops| && Extends(code, labels, Emit(s1, op))
    requires Arrives(code, labels, env, st, s1, regs, |s1.ops|, st.nMem + 1)
    requires Jumps(op, labels, env, |s1.ops|, After(code, labels, env, st, s1, regs), pc)
    requires pc < |st.ops| || |s1.ops| < pc
    ensures Arrives(code, labels, env, st, Emit(s1, op), regs, pc, st.nMem + 1)
  {
    OneJump(code, labels, env, s1, op, After(code, labels, env, st, s1, regs), pc);
    Sequence(code, labels, env, st, s1, Emit(s1, op), regs, pc, st.nMem + 1, s1.nMem + 1);
  }

  lemma CompareJumps(op: CmpOp, r2: nat, dest: Dest, r1: nat, jin: bool, labels: map<nat, nat>, env: Env, pc: nat,
                     regs: Regs, v1: Value, v2: Value)
    requires Get(regs, r1) == v1 && Get(regs, r2) == v2
    ensures Jumps(Compare(op, r2, dest, r1, jin), labels, env, pc, regs,
                  if Takes(CompareTri(env, op, v1, v2), jin) then Target(dest, labels) else pc + 1)
  {
  }

  lemma CompareJumpOk(op: CmpOp, l: Expr, r: Expr, dest: Dest, jin: bool, st: Parse, code: seq<Op>, labels: map<nat,
                      nat>, env: Env, regs: Regs)
    requires RegsOk(l, st.nMem, st.nMem + 1) && RegsOk(r, st.nMem, st.nMem + 1)
    requires var (s, r1, r2) := CodeOperands(l, r, st);
             && Extends(code, labels, Emit(s, Compare(op, r2, dest, r1, jin)))
             && Outside(dest, labels, st, Emit(s, Compare(op, r2, dest, r1, jin)))
    ensures var (s, r1, r2) := CodeOperands(l, r, st);
            Branches(code, labels, env, st, Emit(s, Compare(op, r2, dest, r1, jin)),
                     CompareTri(env, op, Eval(l, env, regs), Eval(r, env, regs)), dest, jin, regs)
    decreases Size(l) + Size(r), 4
  {
    var (s, r1, r2) := CodeOperands(l, r, st);
    var jump := Compare(op, r2, dest, r1, jin);
    ExtendsEarlier(code, labels, s, Emit(s, jump));
    OperandsOk(l, r, st, code, labels, env, regs);
    var t := CompareTri(env, op, Eval(l, env, regs), Eval(r, env, regs));
    CompareJumps(op, r2, dest, r1, jin, labels, env, |s.ops|, After(code, labels, env, st, s, regs), Eval(l, env, regs),
                 Eval(r, env, regs));
    JumpAfter(jump, st, s, code, labels, env, regs, if Takes(t, jin) then Target(dest, labels) else |s.ops| + 1);
  }

  lemma NullJumpOk(isNull: bool, l: Expr, dest: Dest, jin: bool, st: Parse, code: seq<Op>, labels: map<nat, nat>,
                   env: Env, regs: Regs)
    requires RegsOk(l, st.nMem, st.nMem + 1)
    requires var (s, r1) := CodeTemp(l, st);
             Extends(code, labels, Emit(s, NullJump(isNull, r1, dest))) &&
               Outside(dest, labels, st, Emit(s, NullJump(isNull, r1, dest)))
    ensures var (s, r1) := CodeTemp(l, st);
            Branches(code, labels, env, st, Emit(s, NullJump(isNull, r1, dest)),
                     if isNull == (Eval(l, env, regs) == Null) then True3 else False3, dest, jin, regs)
    decreases Size(l), 4
  {
    hide Run, CodeTarget, Eval, Truth, Mentioned, Clean;
    var (s, r1) := CodeTemp(l, st);
    ExtendsEarlier(code, labels, s, Emit(s, NullJump(isNull, r1, dest)));
    TempOk(l, st, code, labels, env, regs);
    JumpAfter(NullJump(isNull, r1, dest), st, s, code, labels, env, regs,
              if isNull == (Eval(l, env, regs) == Null) then Target(dest, labels) else |s.ops| + 1);
  }

  /** The AND that BETWEEN is rewritten to means the same once the operand is in its register. */
  lemma BetweenOperand(x: Expr, y: Expr, z: Expr, st: Parse, s1: Parse, r1: nat, code: seq<Op>, labels: map<nat, nat>,
                       env: Env, regs: Regs)
    requires RegsOk(EBetween(x, y, z), st.nMem, st.nMem + 1)
    requires CodeTemp(x, st) == (s1, r1) && Extends(code, labels, s1)
    ensures Arrives(code, labels, env, st, s1, regs, |s1.ops|, st.nMem + 1)
    ensures RegsOk(BetweenAnd(r1, y, z), s1.nMem, s1.nMem + 1)
    ensures Truth(BetweenAnd(r1, y, z), env, After(code, labels, env, st, s1, regs)) ==
            Truth(EBetween(x, y, z), env, regs)
    decreases Size(x), 3
  {
    hide Run, CodeTarget, Eval, Truth, RegsOk, BetweenAnd;
    BetweenParts(x, y, z, st.nMem, st.nMem + 1);
    TempOk(x, st, code, labels, env, regs);
    BetweenMeans(x, y, z, r1, st.nMem, s1.nMem, env, regs, After(code, labels, env, st, s1, regs));
  }

  lemma BetweenParts(x: Expr, y: Expr, z: Expr, n: nat, t: nat)
    requires RegsOk(EBetween(x, y, z), n, t)
    ensures RegsOk(x, n, t) && RegsOk(y, n, t) && RegsOk(z, n, t)
  {
  }

  lemma BetweenMeans(x: Expr, y: Expr, z: Expr, r1: nat, n: nat, n1: nat, env: Env, regs: Regs, regs1: Regs)
    requires RegsOk(EBetween(x, y, z), n, n + 1) && r1 <= n1 && n <= n1
    requires AgreeBut(regs, regs1, n, n + 1) && Get(regs1, r1) == Eval(x, env, regs)
    ensures RegsOk(BetweenAnd(r1, y, z), n1, n1 + 1)
    ensures Truth(BetweenAnd(r1, y, z), env, regs1) == Truth(EBetween(x, y, z), env, regs)
  {
    assert Mentioned(BetweenAnd(r1, y, z)) == {r1} + Mentioned(y) + Mentioned(z) by {
      assert Mentioned(ECmp(Ge, ERegister(r1), y)) == {r1} + Mentioned(y);
      assert Mentioned(ECmp(Le, ERegister(r1), z)) == {r1} + Mentioned(z);
    }
    assert Clean(BetweenAnd(r1, y, z)) by {
      assert Clean(y) && Clean(z) && Clean(ERegister(r1));
      assert Clean(ECmp(Ge, ERegister(r1), y));
      assert Clean(ECmp(Le, ERegister(r1), z));
    }
    SameMeaning(y, env, n, n + 1, regs, regs1);
    SameMeaning(z, env, n, n + 1, regs, regs1);
    assert Eval(ERegister(r1), env, regs1) == Eval(x, env, regs);
    assert Truth(ECmp(Ge, ERegister(r1), y), env, regs1) == CompareTri(env, Ge, Eval(x, env, regs), Eval(y, env, regs));
    assert Truth(ECmp(Le, ERegister(r1), z), env, regs1) == CompareTri(env, Le, Eval(x, env, regs), Eval(z, env, regs));
  }

  // ---------- CASE ----------

  lemma WhenTestOk(test: Expr, hasX: bool, rx: nat, n: nat, t: nat, env: Env, regs: Regs)
    requires RegsOk(test, n, t) && (hasX ==> rx <= n)
    ensures RegsOk(WhenTest(hasX, rx, test), n, n + 1)
    ensures Truth(WhenTest(hasX, rx, test), env, regs)
         == if hasX then CompareTri(env, Eq, Get(regs, rx), Eval(test, env, regs)) else Truth(test, env, regs)
  {
    assert Eval(ERegister(rx), env, regs) == Get(regs, rx);
    assert Clean(ERegister(rx)) && Mentioned(ERegister(rx)) == {rx};
    assert hasX ==> Mentioned(WhenTest(hasX, rx, test)) == {rx} + Mentioned(test);
  }

  /** One WHEN clause: control reaches the end label with the result in target if the test holds, and
      the next clause if not. */
  lemma WhenOk(test: Expr, result: Expr, hasX: bool, rx: nat, endLabel: nat, target: nat, st: Parse,
               code: seq<Op>, labels: map<nat, nat>, env: Env, regs: Regs)
    requires target <= st.nMem && RegsOk(test, st.nMem, target) && RegsOk(result, st.nMem, target)
    requires hasX ==> rx <= st.nMem && rx != target
    requires Extends(code, labels, CodeWhen(test, result, hasX, rx, endLabel, target, st))
    requires endLabel < st.nLabel &&
             |CodeWhen(test, result, hasX, rx, endLabel, target, st).ops| <= Target(Label(endLabel), labels)
    ensures var s := CodeWhen(test, result, hasX, rx, endLabel, target, st);
            var t := if hasX then CompareTri(env, Eq, Get(regs, rx), Eval(test, env, regs)) else Truth(test, env, regs);
            && Arrives(code, labels, env, st, s, regs, if t == True3 then Target(Label(endLabel), labels) else |s.ops|,
                       target)
            && (t == True3 ==> Get(After(code, labels, env, st, s, regs), target) == Eval(result, env, regs))
    decreases 3 + Size(test) + Size(result), 7
  {
    hide Run, CodeTarget, Truth, Eval, Mentioned, Clean;
    var next, s0 := st.nLabel, st.(nLabel := st.nLabel + 1);
    var test' := WhenTest(hasX, rx, test);
    var s1 := IfFalse(test', Label(next), true, s0);
    var s2 := CodeInto(result, target, s1);
    var s3 := Emit(s2, Goto(Label(endLabel)));
    AndOrLabel(s0, s2, s3, next, code, labels);
    ExtendsEarlier(code, labels, s1, s2);
    WhenTestOk(test, hasX, rx, st.nMem, target, env, regs);
    var t := Truth(test', env, regs);
    IfFalseOk(test', Label(next), true, s0, code, labels, env, regs);
    if t != True3 {
      LeavesEarly(code, labels, env, s0, s1, s3, regs, |s3.ops|, target);
    } else {
      var regs1 := After(code, labels, env, s0, s1, regs);
      SameMeaning(result, env, st.nMem, target, regs, regs1);
      IntoOk(result, target, s1, code, labels, env, regs1);
      Sequence(code, labels, env, s0, s1, s2, regs, |s2.ops|, target, target);
      var regs2 := After(code, labels, env, s0, s2, regs);
      OneJump(code, labels, env, s2, Goto(Label(endLabel)), regs2, Target(Label(endLabel), labels));
      Sequence(code, labels, env, s0, s2, s3, regs, Target(Label(endLabel), labels), target, target);
    }
  }

  lemma WhensCorrect(w: Whens, hasX: bool, rx: nat, endLabel: nat, target: nat, st: Parse,
                     code: seq<Op>, labels: map<nat, nat>, env: Env, regs: Regs)
    requires target <= st.nMem && WhensOk(w, st.nMem, target)
    requires hasX ==> rx <= st.nMem && rx != target
    requires Extends(code, labels, CodeWhens(w, hasX, rx, endLabel, target, st))
    requires endLabel < st.nLabel &&
             |CodeWhens(w, hasX, rx, endLabel, target, st).ops| <= Target(Label(endLabel), labels)
    ensures var s := CodeWhens(w, hasX, rx, endLabel, target, st);
            match EvalWhens(w, hasX, if hasX then Get(regs, rx) else Null, env, regs)
            case Found(v) =>
              && Arrives(code, labels, env, st, s, regs, Target(Label(endLabel), labels), target)
              && Get(After(code, labels, env, st, s, regs), target) == v
            case NotFound => Arrives(code, labels, env, st, s, regs, |s.ops|, target)
    decreases WhensSize(w), 8
  {
    match w
    case NoMore =>
    case When(test, result, rest) =>
      var s1 := CodeWhen(test, result, hasX, rx, endLabel, target, st);
      var s2 := CodeWhens(rest, hasX, rx, endLabel, target, s1);
      ExtendsEarlier(code, labels, s1, s2);
      WhenOk(test, result, hasX, rx, endLabel, target, st, code, labels, env, regs);
      var end := Target(Label(endLabel), labels);
      var x := if hasX then Get(regs, rx) else Null;
      var t := if hasX then CompareTri(env, Eq, x, Eval(test, env, regs)) else Truth(test, env, regs);
      if t == True3 {
        LeavesEarly(code, labels, env, st, s1, s2, regs, end, target);
      } else {
        var regs1 := After(code, labels, env, st, s1, regs);
        SameWhens(rest, hasX, x, env, regs, regs1);
        WhensCorrect(rest, hasX, rx, endLabel, target, s1, code, labels, env, regs1);
        var choice := EvalWhens(rest, hasX, x, env, regs);
        Sequence(code, labels, env, st, s1, s2, regs, if choice.Found? then end else |s2.ops|, target, target);
      }
  }

  lemma CaseOk(x: Operand, whens: Whens, els: Operand, target: nat, st: Parse, code: seq<Op>, labels: map<nat, nat>,
               env: Env, regs: Regs)
    requires target <= st.nMem && RegsOk(ECase(x, whens, els), st.nMem, target)
    requires Extends(code, labels, CodeCase(x, whens, els, target, st))
    ensures Computes(code, labels, env, st, CodeCase(x, whens, els, target, st), target,
                     Eval(ECase(x, whens, els), env, regs), regs, target)
    decreases OperandSize(x) + WhensSize(whens) + OperandSize(els), 10
  {
    hide Run, CodeTarget, Truth, Get, Eval, EvalWhens, RegsOk, OperandOk, WhensOk, CodeWhens, CodeInto, CodeTemp;
    var endLabel, s0 := st.nLabel, st.(nLabel := st.nLabel + 1);
    var (s1, rx) := if x.Some? then CodeTemp(x.e, s0) else (s0, 0);
    var s2 := CodeWhens(whens, x.Some?, rx, endLabel, target, s1);
    var s3 := if els.Some? then CodeInto(els.e, target, s2) else Emit(s2, Const(Null, target));
    AndOrLabel(s0, s2, s3, endLabel, code, labels);
    ExtendsEarlier(code, labels, s1, s2);
    CaseParts(x, whens, els, st.nMem, target);
    CaseBody(x, whens, els, target, st.nMem, s0, s1, rx, endLabel, s2, s3, code, labels, env, regs);
    CaseValue(x, whens, els, env, regs);
  }

  /** The whole of a CASE, its intermediate programs named. */
  lemma CaseBody(x: Operand, whens: Whens, els: Operand, target: nat, n: nat, s0: Parse, s1: Parse, rx: nat,
                 endLabel: nat, s2: Parse, s3: Parse,
                 code: seq<Op>, labels: map<nat, nat>, env: Env, regs: Regs)
    requires target <= n == s0.nMem && OperandOk(x, n, target) && WhensOk(whens, n, target) && OperandOk(els, n, target)
    requires (s1, rx) == (if x.Some? then CodeTemp(x.e, s0) else (s0, 0))
    requires s2 == CodeWhens(whens, x.Some?, rx, endLabel, target, s1)
    requires s3 == (if els.Some? then CodeInto(els.e, target, s2) else Emit(s2, Const(Null, target)))
    requires Extends(code, labels, s1) && Extends(code, labels, s2) && Extends(code, labels, s3)
    requires endLabel < s0.nLabel && Target(Label(endLabel), labels) == |s3.ops|
    ensures Arrives(code, labels, env, s0, s3, regs, |s3.ops|, target)
    ensures var choice := EvalWhens(whens, x.Some?, if x.Some? then Eval(x.e, env, regs) else Null, env, regs);
            Get(After(code, labels, env, s0, s3, regs), target) ==
            if choice.Found? then choice.v else if els.Some? then Eval(els.e, env, regs) else Null
    decreases OperandSize(x) + WhensSize(whens) + OperandSize(els), 9
  {
    hide Run, CodeTarget, Truth, Get, Eval, EvalWhens, Mentioned, Clean;
    var x' := if x.Some? then Eval(x.e, env, regs) else Null;
    CaseOperand(x, target, s0, code, labels, env, regs);
    var regs1 := After(code, labels, env, s0, s1, regs);
    SameWhens(whens, x.Some?, x', env, regs, regs1);
    WhensCorrect(whens, x.Some?, rx, endLabel, target, s1, code, labels, env, regs1);
    CaseTail(whens, x.Some?, x', els, target, n, s1, s2, s3, code, labels, env, regs, regs1);
    Sequence(code, labels, env, s0, s1, s3, regs, |s3.ops|, target, target);
  }

  lemma CaseValue(x: Operand, whens: Whens, els: Operand, env: Env, regs: Regs)
    ensures var choice := EvalWhens(whens, x.Some?, if x.Some? then Eval(x.e, env, regs) else Null, env, regs);
            Eval(ECase(x, whens, els), env, regs) ==
            if choice.Found? then choice.v else if els.Some? then Eval(els.e, env, regs) else Null
  {
  }

  /** From the WHEN clauses to the end of a CASE. */
  lemma CaseTail(whens: Whens, hasX: bool, x: Value, els: Operand, target: nat, n: nat, s1: Parse, s2: Parse, s3: Parse,
                 code: seq<Op>, labels: map<nat, nat>, env: Env, regs: Regs, regs1: Regs)
    requires target <= n <= s1.nMem <= s2.nMem && OperandOk(els, n, target) && AgreeBut(regs, regs1, n, target)
    requires s3 == (if els.Some? then CodeInto(els.e, target, s2) else Emit(s2, Const(Null, target)))
    requires |s1.ops| <= |s2.ops| && Extends(code, labels, s3)
    requires var pc := if EvalWhens(whens, hasX, x, env, regs).Found? then |s3.ops| else |s2.ops|;
             |s2.ops| <= |code| && Arrives(code, labels, env, s1, s2, regs1, pc, target)
    requires match EvalWhens(whens, hasX, x, env, regs)
             case Found(v) => Get(After(code, labels, env, s1, s2, regs1), target) == v
             case NotFound => true
    ensures Arrives(code, labels, env, s1, s3, regs1, |s3.ops|, target)
    ensures Get(After(code, labels, env, s1, s3, regs1), target) ==
            match EvalWhens(whens, hasX, x, env, regs)
            case Found(v) => v
            case NotFound => if els.Some? then Eval(els.e, env, regs) else Null
    decreases OperandSize(els), 5
  {
    hide Run, CodeTarget, Truth, Eval, Get, EvalWhens, Mentioned, Clean;
    if EvalWhens(whens, hasX, x, env, regs).Found? {
      LeavesEarly(code, labels, env, s1, s2, s3, regs1, |s3.ops|, target);
    } else {
      CaseElse(els, target, s1, s2, code, labels, env, regs1);
      if els.Some? {
        SameMeaning(els.e, env, n, target, regs, regs1);
      }
    }
  }

  lemma CaseParts(x: Operand, whens: Whens, els: Operand, n: nat, t: nat)
    requires RegsOk(ECase(x, whens, els), n, t)
    ensures OperandOk(x, n, t) && WhensOk(whens, n, t) && OperandOk(els, n, t)
  {
    var all := Mentioned(ECase(x, whens, els));
    assert OperandMentioned(x) <= all && WhensMentioned(whens) <= all && OperandMentioned(els) <= all;
  }

  lemma TempRegister(e: Expr, st: Parse)
    requires RegsOk(e, st.nMem, st.nMem + 1)
    ensures CodeTemp(e, st).1 == if e.ERegister? then e.reg else st.nMem + 1
  {
    if !e.ERegister? {
      TargetRegister(e, st.nMem + 1, st.(nMem := st.nMem + 1));
    }
  }

  lemma CaseOperand(x: Operand, target: nat, s0: Parse, code: seq<Op>, labels: map<nat, nat>, env: Env, regs: Regs)
    requires target <= s0.nMem && OperandOk(x, s0.nMem, target)
    requires Extends(code, labels, if x.Some? then CodeTemp(x.e, s0).0 else s0)
    ensures var (s1, rx) := if x.Some? then CodeTemp(x.e, s0) else (s0, 0);
            && Arrives(code, labels, env, s0, s1, regs, |s1.ops|, target)
            && (x.Some? ==>
                  rx <= s1.nMem && rx != target &&
                  Get(After(code, labels, env, s0, s1, regs), rx) == Eval(x.e, env, regs))
    decreases OperandSize(x), 4
  {
    if x.Some? {
      TempOk(x.e, s0, code, labels, env, regs);
      TempRegister(x.e, s0);
    }
  }

  lemma CaseElse(els: Operand, target: nat, s1: Parse, s2: Parse, code: seq<Op>, labels: map<nat, nat>, env: Env,
                 regs1: Regs)
    requires |s1.ops| <= |s2.ops| && s1.nMem <= s2.nMem && target <= s1.nMem && OperandOk(els, s1.nMem, target)
    requires Extends(code, labels, if els.Some? then CodeInto(els.e, target, s2) else Emit(s2, Const(Null, target)))
    requires |s2.ops| <= |code| && Arrives(code, labels, env, s1, s2, regs1, |s2.ops|, target)
    ensures var s3 := if els.Some? then CodeInto(els.e, target, s2) else Emit(s2, Const(Null, target));
            && Arrives(code, labels, env, s1, s3, regs1, |s3.ops|, target)
            && Get(After(code, labels, env, s1, s3, regs1), target) == if els.Some? then Eval(els.e, env, regs1)
               else Null
    decreases OperandSize(els), 4
  {
    var regs2 := After(code, labels, env, s1, s2, regs1);
    var s3 := if els.Some? then CodeInto(els.e, target, s2) else Emit(s2, Const(Null, target));
    if els.Some? {
      SameMeaning(els.e, env, s1.nMem, target, regs1, regs2);
      IntoOk(els.e, target, s2, code, labels, env, regs2);
    } else {
      OneWrite(code, labels, env, s2, Const(Null, target), regs2, target, Null);
    }
    Sequence(code, labels, env, s1, s2, s3, regs1, |s3.ops|, target, target);
  }

  // ---------- Labels ----------

  /** The labels resolved since st are new, and no label is resolved twice. */
  ghost predicate Fresh(st: Parse, st': Parse) {
    && Grows(st, st')
    && (forall i :: |st.fixups| <= i < |st'.fixups| ==> st.nLabel <= st'.fixups[i].0 < st'.nLabel)
    && (forall i, j :: |st.fixups| <= i < j < |st'.fixups| ==> st'.fixups[i].0 != st'.fixups[j].0)
  }

  lemma FreshTrans(s1: Parse, s2: Parse, s3: Parse)
    requires Fresh(s1, s2) && Fresh(s2, s3)
    ensures Fresh(s1, s3)
  {
    forall i | |s1.fixups| <= i < |s2.fixups|
      ensures s3.fixups[i] == s2.fixups[i]
    {
    }
  }

  /** A label made at the start and resolved at the end of fresh code. */
  lemma FreshResolve(st: Parse, s1: Parse)
    requires Fresh(st.(nLabel := st.nLabel + 1), s1)
    ensures Fresh(st, ResolveLabel(s1, st.nLabel))
  {
  }

  lemma {:induction false} TargetFresh(e: Expr, target: nat, st: Parse)
    ensures Fresh(st, CodeTarget(e, target, st).0)
    decreases Size(e), 1
  {
    match e
    case EColumn(_) =>
    case ELiteral(_) =>
    case ERegister(_) =>
    case EAdd(l, r) => OperandsFresh(l, r, st);
    case EAnd(l, r) => OperandsFresh(l, r, st);
    case EOr(l, r) => OperandsFresh(l, r, st);
    case ENot(l) => TargetFresh(l, target, st);
    case ECmp(_, l, r) => OperandsFresh(l, r, st);
    case EIsNull(l) => TempFresh(l, Emit(st, Const(Num(1.0), target)));
    case ENotNull(l) => TempFresh(l, Emit(st, Const(Num(1.0), target)));
    case EBetween(x, y, z) =>
      OperandsFresh(x, y, st);
      var (s1, r1, r2) := CodeOperands(x, y, st);
      var s2 := Emit(s1.(nMem := s1.nMem + 2), CompareStore(Ge, r2, s1.nMem + 1, r1));
      TempFresh(z, s2);
      FreshTrans(st, s2, CodeTemp(z, s2).0);
    case ECase(x, whens, els) => CaseFresh(x, whens, els, target, st);
  }

  lemma {:induction false} TempFresh(e: Expr, st: Parse)
    ensures Fresh(st, CodeTemp(e, st).0)
    decreases Size(e), 2
  {
    TargetFresh(e, st.nMem + 1, st.(nMem := st.nMem + 1));
  }

  lemma {:induction false} IntoFresh(e: Expr, target: nat, st: Parse)
    ensures Fresh(st, CodeInto(e, target, st))
    decreases Size(e), 2
  {
    TargetFresh(e, target, st);
  }

  lemma {:induction false} OperandsFresh(l: Expr, r: Expr, st: Parse)
    ensures Fresh(st, CodeOperands(l, r, st).0)
    decreases Size(l) + Size(r), 3
  {
    var s1 := CodeTemp(l, st).0;
    TempFresh(l, st);
    TempFresh(r, s1);
    FreshTrans(st, s1, CodeTemp(r, s1).0);
  }

  lemma {:induction false} CaseFresh(x: Operand, whens: Whens, els: Operand, target: nat, st: Parse)
    ensures Fresh(st, CodeCase(x, whens, els, target, st))
    decreases OperandSize(x) + WhensSize(whens) + OperandSize(els), 9
  {
    var s0 := st.(nLabel := st.nLabel + 1);
    assert x.Some? ==> Size(x.e) == OperandSize(x);
    assert els.Some? ==> Size(els.e) == OperandSize(els);
    var (s1, rx) := if x.Some? then CodeTemp(x.e, s0) else (s0, 0);
    var s2 := CodeWhens(whens, x.Some?, rx, st.nLabel, target, s1);
    var s3 := if els.Some? then CodeInto(els.e, target, s2) else Emit(s2, Const(Null, target));
    if x.Some? {
      TempFresh(x.e, s0);
    }
    WhensFresh(whens, x.Some?, rx, st.nLabel, target, s1);
    if els.Some? {
      IntoFresh(els.e, target, s2);
    }
    FreshTrans(s0, s1, s2);
    FreshTrans(s0, s2, s3);
    FreshResolve(st, s3);
  }

  lemma {:induction false} WhensFresh(w: Whens, hasX: bool, rx: nat, endLabel: nat, target: nat, st: Parse)
    ensures Fresh(st, CodeWhens(w, hasX, rx, endLabel, target, st))
    decreases WhensSize(w), 8
  {
    match w
    case NoMore =>
    case When(test, result, rest) =>
      var s0 := st.(nLabel := st.nLabel + 1);
      var s1 := IfFalse(WhenTest(hasX, rx, test), Label(st.nLabel), true, s0);
      var s2 := CodeInto(result, target, s1);
      JumpFresh(WhenTest(hasX, rx, test), false, Label(st.nLabel), true, s0);
      IntoFresh(result, target, s1);
      FreshTrans(s0, s1, s2);
      FreshResolve(st, Emit(s2, Goto(Label(endLabel))));
      var s3 := CodeWhen(test, result, hasX, rx, endLabel, target, st);
      WhensFresh(rest, hasX, rx, endLabel, target, s3);
      FreshTrans(st, s3, CodeWhens(rest, hasX, rx, endLabel, target, s3));
  }

  function Jump(e: Expr, onTrue: bool, dest: Dest, jin: bool, st: Parse): Parse {
    if onTrue then IfTrue(e, dest, jin, st) else IfFalse(e, dest, jin, st)
  }

  /** Jump code resolves only labels of its own, each once: so addresses for all labels always exist. */
  lemma {:induction false} JumpFresh(e: Expr, onTrue: bool, dest: Dest, jin: bool, st: Parse)
    ensures Fresh(st, Jump(e, onTrue, dest, jin, st))
    decreases Size(e), 6
  {
    match e
    case EAnd(l, r) => AndOrFresh(l, r, onTrue, onTrue, dest, jin, st);
    case EOr(l, r) => AndOrFresh(l, r, onTrue, !onTrue, dest, jin, st);
    case ENot(l) => JumpFresh(l, !onTrue, dest, jin, st);
    case ECmp(_, l, r) => OperandsFresh(l, r, st);
    case EIsNull(l) => TempFresh(l, st);
    case ENotNull(l) => TempFresh(l, st);
    case EBetween(x, y, z) =>
      TempFresh(x, st);
      var (s1, r1) := CodeTemp(x, st);
      JumpFresh(BetweenAnd(r1, y, z), onTrue, dest, jin, s1);
      FreshTrans(st, s1, Jump(BetweenAnd(r1, y, z), onTrue, dest, jin, s1));
    case _ =>
      assert Jump(e, onTrue, dest, jin, st) == CodeJump(e, onTrue, dest, jin, st);
      CodeJumpFresh(e, onTrue, dest, jin, st);
  }

  lemma {:induction false} CodeJumpFresh(e: Expr, onTrue: bool, dest: Dest, jin: bool, st: Parse)
    ensures Fresh(st, CodeJump(e, onTrue, dest, jin, st))
    decreases Size(e), 5
  {
    TempFresh(e, st);
  }

  /** Both shapes of AND and OR: with a label around the second operand, and without. */
  lemma AndOrFresh(l: Expr, r: Expr, onTrue: bool, labelled: bool, dest: Dest, jin: bool, st: Parse)
    ensures labelled ==>
              var s0 := st.(nLabel := st.nLabel + 1);
              var s1 := Jump(l, !onTrue, Label(st.nLabel), !jin, s0);
              Fresh(st, ResolveLabel(Jump(r, onTrue, dest, jin, s1), st.nLabel))
    ensures !labelled ==> Fresh(st, Jump(r, onTrue, dest, jin, Jump(l, onTrue, dest, jin, st)))
    decreases Size(l) + Size(r), 7
  {
    if labelled {
      var s0 := st.(nLabel := st.nLabel + 1);
      var s1 := Jump(l, !onTrue, Label(st.nLabel), !jin, s0);
      var s2 := Jump(r, onTrue, dest, jin, s1);
      JumpFresh(l, !onTrue, Label(st.nLabel), !jin, s0);
      JumpFresh(r, onTrue, dest, jin, s1);
      FreshTrans(s0, s1, s2);
      FreshResolve(st, s2);
    } else {
      var s1 := Jump(l, onTrue, dest, jin, st);
      JumpFresh(l, onTrue, dest, jin, st);
      JumpFresh(r, onTrue, dest, jin, s1);
      FreshTrans(st, s1, Jump(r, onTrue, dest, jin, s1));
    }
  }

  /** Addresses for all labels of a program in which each is resolved at most once. */
  lemma {:induction false} LabelsExist(fixups: seq<(nat, nat)>) returns (labels: map<nat, nat>)
    requires forall i, j :: 0 <= i < j < |fixups| ==> fixups[i].0 != fixups[j].0
    ensures forall i :: 0 <= i < |fixups| ==> Target(Label(fixups[i].0), labels) == fixups[i].1
    decreases |fixups|
  {
    labels := map[];
    if fixups != [] {
      var last := |fixups| - 1;
      var init := LabelsExist(fixups[..last]);
      labels := init[fixups[last].0 := fixups[last].1];
      forall i | 0 <= i < |fixups|
        ensures Target(Label(fixups[i].0), labels) == fixups[i].1
      {
        if i < last {
          assert fixups[..last][i] == fixups[i];
        }
      }
    }
  }

  // ---------- Conditions and values ----------

  lemma {:induction false} NoRegistersIsClean(e: Expr)
    requires Mentioned(e) == {}
    ensures Clean(e)
    decreases e, 1
  {
    match e
    case EColumn(_) =>
    case ELiteral(_) =>
    case ERegister(_) =>
    case EAdd(l, r) => NoRegistersIsClean(l); NoRegistersIsClean(r);
    case EAnd(l, r) => NoRegistersIsClean(l); NoRegistersIsClean(r);
    case EOr(l, r) => NoRegistersIsClean(l); NoRegistersIsClean(r);
    case ENot(l) => NoRegistersIsClean(l);
    case ECmp(_, l, r) => NoRegistersIsClean(l); NoRegistersIsClean(r);
    case EIsNull(l) => NoRegistersIsClean(l);
    case ENotNull(l) => NoRegistersIsClean(l);
    case EBetween(x, y, z) => NoRegistersIsClean(x); NoRegistersIsClean(y); NoRegistersIsClean(z);
    case ECase(x, whens, els) =>
      if x.Some? {
        assert Mentioned(x.e) == OperandMentioned(x);
        NoRegistersIsClean(x.e);
      }
      NoRegistersWhens(whens);
      if els.Some? {
        assert Mentioned(els.e) == OperandMentioned(els);
        NoRegistersIsClean(els.e);
      }
  }

  lemma {:induction false} NoRegistersWhens(w: Whens)
    requires WhensMentioned(w) == {}
    ensures WhensClean(w)
    decreases w, 0
  {
    match w
    case NoMore =>
    case When(test, result, rest) =>
      NoRegistersIsClean(test);
      NoRegistersIsClean(result);
      NoRegistersWhens(rest);
  }

  /** A WHERE condition: for every source expression, row and starting point, the code of
      sqlite3ExprIfTrue or sqlite3ExprIfFalse, once its labels have addresses, leaves at the jump
      target or at its own end exactly as three-valued logic demands. */
  lemma ConditionCode(e: Expr, onTrue: bool, dest: Dest, jin: bool, st: Parse, code: seq<Op>, labels: map<nat, nat>,
                      env: Env, regs: Regs)
    requires Mentioned(e) == {}
    requires Extends(code, labels, Jump(e, onTrue, dest, jin, st)) &&
             Outside(dest, labels, st, Jump(e, onTrue, dest, jin, st))
    ensures var lo, hi := |st.ops|, |Jump(e, onTrue, dest, jin, st).ops|;
            var s := Run(code, labels, env, lo, hi, lo, regs);
            var t := if onTrue then Truth(e, env, regs) else Not3(Truth(e, env, regs));
            s.At? && s.pc == if Takes(t, jin) then Target(dest, labels) else hi
  {
    NoRegistersIsClean(e);
    if onTrue {
      IfTrueOk(e, dest, jin, st, code, labels, env, regs);
    } else {
      IfFalseOk(e, dest, jin, st, code, labels, env, regs);
    }
  }

  /** Used as a condition or computed as a value, the expression has the same truth. */
  predicate Matches(e: Expr, env: Env, regs: Regs) {
    Truth(e, env, regs) == RealTruth(Eval(e, env, regs))
  }

  /** Not a nonzero fraction between -1 and 1, which OP_And, OP_Or and OP_Not read as false and OP_If
      and OP_IfNot as true. */
  predicate Crisp(v: Value) {
    v.Num? ==> v.r == 0.0 || v.r <= -1.0 || v.r >= 1.0
  }

  /** A fraction does no harm beside a zero under AND, or beside a number that truncates to true under OR. */
  predicate AndSettled(v: Value, w: Value) {
    (Crisp(v) && Crisp(w)) || v == Num(0.0) || w == Num(0.0)
  }

  predicate OrSettled(v: Value, w: Value) {
    (Crisp(v) && Crisp(w)) || IntTruth(v) == True3 || IntTruth(w) == True3
  }

  lemma CrispIsSameTruth(v: Value)
    ensures Crisp(v) <==> IntTruth(v) == RealTruth(v)
    ensures !Crisp(v) ==> IntTruth(v) == False3 && RealTruth(v) == True3
  {
  }

  /** NOT of an operand that means the same both ways does so exactly if the operand is crisp. */
  lemma NotMatches(l: Expr, env: Env, regs: Regs)
    requires Matches(l, env, regs)
    ensures Matches(ENot(l), env, regs) <==> Crisp(Eval(l, env, regs))
  {
    CrispIsSameTruth(Eval(l, env, regs));
  }

  lemma AndMatches(l: Expr, r: Expr, env: Env, regs: Regs)
    requires Matches(l, env, regs) && Matches(r, env, regs)
    ensures Matches(EAnd(l, r), env, regs) <==> AndSettled(Eval(l, env, regs), Eval(r, env, regs))
  {
    CrispIsSameTruth(Eval(l, env, regs));
    CrispIsSameTruth(Eval(r, env, regs));
  }

  lemma OrMatches(l: Expr, r: Expr, env: Env, regs: Regs)
    requires Matches(l, env, regs) && Matches(r, env, regs)
    ensures Matches(EOr(l, r), env, regs) <==> OrSettled(Eval(l, env, regs), Eval(r, env, regs))
  {
    CrispIsSameTruth(Eval(l, env, regs));
    CrispIsSameTruth(Eval(r, env, regs));
  }

  /** The expression and all operands of its AND, OR and NOT mean the same both ways. */
  predicate MatchesThroughout(e: Expr, env: Env, regs: Regs) {
    && Matches(e, env, regs)
    && match e
       case EAnd(l, r) => MatchesThroughout(l, env, regs) && MatchesThroughout(r, env, regs)
       case EOr(l, r) => MatchesThroughout(l, env, regs) && MatchesThroughout(r, env, regs)
       case ENot(l) => MatchesThroughout(l, env, regs)
       case _ => true
  }

  /** What the values of those operands must be for that. */
  predicate Settled(e: Expr, env: Env, regs: Regs) {
    match e
    case EAnd(l, r) =>
      AndSettled(Eval(l, env, regs), Eval(r, env, regs)) && Settled(l, env, regs) && Settled(r, env, regs)
    case EOr(l, r) =>
      OrSettled(Eval(l, env, regs), Eval(r, env, regs)) && Settled(l, env, regs) && Settled(r, env, regs)
    case ENot(l) => Crisp(Eval(l, env, regs)) && Settled(l, env, regs)
    case _ => true
  }

  /** An expression means the same as a condition and as a value, with all its operands, exactly if no
      fraction among the operands of AND, OR and NOT decides anything. */
  lemma {:induction false} ConditionMatchesValue(e: Expr, env: Env, regs: Regs)
    ensures MatchesThroughout(e, env, regs) <==> Settled(e, env, regs)
    ensures Settled(e, env, regs) ==> Matches(e, env, regs)
    decreases e
  {
    match e
    case EAnd(l, r) =>
      ConditionMatchesValue(l, env, regs);
      ConditionMatchesValue(r, env, regs);
      if MatchesThroughout(l, env, regs) && MatchesThroughout(r, env, regs) {
        AndMatches(l, r, env, regs);
      }
    case EOr(l, r) =>
      ConditionMatchesValue(l, env, regs);
      ConditionMatchesValue(r, env, regs);
      if MatchesThroughout(l, env, regs) && MatchesThroughout(r, env, regs) {
        OrMatches(l, r, env, regs);
      }
    case ENot(l) =>
      ConditionMatchesValue(l, env, regs);
      if MatchesThroughout(l, env, regs) {
        NotMatches(l, env, regs);
      }
    case _ =>
  }

  /** The logical formula over its leaves, with fractions between -1 and 1 read as true or as false. */
  function Formula(e: Expr, fractions: bool, env: Env, regs: Regs): Tri {
    match e
    case EAnd(l, r) => And3(Formula(l, fractions, env, regs), Formula(r, fractions, env, regs))
    case EOr(l, r) => Or3(Formula(l, fractions, env, regs), Formula(r, fractions, env, regs))
    case ENot(l) => Not3(Formula(l, fractions, env, regs))
    case _ => if !fractions && !Crisp(Eval(e, env, regs)) then False3 else RealTruth(Eval(e, env, regs))
  }

  /** The condition reads every fraction as true, the value every fraction as false: an AND, OR or NOT
      means the same both ways exactly if its formula does not depend on how fractions are read. */
  lemma {:induction false} FractionsDecide(e: Expr, env: Env, regs: Regs)
    ensures Truth(e, env, regs) == Formula(e, true, env, regs)
    ensures IntTruth(Eval(e, env, regs)) == Formula(e, false, env, regs)
    ensures e.EAnd? || e.EOr? || e.ENot? ==>
              (Matches(e, env, regs) <==> Formula(e, true, env, regs) == Formula(e, false, env, regs))
    decreases e
  {
    CrispIsSameTruth(Eval(e, env, regs));
    match e
    case EAnd(l, r) =>
      FractionsDecide(l, env, regs);
      FractionsDecide(r, env, regs);
    case EOr(l, r) =>
      FractionsDecide(l, env, regs);
      FractionsDecide(r, env, regs);
    case ENot(l) =>
      FractionsDecide(l, env, regs);
    case _ =>
  }

  /** NOT 0.5 is true as a value and false as a condition. The whole can still come out right around
      an operand that does not: (NOT 0.5) AND 0 does. */
  lemma FractionExample(env: Env, regs: Regs)
    ensures var e := ENot(ELiteral(Num(0.5)));
            && Eval(e, env, regs) == Num(1.0) && Truth(e, env, regs) == False3
            && !Matches(e, env, regs) && Matches(EAnd(e, ELiteral(Num(0.0))), env, regs)
  {
    var half := ELiteral(Num(0.5));
    assert Eval(half, env, regs) == Num(0.5) && Truth(half, env, regs) == True3;
    CrispIsSameTruth(Num(0.5));
    assert Eval(ENot(half), env, regs) == Num(1.0);
  }
}
