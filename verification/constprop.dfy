/**
 * Intraprocedural constant propagation over Java `int`-like variables: the
 * value evaluator, the per-statement transfer function, and the boundary fact,
 * initial fact and meet that a generic forward dataflow solver drives.
 */
module ConstantPropagation {
  import opened JavaInt
  import opened Lattice
  import opened Ir
  import opened Facts

  // ---------------------------------------------------------------------------
  // Type filter

  /** Primitive types whose values fit a 32-bit `int` in the JVM. */
  predicate IsIntLike(p: PrimitiveType) {
    match p
    case BYTE | SHORT | INT | CHAR | BOOLEAN => true
    case LONG | FLOAT | DOUBLE => false
  }

  /**
   * canHoldInt: true exactly for variables of primitive type byte, short, int,
   * char or boolean; false for long, float, double and every non-primitive type.
   * These are the primitive, non-floating types the JVM keeps in one 32-bit slot.
   */
  function CanHoldInt(v: Var): (r: bool)
    ensures r <==> v.ty.Primitive? && IsIntegral(v.ty.prim) && StackBits(v.ty.prim) == 32
  {
    v.ty.Primitive? && IsIntLike(v.ty.prim)
  }

  /** Number of bits of a primitive type's values in the JVM's operand stack. */
  function StackBits(p: PrimitiveType): nat {
    match p
    case LONG | DOUBLE => 64
    case _ => 32
  }

  /** Whether a primitive type is an integral (or boolean) type rather than floating point. */
  predicate IsIntegral(p: PrimitiveType) {
    !(p == FLOAT || p == DOUBLE)
  }

  // ---------------------------------------------------------------------------
  // Evaluation

  predicate IsDivOrRem(op: BinaryOp) {
    op == Arithmetic(DIV) || op == Arithmetic(REM)
  }

  /**
   * The one combination the evaluator does not define: a `NAC` dividend with an
   * `Undef` divisor for `/` or `%`, where the source asks an `Undef` value for its
   * constant.
   */
  predicate Defined(e: Exp, fact: Fact) {
    !(e.Binary? && IsDivOrRem(e.op) &&
      Lookup(fact, e.operand1) == NAC && Lookup(fact, e.operand2) == Undef)
  }

  function CompareInts(op: ConditionOp, a: Int32, b: Int32): bool {
    match op
    case EQ => a == b
    case NE => a != b
    case LT => a < b
    case GT => a > b
    case LE => a <= b
    case GE => a >= b
  }

  /**
   * Folding a binary operator over two constant operands: the constant the JVM
   * computes, `Undef` for a division or remainder by zero (which would throw),
   * and `NAC` for the long/float/double comparisons.
   */
  function FoldConstants(op: BinaryOp, a: Int32, b: Int32): Value {
    match op
    case Arithmetic(aop) =>
      if (aop == DIV || aop == REM) && b == 0 then Undef
      else (
        match aop
        case ADD => Constant(Add(a, b))
        case SUB => Constant(Sub(a, b))
        case MUL => Constant(Mul(a, b))
        case DIV => Constant(Div(a, b))
        case REM => Constant(Rem(a, b)))
    case Condition(cop) => Constant(if CompareInts(cop, a, b) then 1 else 0)
    case Shift(sop) => (
      match sop
      case SHL => Constant(Shl(a, b))
      case SHR => Constant(Shr(a, b))
      case USHR => Constant(Ushr(a, b)))
    case Bitwise(bop) => (
      match bop
      case OR => Constant(Or(a, b))
      case AND => Constant(And(a, b))
      case XOR => Constant(Xor(a, b)))
    case Comparison(_) => NAC
  }

  /**
   * evaluate: the lattice value of an expression under the IN fact.  A variable
   * reads the fact, an `int` literal is a constant, a binary expression folds
   * its operands' values, and every other expression is `NAC`.
   */
  function Evaluate(e: Exp, fact: Fact): (r: Value)
    requires Defined(e, fact)
    ensures e.Binary? && r.Constant? ==>
              Lookup(fact, e.operand1).Constant? && Lookup(fact, e.operand2).Constant?
    ensures e.Binary? && e.op.Condition? && r.Constant? ==> r.n == 0 || r.n == 1
  {
    match e
    case VarExp(v) => Lookup(fact, v)
    case IntLiteral(n) => Constant(n)
    case Binary(op, x, y) =>
      var v1, v2 := Lookup(fact, x), Lookup(fact, y);
      if v1.NAC? || v2.NAC? then
        if !v2.NAC? && op.Arithmetic? && IsDivOrRem(op) && v2.n == 0 then Undef
        else NAC
      else if v1.Undef? || v2.Undef? then Undef
      else FoldConstants(op, v1.n, v2.n)
    case _ => NAC
  }

  /**
   * A `NAC` operand makes the result `NAC`, except that dividing by a known
   * zero gives `Undef`; otherwise an `Undef` operand makes the result `Undef`.
   */
  lemma EvaluateStrict(op: BinaryOp, x: Var, y: Var, fact: Fact)
    requires Defined(Binary(op, x, y), fact)
    ensures var v1, v2, r := Lookup(fact, x), Lookup(fact, y), Evaluate(Binary(op, x, y), fact);
      && ((v1 == NAC || v2 == NAC) ==>
            r == (if IsDivOrRem(op) && v2 == Constant(0) then Undef else NAC))
      && (v1 != NAC && v2 != NAC && (v1 == Undef || v2 == Undef) ==> r == Undef)
  {
  }

  /** Expressions other than variables, `int` literals and binary expressions are `NAC`. */
  lemma EvaluateOtherIsNac(e: Exp, fact: Fact)
    requires !(e.VarExp? || e.IntLiteral? || e.Binary?)
    ensures Evaluate(e, fact) == NAC
  {
  }

  // ---------------------------------------------------------------------------
  // Reference semantics: what the JVM computes

  /**
   * The `int` value a Java expression evaluates to when every int-like
   * variable has the value `env` gives it; `None` when evaluation throws
   * (division by zero) or produces something this model does not track.
   */
  function ConcreteEval(e: Exp, env: map<Var, Int32>): Option<Int32> {
    match e
    case VarExp(v) => if v in env then Some(env[v]) else None
    case IntLiteral(n) => Some(n)
    case Binary(op, x, y) =>
      if x in env && y in env then ConcreteBinary(op, env[x], env[y]) else None
    case _ => None
  }

  /** JLS 15.17-15.22: a binary operator applied to two `int` values. */
  function ConcreteBinary(op: BinaryOp, a: Int32, b: Int32): Option<Int32> {
    match op
    case Arithmetic(ADD) => Some(Add(a, b))
    case Arithmetic(SUB) => Some(Sub(a, b))
    case Arithmetic(MUL) => Some(Mul(a, b))
    case Arithmetic(DIV) => if b == 0 then None else Some(Div(a, b))
    case Arithmetic(REM) => if b == 0 then None else Some(Rem(a, b))
    case Condition(cop) => Some(if CompareInts(cop, a, b) then 1 else 0)
    case Shift(SHL) => Some(Shl(a, b))
    case Shift(SHR) => Some(Shr(a, b))
    case Shift(USHR) => Some(Ushr(a, b))
    case Bitwise(OR) => Some(Or(a, b))
    case Bitwise(AND) => Some(And(a, b))
    case Bitwise(XOR) => Some(Xor(a, b))
    case Comparison(_) => None
  }

  /**
   * Folding agrees with the JVM: the folded value is the constant the operator
   * computes, `Undef` where it throws, and `NAC` for the comparisons.
   */
  lemma FoldMatchesJvm(op: BinaryOp, a: Int32, b: Int32)
    ensures FoldConstants(op, a, b) == match ConcreteBinary(op, a, b)
                                       case Some(n) => Constant(n)
                                       case None => if op.Comparison? then NAC else Undef
  {
    match op
    case Arithmetic(aop) =>
    case Condition(cop) =>
    case Shift(sop) =>
    case Bitwise(bop) =>
    case Comparison(_) =>
  }

  /** The concrete values a lattice value stands for: none, one, or all. */
  predicate Describes(v: Value, x: Int32) {
    match v
    case Undef => false
    case Constant(n) => n == x
    case NAC => true
  }

  /** Every variable the environment knows has a value the fact describes. */
  ghost predicate Abstracts(fact: Fact, env: map<Var, Int32>) {
    forall v :: v in env ==> Describes(Lookup(fact, v), env[v])
  }

  /**
   * Soundness of evaluation: when the fact describes the current values of the
   * variables, it also describes the value the expression evaluates to.
   */
  lemma EvaluateSound(e: Exp, fact: Fact, env: map<Var, Int32>)
    requires Defined(e, fact) && Abstracts(fact, env)
    ensures ConcreteEval(e, env).Some? ==> Describes(Evaluate(e, fact), ConcreteEval(e, env).value)
  {
    if e.Binary? && e.operand1 in env && e.operand2 in env {
      assert Describes(Lookup(fact, e.operand1), env[e.operand1]);
      assert Describes(Lookup(fact, e.operand2), env[e.operand2]);
    }
  }

  /** A variable reads the fact and an `int` literal is that constant. */
  lemma EvaluateLeaves(v: Var, n: Int32, fact: Fact)
    ensures Evaluate(VarExp(v), fact) == Lookup(fact, v)
    ensures Evaluate(IntLiteral(n), fact) == Constant(n)
  {
  }

  /**
   * Folding two constants replays the JVM: the result is the constant Java
   * computes; a division or remainder by zero, which would throw, is `Undef`;
   * the long/float/double comparison operators are `NAC`.
   */
  lemma EvaluateConstantsExact(op: BinaryOp, x: Var, y: Var, a: Int32, b: Int32, fact: Fact)
    requires Lookup(fact, x) == Constant(a) && Lookup(fact, y) == Constant(b)
    ensures Evaluate(Binary(op, x, y), fact) ==
      match ConcreteBinary(op, a, b)
      case Some(n) => Constant(n)
      case None => if op.Comparison? then NAC else Undef
  {
  }

  /** Evaluation is monotone: larger facts give larger values. */
  lemma EvaluateMonotone(e: Exp, a: Fact, b: Fact)
    requires Defined(e, a) && Defined(e, b)
    requires FactLeq(a, b)
    ensures Leq(Evaluate(e, a), Evaluate(e, b))
  {
    if e.VarExp? {
      assert Leq(Lookup(a, e.v), Lookup(b, e.v));
    } else if e.Binary? {
      assert Leq(Lookup(a, e.operand1), Lookup(b, e.operand1));
      assert Leq(Lookup(a, e.operand2), Lookup(b, e.operand2));
    }
  }

  // ---------------------------------------------------------------------------
  // Transfer

  /** The int-like variable a statement defines, if any. */
  function IntDef(s: Stmt): (r: Option<Var>)
    ensures r.Some? ==> IsDefinition(s) && CanHoldInt(r.value) && DefinedVar(s) == r
    ensures r.None? ==> DefinedVar(s).None? || !CanHoldInt(DefinedVar(s).value)
  {
    match DefinedVar(s)
    case Some(x) => if CanHoldInt(x) then Some(x) else None
    case None => None
  }

  /** The transfer function is defined unless it would evaluate an undefined division. */
  predicate TransferDefined(s: Stmt, inFact: Fact) {
    IntDef(s).Some? ==> Defined(RValue(s), inFact)
  }

  /**
   * The OUT fact of a statement: IN, except that an int-like variable defined
   * by a definition statement is bound to its right-hand side evaluated on IN.
   */
  function Transfer(s: Stmt, inFact: Fact): (out: Fact)
    requires TransferDefined(s, inFact)
    ensures forall v ::
              Lookup(out, v) == if IntDef(s) == Some(v) then Evaluate(RValue(s), inFact) else Lookup(inFact, v)
    ensures Normalized(inFact) ==> Normalized(out)
  {
    match IntDef(s)
    case Some(x) => Bind(inFact - {x}, x, Evaluate(RValue(s), inFact))
    case None => inFact
  }

  /** The transfer function is monotone, which the solver's termination relies on. */
  lemma TransferMonotone(s: Stmt, a: Fact, b: Fact)
    requires TransferDefined(s, a) && TransferDefined(s, b)
    requires FactLeq(a, b)
    ensures FactLeq(Transfer(s, a), Transfer(s, b))
  {
    if IntDef(s).Some? {
      EvaluateMonotone(RValue(s), a, b);
    }
    forall v
      ensures Leq(Lookup(Transfer(s, a), v), Lookup(Transfer(s, b), v))
    {
      assert Leq(Lookup(a, v), Lookup(b, v));
    }
  }

  /**
   * Soundness of transfer: if IN describes the values before the statement,
   * OUT describes them after it, when the defined variable receives the value
   * of the right-hand side computed from the values before the statement; and
   * when that right-hand side is one the analysis does not fold (a negation, a
   * load, a cast, an array length or a call), whatever value it receives.
   */
  lemma TransferSound(s: Stmt, inFact: Fact, env: map<Var, Int32>, any: Int32)
    requires TransferDefined(s, inFact) && Abstracts(inFact, env)
    ensures IntDef(s).None? ==> Abstracts(Transfer(s, inFact), env)
    ensures IntDef(s).Some? && ConcreteEval(RValue(s), env).Some? ==>
      Abstracts(Transfer(s, inFact), env[IntDef(s).value := ConcreteEval(RValue(s), env).value])
    ensures IntDef(s).Some? && !(RValue(s).VarExp? || RValue(s).IntLiteral? || RValue(s).Binary?) ==>
      Abstracts(Transfer(s, inFact), env[IntDef(s).value := any])
  {
    if IntDef(s).Some? {
      EvaluateSound(RValue(s), inFact, env);
      if !(RValue(s).VarExp? || RValue(s).IntLiteral? || RValue(s).Binary?) {
        EvaluateOtherIsNac(RValue(s), inFact);
      }
    }
  }

  /**
   * The long/float/double comparisons read variables that are never tracked, so
   * under a fact that mentions only int-like variables both operands are `Undef`
   * and so is the comparison.  Its int-like result is then bound to `Undef`,
   * which describes no value, although the comparison yields -1, 0 or 1.
   */
  lemma UntrackedComparison(b: Var, cmp: ComparisonOp, l1: Var, l2: Var, fact: Fact)
    requires CanHoldInt(b) && !CanHoldInt(l1) && !CanHoldInt(l2) && IntOnly(fact)
    ensures var s := Assign(LVar(b), Binary(Comparison(cmp), l1, l2));
      && Evaluate(RValue(s), fact) == Undef
      && Lookup(Transfer(s, fact), b) == Undef
      && forall n: Int32 :: !Describes(Lookup(Transfer(s, fact), b), n)
  {
    assert l1 !in fact && l2 !in fact;
  }

  /** Facts only ever mention int-like variables. */
  ghost predicate IntOnly(f: Fact) {
    forall v :: v in f ==> CanHoldInt(v)
  }

  lemma TransferIntOnly(s: Stmt, inFact: Fact)
    requires TransferDefined(s, inFact) && IntOnly(inFact)
    ensures IntOnly(Transfer(s, inFact))
  {
  }

  // ---------------------------------------------------------------------------
  // The dataflow operations driven by the solver

  /**
   * newBoundaryFact: the fact at the method entry binds every int-like
   * parameter to `NAC` and leaves everything else `Undef`.
   */
  method NewBoundaryFact(params: seq<Var>) returns (fact: CPFact)
    ensures fresh(fact) && fact.Valid()
    ensures forall v :: fact.Get(v) == if v in params && CanHoldInt(v) then NAC else Undef
  {
    fact := new CPFact();
    for i := 0 to |params|
      invariant fact.Valid()
      invariant forall v :: fact.Get(v) == if v in params[..i] && CanHoldInt(v) then NAC else Undef
    {
      if CanHoldInt(params[i]) {
        fact.Update(params[i], NAC);
      }
      assert params[..i + 1] == params[..i] + [params[i]];
    }
    assert params[..|params|] == params;
  }

  /** newInitialFact: the empty fact, every variable `Undef`. */
  method NewInitialFact() returns (fact: CPFact)
    ensures fresh(fact) && fact.Valid()
    ensures forall v :: fact.Get(v) == Undef
  {
    fact := new CPFact();
  }

  /**
   * meetInto: every variable of `fact` is met into `target`; variables absent
   * from `fact` keep their value in `target`, and `fact` is left as it was.
   */
  method MeetInto(fact: CPFact, target: CPFact)
    requires fact.Valid() && target.Valid()
    modifies target
    ensures target.Valid()
    ensures forall v :: target.Get(v) == Meet(old(fact.Get(v)), old(target.Get(v)))
    ensures fact != target ==> fact.entries == old(fact.entries)
  {
    var src := fact.entries;
    var keys := fact.entries.Keys;
    while keys != {}
      invariant keys <= src.Keys
      invariant target.Valid()
      invariant forall v ::
                  target.Get(v) == if v in src && v !in keys then Meet(Lookup(src, v), old(target.Get(v))) else old(target.Get(v))
      invariant fact != target ==> fact.entries == src
      invariant forall v :: v in keys ==> fact.Get(v) == Lookup(src, v)
      decreases keys
    {
      var v :| v in keys;
      target.Update(v, Meet(fact.Get(v), target.Get(v)));
      keys := keys - {v};
    }
  }

  /**
   * transferNode: OUT becomes the transfer of IN (the defined int-like variable
   * rebound to its right-hand side evaluated on IN, everything else copied),
   * and the result says whether OUT changed.
   */
  method TransferNode(stmt: Stmt, inFact: CPFact, out: CPFact) returns (changed: bool)
    requires inFact.Valid() && out.Valid()
    requires TransferDefined(stmt, inFact.entries)
    modifies out
    ensures out.Valid()
    ensures out.entries == Transfer(stmt, old(inFact.entries))
    ensures changed <==> exists v :: out.Get(v) != old(out.Get(v))
    ensures inFact != out ==> inFact.entries == old(inFact.entries)
  {
    var outTmp := inFact.Copy();
    var def := DefinedVar(stmt);
    if def.Some? && CanHoldInt(def.value) {
      outTmp.Remove(def.value);
      outTmp.Update(def.value, Evaluate(RValue(stmt), inFact.entries));
    }
    ghost var before := out.entries;
    changed := out.CopyFrom(outTmp);
    NormalizedExtensional(before, out.entries);
    if changed {
      ghost var v :| Lookup(out.entries, v) != Lookup(before, v);
      assert out.Get(v) != old(out.Get(v));
    }
  }
}
