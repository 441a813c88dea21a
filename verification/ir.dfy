/**
 * The part of the three-address intermediate representation that constant
 * propagation and dead-code detection inspect: variables and their declared
 * types, right-hand-side expressions, and statements.
 */
module Ir {
  import opened JavaInt

  datatype Option<T> = None | Some(value: T)

  /** Java's primitive types. */
  datatype PrimitiveType = BYTE | SHORT | INT | CHAR | BOOLEAN | LONG | FLOAT | DOUBLE

  datatype Type =
    | Primitive(prim: PrimitiveType)
    | ClassType(className: string)
    | ArrayType(elem: Type)
    | NullType
    | VoidType

  /** A local variable (or parameter) with its declared type. */
  datatype Var = Var(name: string, ty: Type)

  datatype ArithmeticOp = ADD | SUB | MUL | DIV | REM
  datatype ConditionOp = EQ | NE | LT | GT | LE | GE
  datatype ShiftOp = SHL | SHR | USHR
  datatype BitwiseOp = OR | AND | XOR
  /** The long/float/double comparisons `lcmp`, `fcmpl`/`dcmpl`, `fcmpg`/`dcmpg`. */
  datatype ComparisonOp = CMP | CMPL | CMPG

  /** The operator of a binary expression, tagged by its expression class. */
  datatype BinaryOp =
    | Arithmetic(aop: ArithmeticOp)
    | Condition(cop: ConditionOp)
    | Shift(sop: ShiftOp)
    | Bitwise(bop: BitwiseOp)
    | Comparison(cmp: ComparisonOp)

  /** Right-hand-side expressions; the operands of composite expressions are variables. */
  datatype Exp =
    | VarExp(v: Var)
    | IntLiteral(value: Int32)
    | OtherLiteral                       // long, float, double, string, class and null literals
    | Binary(op: BinaryOp, operand1: Var, operand2: Var)
    | Negation(v: Var)
    | ArrayLength(v: Var)
    | InstanceOf(v: Var, checked: Type)
    | Cast(v: Var, target: Type)
    | NewExp(newType: Type)
    | FieldAccess(receiver: Option<Var>, field: string)  // static when receiver is None
    | ArrayAccess(array: Var, index: Var)
    | InvokeExp(args: seq<Var>)         // a call's right-hand side; only `Invoke` statements carry one

  /** Left-hand sides of assignments. */
  datatype LValue =
    | LVar(lv: Var)
    | LField(fieldReceiver: Option<Var>, fieldName: string)
    | LArray(arrayBase: Var, arrayIndex: Var)

  /** A statement is identified by its index in the method's statement list. */
  type Node = int

  datatype Stmt =
    | Assign(lvalue: LValue, rvalue: Exp)              // an assignment (a definition statement)
    | Invoke(result: Option<Var>, args: seq<Var>)      // a call: a definition statement, not an assignment
    | If(cond: ConditionOp, left: Var, right: Var)     // a conditional branch
    | Switch(discriminant: Var, defaultTarget: Node)   // a multi-way branch
    | Other                                            // entry, exit, nop, goto, return, throw, ...

  /** Assignments and calls are definition statements. */
  predicate IsDefinition(s: Stmt) {
    s.Assign? || s.Invoke?
  }

  /**
   * The variable a definition statement defines, when its left-hand side is a
   * variable; `None` for field and array stores, calls without a result and
   * every other statement.
   */
  function DefinedVar(s: Stmt): (r: Option<Var>)
    ensures r.Some? ==> IsDefinition(s)
  {
    match s
    case Assign(LVar(x), _) => Some(x)
    case Invoke(result, _) => result
    case _ => None
  }

  /** The right-hand side of a definition statement. */
  function RValue(s: Stmt): Exp
    requires IsDefinition(s)
  {
    if s.Assign? then s.rvalue else InvokeExp(s.args)
  }

  /** The condition of a conditional branch, as a binary expression. */
  function ConditionOf(s: Stmt): Exp
    requires s.If?
  {
    Binary(Condition(s.cond), s.left, s.right)
  }
}
