/** Plural expressions as the parser builds them, and their evaluation. */
module PluralExp {

  datatype Operator =
    | VarOp | NumOp | LNot
    | Mult | Divide | Module | Plus | Minus
    | LessThan | GreaterThan | LessOrEqual | GreaterOrEqual | Equal | NotEqual
    | LAnd | LOr
    | QMop

  /** The union in a node: nothing for the variable, a number, or the arguments. */
  datatype Payload = Nothing | Number(num: nat) | Args(args: seq<Expression>)

  datatype Expression = Expression(nargs: nat, operation: Operator, val: Payload)

  /** ULONG_MAX + 1. An unsigned long has at least 32 bits. */
  type ULongRange = m: int | m >= 0x1_0000_0000 witness 0x1_0000_0000

  /** Every node has the number of arguments that goes with its operator. */
  ghost predicate WellFormed(e: Expression, m: ULongRange)
    decreases e
  {
    match e.operation
    case VarOp => e.nargs == 0 && e.val == Nothing
    case NumOp => e.nargs == 0 && e.val.Number? && e.val.num < m
    case LNot => e.nargs == 1 && e.val.Args? && |e.val.args| == 1 && WellFormed(e.val.args[0], m)
    case QMop =>
      && e.nargs == 3 && e.val.Args? && |e.val.args| == 3
      && WellFormed(e.val.args[0], m) && WellFormed(e.val.args[1], m) && WellFormed(e.val.args[2], m)
    case _ =>
      && e.nargs == 2 && e.val.Args? && |e.val.args| == 2
      && WellFormed(e.val.args[0], m) && WellFormed(e.val.args[1], m)
  }

  // ------------------------------------------------------------------------
  // Remainders
  // ------------------------------------------------------------------------

  /** The remainder is the only number in the range that differs from a by a multiple of m. */
  lemma Remainder(a: int, q: int, r: int, m: ULongRange)
    requires a == q * m + r && 0 <= r < m
    ensures a % m == r
  {
    var d := a / m;
    if d < q {
      AtLeast(q - d, m);
    } else if d > q {
      AtLeast(d - q, m);
    }
  }

  lemma AtLeast(k: int, m: ULongRange)
    requires k >= 1
    ensures k * m >= m
  {
  }
}
