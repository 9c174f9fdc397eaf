/** The evaluation of plural expressions. */
module PluralEval {
  import opened PluralExp
  import opened PluralGrammar

  /** A value of type unsigned long, or the signal for a division by zero. */
  datatype Result = Value(v: nat) | Sigfpe

  function Truth(b: bool): nat {
    if b then 1 else 0
  }

  /** The binary operators that evaluate both operands. */
  function Apply(op: Operator, left: nat, right: nat, m: ULongRange): Result {
    match op
    case Mult => Value(left * right % m)
    case Divide => if right == 0 then Sigfpe else Value(left / right)
    case Module => if right == 0 then Sigfpe else Value(left % right)
    case Plus => Value((left + right) % m)
    case Minus => Value((left - right) % m)
    case LessThan => Value(Truth(left < right))
    case GreaterThan => Value(Truth(left > right))
    case LessOrEqual => Value(Truth(left <= right))
    case GreaterOrEqual => Value(Truth(left >= right))
    case Equal => Value(Truth(left == right))
    case NotEqual => Value(Truth(left != right))
    case _ => Value(0)
  }

  /** The value of the expression for the number n. */
  function Eval(e: Expression, n: nat, m: ULongRange): Result
    requires WellFormed(e, m)
    decreases e
  {
    match e.nargs
    case 0 => Value(if e.operation == VarOp then n else e.val.num)
    case 1 =>
      var arg := Eval(e.val.args[0], n, m);
      if arg.Sigfpe? then arg else Value(Truth(arg.v == 0))
    case 2 =>
      var left := Eval(e.val.args[0], n, m);
      if left.Sigfpe? then
        left
      else if e.operation == LOr && left.v != 0 then
        Value(1)
      else if e.operation == LAnd && left.v == 0 then
        Value(0)
      else
        var right := Eval(e.val.args[1], n, m);
        if right.Sigfpe? then
          right
        else if e.operation == LOr || e.operation == LAnd then
          Value(Truth(right.v != 0))
        else
          Apply(e.operation, left.v, right.v, m)
    case _ =>
      var test := Eval(e.val.args[0], n, m);
      if test.Sigfpe? then test else Eval(e.val.args[if test.v != 0 then 1 else 2], n, m)
  }

  lemma ApplyRange(op: Operator, left: nat, right: nat, m: ULongRange)
    requires left < m && right < m
    ensures Apply(op, left, right, m).Value? ==> Apply(op, left, right, m).v < m
  {
    if op == Divide && right != 0 {
      QuotientBelow(left, right);
    }
  }

  lemma QuotientBelow(a: nat, b: nat)
    requires b > 0
    ensures a / b <= a
  {
    var q := a / b;
    assert a == q * b + a % b;
    Grows(q, b);
  }

  lemma Grows(q: nat, b: nat)
    requires b > 0
    ensures q <= q * b
  {
  }

  /** Every value is an unsigned long. */
  lemma {:induction false} EvalRange(e: Expression, n: nat, m: ULongRange)
    requires WellFormed(e, m) && n < m
    ensures Eval(e, n, m).Value? ==> Eval(e, n, m).v < m
    decreases e
  {
    match e.nargs
    case 0 =>
    case 1 =>
    case 2 =>
      var left, right := Eval(e.val.args[0], n, m), Eval(e.val.args[1], n, m);
      EvalRange(e.val.args[0], n, m);
      EvalRange(e.val.args[1], n, m);
      if left.Value? && right.Value? {
        ApplyRange(e.operation, left.v, right.v, m);
      }
    case _ =>
      EvalRange(e.val.args[1], n, m);
      EvalRange(e.val.args[2], n, m);
  }

  // ------------------------------------------------------------------------
  // What is evaluated
  // ------------------------------------------------------------------------

  /** The evaluation of e evaluates q. */
  ghost predicate Reaches(e: Expression, q: Expression, n: nat, m: ULongRange)
    requires WellFormed(e, m)
    decreases e
  {
    || q == e
    || (e.val.Args? && Reaches(e.val.args[0], q, n, m))
    || (e.nargs == 2 && RightNeeded(e, n, m) && Reaches(e.val.args[1], q, n, m))
    || (e.nargs == 3 && Eval(e.val.args[0], n, m).Value? &&
        Reaches(e.val.args[if Eval(e.val.args[0], n, m).v != 0 then 1 else 2], q, n, m))
  }

  /** The right operand is evaluated: not so after a true || and after a false &&. */
  ghost predicate RightNeeded(e: Expression, n: nat, m: ULongRange)
    requires WellFormed(e, m) && e.nargs == 2
  {
    && Eval(e.val.args[0], n, m).Value?
    && (e.operation == LOr ==> Eval(e.val.args[0], n, m).v == 0)
    && (e.operation == LAnd ==> Eval(e.val.args[0], n, m).v != 0)
  }

  /** A division or remainder whose operands have values, the right one zero. */
  ghost predicate DividesByZero(q: Expression, n: nat, m: ULongRange) {
    && WellFormed(q, m) && q.operation in {Divide, Module}
    && Eval(q.val.args[0], n, m).Value? && Eval(q.val.args[1], n, m) == Value(0)
  }

  /** The signal comes exactly from a division by zero that the evaluation reaches. */
  lemma {:induction false} SigfpeReached(e: Expression, n: nat, m: ULongRange) returns (q: Expression)
    requires WellFormed(e, m) && Eval(e, n, m) == Sigfpe
    ensures Reaches(e, q, n, m) && DividesByZero(q, n, m)
    decreases e
  {
    q := e;
    var args := e.val.args;
    if Eval(args[0], n, m) == Sigfpe {
      q := SigfpeReached(args[0], n, m);
    } else if e.nargs == 2 {
      if Eval(args[1], n, m) == Sigfpe {
        q := SigfpeReached(args[1], n, m);
      }
    } else if e.nargs == 3 {
      if Eval(args[0], n, m).v != 0 {
        q := SigfpeReached(args[1], n, m);
      } else {
        q := SigfpeReached(args[2], n, m);
      }
    }
  }

  lemma {:induction false} ReachedSigfpe(e: Expression, q: Expression, n: nat, m: ULongRange)
    requires WellFormed(e, m) && Reaches(e, q, n, m) && DividesByZero(q, n, m)
    ensures Eval(e, n, m) == Sigfpe
    decreases e
  {
    if q != e {
      var args := e.val.args;
      if Reaches(args[0], q, n, m) {
        ReachedSigfpe(args[0], q, n, m);
      } else if e.nargs == 2 {
        ReachedSigfpe(args[1], q, n, m);
      } else if Eval(args[0], n, m).v != 0 {
        ReachedSigfpe(args[1], q, n, m);
      } else {
        ReachedSigfpe(args[2], q, n, m);
      }
    }
  }

  // ------------------------------------------------------------------------
  // The arithmetic is that of the integers modulo m
  // ------------------------------------------------------------------------

  function Combine(op: Operator, a: int, b: int): int {
    if op == Plus then a + b else if op == Minus then a - b else a * b
  }

  lemma ModAdd(a: int, b: int, m: ULongRange)
    ensures (a % m + b % m) % m == (a + b) % m
    ensures (a % m - b % m) % m == (a - b) % m
  {
    var p, q := a / m, b / m;
    var s, t := (a % m + b % m) / m, (a % m - b % m) / m;
    MulSum(p, q, s, m);
    Remainder(a + b, p + q + s, (a % m + b % m) % m, m);
    MulDifference(p, q, t, m);
    Remainder(a - b, p - q + t, (a % m - b % m) % m, m);
  }

  lemma MulSum(p: int, q: int, s: int, m: int)
    ensures (p + q + s) * m == p * m + q * m + s * m
  {
  }

  lemma MulDifference(p: int, q: int, s: int, m: int)
    ensures (p - q + s) * m == p * m - q * m + s * m
  {
  }

  lemma ModMul(a: int, b: int, m: ULongRange)
    ensures (a % m) * (b % m) % m == a * b % m
  {
    var p, q, x, y := a / m, b / m, a % m, b % m;
    var s := x * y / m;
    Product(p, x, b, m);
    Product(q, y, x, m);
    MulSum(p * b, q * x, s, m);
    Remainder(a * b, p * b + q * x + s, x * y % m, m);
  }

  lemma Product(p: int, x: int, b: int, m: int)
    ensures (p * m + x) * b == (p * b) * m + x * b
  {
    assert p * m * b == (p * b) * m;
  }

  lemma ApplyModular(op: Operator, a: int, b: int, m: ULongRange)
    requires op in {Plus, Minus, Mult}
    ensures Apply(op, a % m, b % m, m) == Value(Combine(op, a, b) % m)
  {
    ModAdd(a, b, m);
    ModMul(a, b, m);
  }

  // ------------------------------------------------------------------------
  // What an expression means
  // ------------------------------------------------------------------------

  predicate Compares(op: Operator, a: int, b: int) {
    match op
    case LessThan => a < b
    case GreaterThan => a > b
    case LessOrEqual => a <= b
    case GreaterOrEqual => a >= b
    case Equal => a == b
    case _ => a != b
  }

  /** The unsigned long that e stands for: what it means, modulo m. */
  ghost predicate Stands(e: Expression, n: nat, m: ULongRange, v: int)
    requires WellFormed(e, m)
    decreases e, 1
  {
    exists x :: Means(e, n, m, x) && x % m == v
  }

  ghost predicate StandsNonzero(e: Expression, n: nat, m: ULongRange)
    requires WellFormed(e, m)
    decreases e, 1
  {
    exists x :: Means(e, n, m, x) && x % m != 0
  }

  /** e means the integer x. Sums, differences and products are those of the integers: nothing wraps around until a
      value is compared, divided or tested. Quotients and remainders are given by what defines them. An operand
      that is not needed may have no meaning; otherwise an operand without a meaning leaves e without one. */
  ghost predicate Means(e: Expression, n: nat, m: ULongRange, x: int)
    requires WellFormed(e, m)
    decreases e, 0
  {
    match e.operation
    case VarOp => x == n
    case NumOp => x == e.val.num
    case LNot => (x == 1 && Stands(e.val.args[0], n, m, 0)) || (x == 0 && StandsNonzero(e.val.args[0], n, m))
    case Plus | Minus | Mult =>
      exists a, b :: Means(e.val.args[0], n, m, a) && Means(e.val.args[1], n, m, b) && x == Combine(e.operation, a, b)
    case Divide =>
      exists a, b, r :: Stands(e.val.args[0], n, m, a) && Stands(e.val.args[1], n, m, b) && Divides(a, b, x, r)
    case Module =>
      exists a, b, q :: Stands(e.val.args[0], n, m, a) && Stands(e.val.args[1], n, m, b) && Divides(a, b, q, x)
    case LOr =>
      || (x == 1 && (StandsNonzero(e.val.args[0], n, m)
                     || (Stands(e.val.args[0], n, m, 0) && StandsNonzero(e.val.args[1], n, m))))
      || (x == 0 && Stands(e.val.args[0], n, m, 0) && Stands(e.val.args[1], n, m, 0))
    case LAnd =>
      || (x == 0 && (Stands(e.val.args[0], n, m, 0)
                     || (StandsNonzero(e.val.args[0], n, m) && Stands(e.val.args[1], n, m, 0))))
      || (x == 1 && StandsNonzero(e.val.args[0], n, m) && StandsNonzero(e.val.args[1], n, m))
    case QMop =>
      || (StandsNonzero(e.val.args[0], n, m) && Means(e.val.args[1], n, m, x))
      || (Stands(e.val.args[0], n, m, 0) && Means(e.val.args[2], n, m, x))
    case _ =>
      exists a, b :: Stands(e.val.args[0], n, m, a) && Stands(e.val.args[1], n, m, b)
                     && x == Truth(Compares(e.operation, a, b))
  }

  /** a is q times b, and r remains. */
  ghost predicate Divides(a: int, b: int, q: int, r: int) {
    a == q * b + r && 0 <= r < b
  }

  lemma QuotientUnique(a: nat, b: int, q: int, r: int)
    requires Divides(a, b, q, r)
    ensures a / b == q && a % b == r && 0 <= q <= a
  {
    var p, s := a / b, a % b;
    assert a == p * b + s;
    if p < q {
      Gap(p, q, b);
    } else if q < p {
      Gap(q, p, b);
    }
    QuotientBelow(a, b);
  }

  lemma Gap(p: int, q: int, b: int)
    requires p < q && b > 0
    ensures p * b + b <= q * b
  {
    assert (q - p) * b == q * b - p * b;
    Grows(q - p - 1, b);
    assert (q - p) * b == (q - p - 1) * b + b;
  }

  lemma SmallValue(x: int, m: ULongRange)
    requires 0 <= x < m
    ensures x % m == x
  {
    Remainder(x, 0, x, m);
  }

  lemma {:induction false} StandsEval(e: Expression, n: nat, m: ULongRange, v: int)
    requires WellFormed(e, m) && n < m && Stands(e, n, m, v)
    decreases e, 1
    ensures Eval(e, n, m) == Value(v)
  {
    var x :| Means(e, n, m, x) && x % m == v;
    MeansEval(e, n, m, x);
  }

  lemma {:induction false} NonzeroEval(e: Expression, n: nat, m: ULongRange)
    requires WellFormed(e, m) && n < m && StandsNonzero(e, n, m)
    decreases e, 1
    ensures Eval(e, n, m).Value? && Eval(e, n, m).v != 0
  {
    var x :| Means(e, n, m, x) && x % m != 0;
    MeansEval(e, n, m, x);
  }

  /** The evaluation finds what an expression means, modulo m. */
  lemma {:induction false} MeansEval(e: Expression, n: nat, m: ULongRange, x: int)
    requires WellFormed(e, m) && n < m && Means(e, n, m, x)
    decreases e, 0
    ensures Eval(e, n, m) == Value(x % m)
  {
    match e.operation
    case VarOp => SmallValue(n, m);
    case NumOp => SmallValue(x, m);
    case LNot | LOr | LAnd =>
      SmallValue(x, m);
      LogicEval(e, n, m, x);
    case Plus | Minus | Mult => SumEval(e, n, m, x);
    case Divide | Module => DivisionEval(e, n, m, x);
    case QMop => BranchEval(e, n, m, x);
    case _ => ComparisonEval(e, n, m, x);
  }

  lemma {:induction false} LogicEval(e: Expression, n: nat, m: ULongRange, x: int)
    requires WellFormed(e, m) && n < m && Means(e, n, m, x) && e.operation in {LNot, LOr, LAnd}
    decreases e, 0, 0
    ensures Eval(e, n, m) == Value(x)
  {
    ZeroOrNot(e.val.args[0], n, m);
    if e.nargs == 2 {
      ZeroOrNot(e.val.args[1], n, m);
    }
  }

  lemma {:induction false} ZeroOrNot(e: Expression, n: nat, m: ULongRange)
    requires WellFormed(e, m) && n < m
    decreases e, 2
    ensures Stands(e, n, m, 0) ==> Eval(e, n, m) == Value(0)
    ensures StandsNonzero(e, n, m) ==> Eval(e, n, m).Value? && Eval(e, n, m).v != 0
  {
    if StandsNonzero(e, n, m) {
      NonzeroEval(e, n, m);
    }
    if Stands(e, n, m, 0) {
      StandsEval(e, n, m, 0);
    }
  }

  lemma {:induction false} BranchEval(e: Expression, n: nat, m: ULongRange, x: int)
    requires WellFormed(e, m) && n < m && Means(e, n, m, x) && e.operation == QMop
    decreases e, 0, 0
    ensures Eval(e, n, m) == Value(x % m)
  {
    if StandsNonzero(e.val.args[0], n, m) && Means(e.val.args[1], n, m, x) {
      NonzeroEval(e.val.args[0], n, m);
      MeansEval(e.val.args[1], n, m, x);
    } else {
      StandsEval(e.val.args[0], n, m, 0);
      MeansEval(e.val.args[2], n, m, x);
    }
  }

  predicate Comparison(op: Operator) {
    op in {LessThan, GreaterThan, LessOrEqual, GreaterOrEqual, Equal, NotEqual}
  }

  lemma {:induction false} ComparisonEval(e: Expression, n: nat, m: ULongRange, x: int)
    requires WellFormed(e, m) && n < m && Means(e, n, m, x) && Comparison(e.operation)
    decreases e, 0, 0
    ensures Eval(e, n, m) == Value(x % m)
  {
    var a, b :| Stands(e.val.args[0], n, m, a) && Stands(e.val.args[1], n, m, b)
                && x == Truth(Compares(e.operation, a, b));
    StandsEval(e.val.args[0], n, m, a);
    StandsEval(e.val.args[1], n, m, b);
    SmallValue(x, m);
  }

  lemma {:induction false} SumEval(e: Expression, n: nat, m: ULongRange, x: int)
    requires WellFormed(e, m) && n < m && Means(e, n, m, x) && e.operation in {Plus, Minus, Mult}
    decreases e, 0, 0
    ensures Eval(e, n, m) == Value(x % m)
  {
    var a, b :| Means(e.val.args[0], n, m, a) && Means(e.val.args[1], n, m, b) && x == Combine(e.operation, a, b);
    MeansEval(e.val.args[0], n, m, a);
    MeansEval(e.val.args[1], n, m, b);
    ApplyModular(e.operation, a, b, m);
  }

  lemma {:induction false} DivisionEval(e: Expression, n: nat, m: ULongRange, x: int)
    requires WellFormed(e, m) && n < m && Means(e, n, m, x) && e.operation in {Divide, Module}
    decreases e, 0, 0
    ensures Eval(e, n, m) == Value(x % m)
  {
    var l, r := e.val.args[0], e.val.args[1];
    var a, b, q, s :| Stands(l, n, m, a) && Stands(r, n, m, b) && Divides(a, b, q, s)
                      && x == if e.operation == Divide then q else s;
    StandsEval(l, n, m, a);
    StandsEval(r, n, m, b);
    EvalRange(l, n, m);
    EvalRange(r, n, m);
    QuotientUnique(a, b, q, s);
    SmallValue(x, m);
  }

  /** An expression that has a value means something with that value. */
  lemma {:induction false} EvalMeans(e: Expression, n: nat, m: ULongRange) returns (x: int)
    requires WellFormed(e, m) && n < m && Eval(e, n, m).Value?
    decreases e
    ensures Means(e, n, m, x) && Eval(e, n, m) == Value(x % m)
  {
    if e.nargs == 0 {
      x := if e.operation == VarOp then n else e.val.num;
      SmallValue(x, m);
    } else {
      var args := e.val.args;
      var a := EvalMeans(args[0], n, m);
      assert Stands(args[0], n, m, a % m);
      assert a % m != 0 ==> StandsNonzero(args[0], n, m);
      if e.nargs == 1 {
        x := Truth(a % m == 0);
        SmallValue(x, m);
      } else if e.nargs == 3 {
        x := EvalMeans(args[if a % m != 0 then 1 else 2], n, m);
      } else if (e.operation == LOr && a % m != 0) || (e.operation == LAnd && a % m == 0) {
        x := Truth(a % m != 0);
        SmallValue(x, m);
      } else {
        var b := EvalMeans(args[1], n, m);
        x := BinaryMeans(e, n, m, a, b);
      }
    }
  }

  /** Both operands of e have a meaning and a value, and are needed. */
  ghost predicate BothMean(e: Expression, n: nat, m: ULongRange, a: int, b: int)
    requires WellFormed(e, m) && e.nargs == 2
  {
    && Means(e.val.args[0], n, m, a) && Eval(e.val.args[0], n, m) == Value(a % m)
    && Means(e.val.args[1], n, m, b) && Eval(e.val.args[1], n, m) == Value(b % m)
  }

  lemma LogicMeans(e: Expression, n: nat, m: ULongRange, a: int, b: int) returns (x: int)
    requires WellFormed(e, m) && n < m && e.operation in {LOr, LAnd} && RightNeeded(e, n, m) && BothMean(e, n, m, a, b)
    ensures Means(e, n, m, x) && Eval(e, n, m) == Value(x % m)
  {
    var l, r := e.val.args[0], e.val.args[1];
    assert Stands(l, n, m, a % m) && (a % m != 0 ==> StandsNonzero(l, n, m));
    assert Stands(r, n, m, b % m) && (b % m != 0 ==> StandsNonzero(r, n, m));
    x := Truth(b % m != 0);
    SmallValue(x, m);
  }

  lemma SumMeans(e: Expression, n: nat, m: ULongRange, a: int, b: int) returns (x: int)
    requires WellFormed(e, m) && n < m && e.operation in {Plus, Minus, Mult} && BothMean(e, n, m, a, b)
    ensures Means(e, n, m, x) && Eval(e, n, m) == Value(x % m)
  {
    x := Combine(e.operation, a, b);
    ApplyModular(e.operation, a, b, m);
  }

  lemma DivisionMeans(e: Expression, n: nat, m: ULongRange, a: int, b: int) returns (x: int)
    requires WellFormed(e, m) && n < m && e.operation in {Divide, Module} && BothMean(e, n, m, a, b) && b % m != 0
    ensures Means(e, n, m, x) && Eval(e, n, m) == Value(x % m)
  {
    var c, d := a % m, b % m;
    var q, s := c / d, c % d;
    assert Stands(e.val.args[0], n, m, c) && Stands(e.val.args[1], n, m, d);
    assert Divides(c, d, q, s);
    x := if e.operation == Divide then q else s;
    QuotientUnique(c, d, q, s);
    SmallValue(x, m);
  }

  lemma ComparisonMeans(e: Expression, n: nat, m: ULongRange, a: int, b: int) returns (x: int)
    requires WellFormed(e, m) && n < m && Comparison(e.operation) && BothMean(e, n, m, a, b)
    ensures Means(e, n, m, x) && Eval(e, n, m) == Value(x % m)
  {
    assert Stands(e.val.args[0], n, m, a % m) && Stands(e.val.args[1], n, m, b % m);
    x := Truth(Compares(e.operation, a % m, b % m));
    SmallValue(x, m);
  }

  /** The case of two operands that are both needed. */
  lemma BinaryMeans(e: Expression, n: nat, m: ULongRange, a: int, b: int) returns (x: int)
    requires WellFormed(e, m) && n < m && e.nargs == 2 && Eval(e, n, m).Value? && RightNeeded(e, n, m)
    requires BothMean(e, n, m, a, b)
    ensures Means(e, n, m, x) && Eval(e, n, m) == Value(x % m)
  {
    match e.operation
    case LOr | LAnd => x := LogicMeans(e, n, m, a, b);
    case Plus | Minus | Mult => x := SumMeans(e, n, m, a, b);
    case Divide | Module => x := DivisionMeans(e, n, m, a, b);
    case _ => x := ComparisonMeans(e, n, m, a, b);
  }

  /** The evaluation gives the value v if and only if v is what the expression means, modulo ULONG_MAX + 1. */
  lemma EvalModular(e: Expression, n: nat, m: ULongRange, v: nat)
    requires WellFormed(e, m) && n < m
    ensures Eval(e, n, m) == Value(v) <==> Stands(e, n, m, v)
  {
    if Eval(e, n, m).Value? {
      var x := EvalMeans(e, n, m);
    }
    if Stands(e, n, m, v) {
      StandsEval(e, n, m, v);
    }
  }
}
