/** One step of the parser as a function of its stacks and of the tokens that are left. */
module PluralEngine {
  import opened Wrappers
  import opened PluralExp
  import opened PluralTables

  /** The union of semantic values. Unset stands for a value that the lexer has not assigned. */
  datatype SemVal = Unset | NumVal(num: nat) | OpVal(op: Operator) | ExpVal(exp: Option<Expression>)

  datatype Token = Token(yychar: int, val: SemVal)

  const END_TOKEN := Token(YYEOF, Unset)

  function Symbol(t: Token): int {
    if t.yychar <= YYEOF then 0 else YyTranslate(t.yychar)
  }

  /** The state stack and the value stack; the initial state 0 is at the bottom. */
  datatype Stack = Bottom | Push(below: Stack, state: int, val: SemVal)

  function TopState(s: Stack): int {
    if s.Bottom? then 0 else s.state
  }

  /** The k-th value from the top. */
  function ValueAt(s: Stack, k: nat): SemVal {
    if s.Bottom? then Unset else if k == 0 then s.val else ValueAt(s.below, k - 1)
  }

  function Pop(s: Stack, k: nat): Stack {
    if s.Bottom? || k == 0 then s else Pop(s.below, k - 1)
  }

  /** The parser between two actions: input are the tokens not yet shifted, made is the number of
      allocations tried, res is what the start rule has stored. */
  datatype Config = Config(stack: Stack, input: seq<Token>, made: nat, res: Option<Expression>)

  datatype Outcome = Running(config: Config) | Accepted(res: Option<Expression>) | Rejected

  function Lookahead(input: seq<Token>): Token {
    if input == [] then END_TOKEN else input[0]
  }

  function ExpOf(v: SemVal): Option<Expression> {
    if v.ExpVal? then v.exp else None
  }

  function OpOf(v: SemVal): Operator {
    if v.OpVal? then v.op else VarOp
  }

  function NumOf(v: SemVal): nat {
    if v.NumVal? then v.num else 0
  }

  /** Which of the allocations succeed. */
  type Grants = nat -> bool

  /** A new node or NULL, and the number of allocations tried. */
  datatype NewNode = NewNode(exp: Option<Expression>, made: nat)

  predicate AnyNull(args: seq<Option<Expression>>) {
    exists i :: 0 <= i < |args| && args[i] == None
  }

  function Values(args: seq<Option<Expression>>): seq<Expression>
    requires !AnyNull(args)
  {
    seq(|args|, i requires 0 <= i < |args| => args[i].value)
  }

  /** A new node; none if an argument is missing or memory is refused. */
  function NewExp(op: Operator, args: seq<Option<Expression>>, made: nat, grants: Grants): NewNode {
    if AnyNull(args) then
      NewNode(None, made)
    else if grants(made) then
      NewNode(Some(Expression(|args|, op, if args == [] then Nothing else Args(Values(args)))), made + 1)
    else
      NewNode(None, made + 1)
  }

  /** A node for a number. */
  function NewNumber(num: nat, made: nat, grants: Grants): NewNode {
    var n := NewExp(NumOp, [], made, grants);
    if n.exp.Some? then NewNode(Some(n.exp.value.(val := Number(num))), n.made) else n
  }

  /** The node that a reduction by rule (3 to 12) makes. */
  function NodeOf(rule: int, s: Stack, made: nat, grants: Grants): NewNode {
    match rule
    case 3 => NewExp(QMop, [ExpOf(ValueAt(s, 4)), ExpOf(ValueAt(s, 2)), ExpOf(ValueAt(s, 0))], made, grants)
    case 4 => NewExp(LOr, [ExpOf(ValueAt(s, 2)), ExpOf(ValueAt(s, 0))], made, grants)
    case 5 => NewExp(LAnd, [ExpOf(ValueAt(s, 2)), ExpOf(ValueAt(s, 0))], made, grants)
    case 10 => NewExp(LNot, [ExpOf(ValueAt(s, 0))], made, grants)
    case 11 => NewExp(VarOp, [], made, grants)
    case 12 => NewNumber(NumOf(ValueAt(s, 0)), made, grants)
    case _ => NewExp(OpOf(ValueAt(s, 1)), [ExpOf(ValueAt(s, 2)), ExpOf(ValueAt(s, 0))], made, grants)
  }

  /** What an action does: it gives up, or yields a value and perhaps a result. */
  datatype Effect = Abort | Effect(yyval: SemVal, made: nat, res: Option<Expression>)

  function EffectOf(rule: int, s: Stack, made: nat, res: Option<Expression>, grants: Grants): Effect {
    if rule == 2 then
      if ExpOf(ValueAt(s, 0)) == None then Abort else Effect(ValueAt(s, 0), made, ExpOf(ValueAt(s, 0)))
    else if rule == 13 then
      Effect(ExpVal(ExpOf(ValueAt(s, 1))), made, res)
    else
      var n := NodeOf(rule, s, made, grants);
      Effect(ExpVal(n.exp), n.made, res)
  }

  function Reduction(c: Config, rule: int, grants: Grants): Outcome {
    match EffectOf(rule, c.stack, c.made, c.res, grants)
    case Abort => Rejected
    case Effect(yyval, made, res) =>
      var base := Pop(c.stack, YyR2(rule));
      Running(Config(Push(base, GotoOf(rule, TopState(base)), yyval), c.input, made, res))
  }

  function Step(c: Config, grants: Grants): Outcome {
    var state := TopState(c.stack);
    if state == YYFINAL then
      Accepted(c.res)
    else
      match ActionOf(state, Symbol(Lookahead(c.input)))
      case Error => Rejected
      case Reduce(rule) => Reduction(c, rule, grants)
      case Shift(next) =>
        Running(c.(stack := Push(c.stack, next, Lookahead(c.input).val),
                   input := if c.input == [] then [] else c.input[1..]))
  }

  /** step is the step function. The depth only keeps the definition folded. */
  ghost predicate IsStep(step: Config -> Outcome, grants: Grants, depth: nat)
    decreases depth
  {
    if depth == 0 then forall c :: step(c) == Step(c, grants) else IsStep(step, grants, depth - 1)
  }

  /** A parser: its step function, and which of its allocations succeed. */
  datatype Machine = Machine(step: Config -> Outcome, grants: Grants, depth: nat)

  ghost predicate Works(p: Machine) {
    p.depth >= 2 && IsStep(p.step, p.grants, p.depth)
  }

  lemma {:induction false} StepsAs(step: Config -> Outcome, grants: Grants, depth: nat, c: Config)
    requires IsStep(step, grants, depth)
    ensures step(c) == Step(c, grants)
    decreases depth
  {
    if depth > 0 {
      StepsAs(step, grants, depth - 1, c);
    }
  }

  /** The parser with the given allocations. */
  lemma Parser(grants: Grants) returns (p: Machine)
    ensures Works(p) && p.grants == grants
  {
    p := Machine((c: Config) => Step(c, grants), grants, 2);
    assert IsStep(p.step, grants, 0);
    assert IsStep(p.step, grants, 1);
  }

  /** n steps lead from c to d. */
  ghost predicate Leads(step: Config -> Outcome, c: Config, d: Config, n: nat)
    decreases n
  {
    if n == 0 then c == d else step(c).Running? && Leads(step, step(c).config, d, n - 1)
  }

  lemma {:induction false} LeadsTransitive(step: Config -> Outcome, c: Config, d: Config, e: Config, m: nat, n: nat)
    requires Leads(step, c, d, m) && Leads(step, d, e, n)
    ensures Leads(step, c, e, m + n)
    decreases m
  {
    if m > 0 {
      LeadsTransitive(step, step(c).config, d, e, m - 1, n);
    }
  }

  /** A run ends in one way only. */
  lemma {:induction false} OneEnd(step: Config -> Outcome, c: Config, d: Config, e: Config, m: nat, n: nat)
    requires Leads(step, c, d, m) && Leads(step, c, e, n)
    requires !step(d).Running? && !step(e).Running?
    ensures d == e
    decreases m
  {
    if m > 0 && n > 0 {
      OneEnd(step, step(c).config, d, e, m - 1, n - 1);
    }
  }
}
