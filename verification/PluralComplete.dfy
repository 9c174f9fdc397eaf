/** Every properly written expression is parsed to its tree. */
module PluralComplete {
  import opened Wrappers
  import opened PluralExp
  import opened PluralTables
  import opened PluralEngine
  import opened PluralGrammar

  /** A token that does not go on inside phrase p when it comes after p. */
  predicate CanFollow(token: int, p: Phrase) {
    IsOperator(token) ==> token <= Strength(p) && !p.Cond?
  }

  ghost predicate Granted(pm: Machine, made: nat, count: nat) {
    forall i :: made <= i < made + count ==> pm.grants(i)
  }

  lemma SymbolRange(t: Token)
    ensures 0 <= Symbol(t) < YYNTOKENS
  {
  }

  lemma OpSymbol(level: int, op: Operator)
    requires OpFits(level, op)
    ensures 4 <= level <= 9 && Symbol(OpToken(level, op)) == level
    ensures 6 <= level ==> OpToken(level, op).val == OpVal(op)
    ensures level == 4 ==> op == LOr
    ensures level == 5 ==> op == LAnd
  {
  }

  // ------------------------------------------------------------------------
  // Single steps
  // ------------------------------------------------------------------------

  lemma Shifts(c: Config, next: int, pm: Machine)
    requires Works(pm) && TopState(c.stack) != YYFINAL && c.input != []
    requires ActionOf(TopState(c.stack), Symbol(c.input[0])) == Shift(next)
    ensures pm.step(c) == Running(c.(stack := Push(c.stack, next, c.input[0].val), input := c.input[1..]))
  {
    StepsAs(pm.step, pm.grants, pm.depth, c);
  }

  lemma Reduces(c: Config, rule: int, pm: Machine)
    requires Works(pm) && TopState(c.stack) != YYFINAL && c.input != []
    requires ActionOf(TopState(c.stack), Symbol(c.input[0])) == Reduce(rule)
    ensures pm.step(c) == Reduction(c, rule, pm.grants)
  {
    StepsAs(pm.step, pm.grants, pm.depth, c);
  }

  lemma OneMore(step: Config -> Outcome, c: Config, d: Config, e: Config, n: nat)
    requires Leads(step, c, d, n) && step(d) == Running(e)
    ensures Leads(step, c, e, n + 1)
  {
    assert Leads(step, d, e, 1);
    LeadsTransitive(step, c, d, e, n, 1);
  }

  /** A token that begins or continues a phrase is shifted in a state that expects a phrase. */
  lemma ShiftsPrefix(c: Config, next: int, pm: Machine)
    requires Works(pm) && Expecting(TopState(c.stack)) && c.input != []
    requires (Symbol(c.input[0]), next) in {(10, 1), (11, 2), (13, 3), (14, 4)}
    ensures pm.step(c) == Running(c.(stack := Push(c.stack, next, c.input[0].val), input := c.input[1..]))
  {
    ActionsBefore(TopState(c.stack), Symbol(c.input[0]));
    Shifts(c, next, pm);
  }

  /** After a phrase that begins in state q, an operator is shifted if it binds tightly enough there. */
  lemma ShiftsOperator(c: Config, q: int, pm: Machine)
    requires Works(pm) && Expecting(q) && TopState(c.stack) == AfterExp(q) && c.input != []
    requires IsOperator(Symbol(c.input[0])) && Weakest(q) <= Symbol(c.input[0])
    ensures pm.step(c) ==
            Running(c.(stack := Push(c.stack, Symbol(c.input[0]) + 7, c.input[0].val), input := c.input[1..]))
  {
    ActionsAfter(q, Symbol(c.input[0]));
    Shifts(c, Symbol(c.input[0]) + 7, pm);
  }

  // ------------------------------------------------------------------------
  // Reductions
  // ------------------------------------------------------------------------

  /** The stack after phrase p has been read in state q. */
  ghost function Exp(s: Stack, q: int, p: Phrase): Stack
    requires Expecting(q)
  {
    Push(s, AfterExp(q), ExpVal(Some(Tree(p))))
  }

  lemma TopThree(s: Stack, s1: int, v1: SemVal, s2: int, v2: SemVal, s3: int, v3: SemVal)
    ensures var top := Push(Push(Push(s, s1, v1), s2, v2), s3, v3);
            ValueAt(top, 0) == v3 && ValueAt(top, 1) == v2 && ValueAt(top, 2) == v1 && Pop(top, 3) == s
            && Pop(top, 2) == Push(s, s1, v1) && Pop(top, 1) == Push(Push(s, s1, v1), s2, v2)
  {
    var top := Push(Push(Push(s, s1, v1), s2, v2), s3, v3);
    assert ValueAt(top, 2) == ValueAt(top.below, 1) == ValueAt(top.below.below, 0);
    assert Pop(top, 3) == Pop(top.below, 2) == Pop(top.below.below, 1) == Pop(s, 0);
    assert Pop(top, 2) == Pop(top.below, 1) == Pop(top.below.below, 0);
  }

  lemma ReducesBinary(s: Stack, level: int, op: Operator, l: Phrase, r: Phrase, rest: seq<Token>, made: nat,
                      res: Option<Expression>, pm: Machine)
    requires Works(pm) && Expecting(TopState(s)) && OpFits(level, op) && rest != [] && pm.grants(made)
    requires CanFollow(Symbol(rest[0]), Binary(level, op, l, r))
    ensures var top := Exp(Push(Exp(s, TopState(s), l), level + 7, OpToken(level, op).val), level + 7, r);
            pm.step(Config(top, rest, made, res)) ==
            Running(Config(Exp(s, TopState(s), Binary(level, op, l, r)), rest, made + 1, res))
  {
    OpSymbol(level, op);
    SymbolRange(rest[0]);
    var q, v := TopState(s), OpToken(level, op).val;
    var top := Exp(Push(Exp(s, q, l), level + 7, v), level + 7, r);
    ActionsAfter(level + 7, Symbol(rest[0]));
    Reduces(Config(top, rest, made, res), level, pm);
    TopThree(s, AfterExp(q), ExpVal(Some(Tree(l))), level + 7, v, AfterExp(level + 7), ExpVal(Some(Tree(r))));
    assert YyR2(level) == 3;
    Gotos(level, q);
    BuiltBinary(op, Tree(l), Tree(r), made, pm.grants);
  }

  lemma BuiltBinary(op: Operator, a: Expression, b: Expression, made: nat, grants: Grants)
    requires grants(made)
    ensures NewExp(op, [Some(a), Some(b)], made, grants) == NewNode(Some(Expression(2, op, Args([a, b]))), made + 1)
  {
    assert !AnyNull([Some(a), Some(b)]);
    assert Values([Some(a), Some(b)]) == [a, b];
  }

  lemma ReducesVar(s: Stack, rest: seq<Token>, made: nat, res: Option<Expression>, pm: Machine)
    requires Works(pm) && Expecting(TopState(s)) && rest != [] && pm.grants(made)
    ensures pm.step(Config(Push(s, 3, Unset), rest, made, res)) ==
            Running(Config(Exp(s, TopState(s), Var), rest, made + 1, res))
  {
    SymbolRange(rest[0]);
    ActionsOther(Symbol(rest[0]));
    Reduces(Config(Push(s, 3, Unset), rest, made, res), 11, pm);
    Gotos(11, TopState(s));
    assert Pop(Push(s, 3, Unset), 1) == Pop(s, 0) && YyR2(11) == 1;
  }

  lemma ReducesNumber(s: Stack, k: nat, rest: seq<Token>, made: nat, res: Option<Expression>, pm: Machine)
    requires Works(pm) && Expecting(TopState(s)) && rest != [] && pm.grants(made)
    ensures pm.step(Config(Push(s, 2, NumVal(k)), rest, made, res)) ==
            Running(Config(Exp(s, TopState(s), Num(k)), rest, made + 1, res))
  {
    SymbolRange(rest[0]);
    ActionsOther(Symbol(rest[0]));
    Reduces(Config(Push(s, 2, NumVal(k)), rest, made, res), 12, pm);
    Gotos(12, TopState(s));
    assert Pop(Push(s, 2, NumVal(k)), 1) == Pop(s, 0) && YyR2(12) == 1;
  }

  lemma ReducesNot(s: Stack, arg: Phrase, rest: seq<Token>, made: nat, res: Option<Expression>, pm: Machine)
    requires Works(pm) && Expecting(TopState(s)) && rest != [] && pm.grants(made)
    ensures pm.step(Config(Exp(Push(s, 1, Unset), 1, arg), rest, made, res)) ==
            Running(Config(Exp(s, TopState(s), Not(arg)), rest, made + 1, res))
  {
    SymbolRange(rest[0]);
    ActionsAfter(1, Symbol(rest[0]));
    var top := Exp(Push(s, 1, Unset), 1, arg);
    Reduces(Config(top, rest, made, res), 10, pm);
    Gotos(10, TopState(s));
    assert Pop(top, 2) == Pop(top.below, 1) == Pop(s, 0) && YyR2(10) == 2;
    var a := Tree(arg);
    assert !AnyNull([Some(a)]) && Values([Some(a)]) == [a];
  }

  lemma ReducesParen(s: Stack, inner: Phrase, rest: seq<Token>, made: nat, res: Option<Expression>, pm: Machine)
    requires Works(pm) && Expecting(TopState(s)) && rest != []
    ensures pm.step(Config(Push(Exp(Push(s, 4, Unset), 4, inner), 17, Unset), rest, made, res)) ==
            Running(Config(Exp(s, TopState(s), Paren(inner)), rest, made, res))
  {
    SymbolRange(rest[0]);
    ActionsOther(Symbol(rest[0]));
    var top := Push(Exp(Push(s, 4, Unset), 4, inner), 17, Unset);
    Reduces(Config(top, rest, made, res), 13, pm);
    Gotos(13, TopState(s));
    TopThree(s, 4, Unset, 8, ExpVal(Some(Tree(inner))), 17, Unset);
    assert YyR2(13) == 3;
  }

  lemma TopFive(s: Stack, s1: int, v1: SemVal, s2: int, v2: SemVal, s3: int, v3: SemVal, s4: int, v4: SemVal, s5: int,
                v5: SemVal)
    ensures var top := Push(Push(Push(Push(Push(s, s1, v1), s2, v2), s3, v3), s4, v4), s5, v5);
            ValueAt(top, 0) == v5 && ValueAt(top, 2) == v3 && ValueAt(top, 4) == v1 && Pop(top, 5) == s
  {
    var mid := Push(Push(s, s1, v1), s2, v2);
    TopThree(mid, s3, v3, s4, v4, s5, v5);
    var top := Push(Push(Push(mid, s3, v3), s4, v4), s5, v5);
    assert ValueAt(top, 4) == ValueAt(top.below, 3) == ValueAt(top.below.below, 2) == ValueAt(mid, 1)
        == ValueAt(mid.below, 0);
    assert Pop(top, 5) == Pop(top.below, 4) == Pop(top.below.below, 3) == Pop(mid, 2) == Pop(mid.below, 1) == Pop(s, 0);
  }

  lemma ReducesCond(s: Stack, test: Phrase, yes: Phrase, no: Phrase, rest: seq<Token>, made: nat,
                    res: Option<Expression>, pm: Machine)
    requires Works(pm) && Expecting(TopState(s)) && rest != [] && pm.grants(made) && !IsOperator(Symbol(rest[0]))
    ensures var top := Exp(Push(Exp(Push(Exp(s, TopState(s), test), 10, Unset), 10, yes), 25, Unset), 25, no);
            pm.step(Config(top, rest, made, res)) ==
            Running(Config(Exp(s, TopState(s), Cond(test, yes, no)), rest, made + 1, res))
  {
    SymbolRange(rest[0]);
    ActionsAfter(25, Symbol(rest[0]));
    var q, a, b, c := TopState(s), Tree(test), Tree(yes), Tree(no);
    var top := Exp(Push(Exp(Push(Exp(s, q, test), 10, Unset), 10, yes), 25, Unset), 25, no);
    Reduces(Config(top, rest, made, res), 3, pm);
    Gotos(3, q);
    TopFive(s, AfterExp(q), ExpVal(Some(a)), 10, Unset, 18, ExpVal(Some(b)), 25, Unset, 26, ExpVal(Some(c)));
    assert YyR2(3) == 5;
    assert !AnyNull([Some(a), Some(b), Some(c)]) && Values([Some(a), Some(b), Some(c)]) == [a, b, c];
  }

  // ------------------------------------------------------------------------
  // Phrases
  // ------------------------------------------------------------------------

  /** Phrase p is read from the state on top of s: the values and the input before and after. */
  ghost predicate Reads(p: Phrase, s: Stack, input: seq<Token>, rest: seq<Token>, made: nat, res: Option<Expression>,
                        pm: Machine, n: nat)
    requires Expecting(TopState(s))
  {
    Leads(pm.step, Config(s, input, made, res), Config(Exp(s, TopState(s), p), rest, made + Size(p), res), n)
  }

  /** What the reading of p needs: a state in which p may stand, a token that does not go on inside p, and memory. */
  ghost predicate Ready(p: Phrase, s: Stack, rest: seq<Token>, made: nat, pm: Machine, m: ULongRange) {
    && Works(pm) && Proper(p, m)
    && Expecting(TopState(s)) && Strength(p) >= Weakest(TopState(s))
    && rest != [] && CanFollow(Symbol(rest[0]), p)
    && Granted(pm, made, Size(p))
  }

  lemma Via(step: Config -> Outcome, c: Config, d: Config, e: Config, f: Config, k: nat, n: nat)
    requires Leads(step, c, d, k) && step(d) == Running(e) && Leads(step, e, f, n)
    ensures Leads(step, c, f, k + 1 + n)
  {
    OneMore(step, c, d, e, k);
    LeadsTransitive(step, c, e, f, k + 1, n);
  }

  /** Reading a phrase takes the parser from one state to the next, whatever comes before and after it. */
  lemma {:induction false} ReadsPhrase(p: Phrase, s: Stack, rest: seq<Token>, made: nat, res: Option<Expression>,
                                       pm: Machine, m: ULongRange)
    returns (n: nat)
    requires Ready(p, s, rest, made, pm, m)
    ensures Reads(p, s, Tokens(p) + rest, rest, made, res, pm, n)
    decreases p
  {
    match p
    case Var => n := ReadsLeaf(p, s, rest, made, res, pm, m);
    case Num(_) => n := ReadsLeaf(p, s, rest, made, res, pm, m);
    case Not(_) => n := ReadsNot(p, s, rest, made, res, pm, m);
    case Binary(_, _, _, _) => n := ReadsBinary(p, s, rest, made, res, pm, m);
    case Cond(_, _, _) => n := ReadsCond(p, s, rest, made, res, pm, m);
    case Paren(_) => n := ReadsParen(p, s, rest, made, res, pm, m);
  }

  lemma ReadsLeaf(p: Phrase, s: Stack, rest: seq<Token>, made: nat, res: Option<Expression>, pm: Machine, m: ULongRange)
    returns (n: nat)
    requires Ready(p, s, rest, made, pm, m) && (p.Var? || p.Num?)
    ensures Reads(p, s, Tokens(p) + rest, rest, made, res, pm, n)
    decreases p, 0
  {
    var step, t := pm.step, Tokens(p)[0];
    var c := Config(s, Tokens(p) + rest, made, res);
    var d := Config(Push(s, if p.Var? then 3 else 2, t.val), rest, made, res);
    assert c.input[1..] == rest;
    ShiftsPrefix(c, if p.Var? then 3 else 2, pm);
    if p.Var? {
      ReducesVar(s, rest, made, res, pm);
    } else {
      ReducesNumber(s, p.num, rest, made, res, pm);
    }
    OneMore(step, c, c, d, 0);
    OneMore(step, c, d, Config(Exp(s, TopState(s), p), rest, made + 1, res), 1);
    n := 2;
  }

  lemma ReadsNot(p: Phrase, s: Stack, rest: seq<Token>, made: nat, res: Option<Expression>, pm: Machine, m: ULongRange)
    returns (n: nat)
    requires Ready(p, s, rest, made, pm, m) && p.Not?
    ensures Reads(p, s, Tokens(p) + rest, rest, made, res, pm, n)
    decreases p, 0
  {
    var step, t := pm.step, Token('!' as int, Unset);
    var c := Config(s, Tokens(p) + rest, made, res);
    var s1, inner := Push(s, 1, Unset), Tokens(p.arg) + rest;
    assert c.input == [t] + inner;
    ShiftsPrefix(c, 1, pm);
    var n1 := ReadsPhrase(p.arg, s1, rest, made, res, pm, m);
    var e := Config(Exp(s1, 1, p.arg), rest, made + Size(p.arg), res);
    Via(step, c, c, Config(s1, inner, made, res), e, 0, n1);
    ReducesNot(s, p.arg, rest, made + Size(p.arg), res, pm);
    OneMore(step, c, e, Config(Exp(s, TopState(s), p), rest, made + Size(p), res), n1 + 1);
    n := n1 + 2;
  }

  lemma ReadsParen(p: Phrase, s: Stack, rest: seq<Token>, made: nat, res: Option<Expression>, pm: Machine,
                   m: ULongRange)
    returns (n: nat)
    requires Ready(p, s, rest, made, pm, m) && p.Paren?
    ensures Reads(p, s, Tokens(p) + rest, rest, made, res, pm, n)
    decreases p, 0
  {
    var step, open, close := pm.step, Token('(' as int, Unset), Token(')' as int, Unset);
    var c := Config(s, Tokens(p) + rest, made, res);
    var s1, inner := Push(s, 4, Unset), Tokens(p.inner) + ([close] + rest);
    assert c.input == [open] + inner;
    ShiftsPrefix(c, 4, pm);
    var n1 := ReadsPhrase(p.inner, s1, [close] + rest, made, res, pm, m);
    var e := Config(Exp(s1, 4, p.inner), [close] + rest, made + Size(p), res);
    Via(step, c, c, Config(s1, inner, made, res), e, 0, n1);
    var f := Config(Push(e.stack, 17, Unset), rest, made + Size(p), res);
    ActionsAfter(4, 15);
    assert e.input[1..] == rest;
    Shifts(e, 17, pm);
    OneMore(step, c, e, f, n1 + 1);
    ReducesParen(s, p.inner, rest, made + Size(p), res, pm);
    OneMore(step, c, f, Config(Exp(s, TopState(s), p), rest, made + Size(p), res), n1 + 2);
    n := n1 + 3;
  }

  /** The left operand can be read, because its operator does not go on inside it. */
  lemma ReadyLeft(p: Phrase, s: Stack, rest: seq<Token>, made: nat, pm: Machine, m: ULongRange, next: seq<Token>)
    requires Ready(p, s, rest, made, pm, m) && p.Binary? && next != [] && next[0] == OpToken(p.level, p.op)
    ensures Ready(p.left, s, next, made, pm, m) && Weakest(TopState(s)) <= p.level
    ensures Granted(pm, made + Size(p.left), Size(p.right) + 1) && Size(p) == Size(p.left) + Size(p.right) + 1
  {
    OpSymbol(p.level, p.op);
  }

  lemma ReadsBinary(p: Phrase, s: Stack, rest: seq<Token>, made: nat, res: Option<Expression>, pm: Machine,
                    m: ULongRange)
    returns (n: nat)
    requires Ready(p, s, rest, made, pm, m) && p.Binary?
    ensures Reads(p, s, Tokens(p) + rest, rest, made, res, pm, n)
    decreases p, 1
  {
    var next := [OpToken(p.level, p.op)] + (Tokens(p.right) + rest);
    RegroupBinary(Tokens(p.left), OpToken(p.level, p.op), Tokens(p.right), rest);
    ReadyLeft(p, s, rest, made, pm, m, next);
    var n1 := ReadsPhrase(p.left, s, next, made, res, pm, m);
    var made1 := made + Size(p.left);
    var n2 := ReadsRight(p, s, Config(Exp(s, TopState(s), p.left), next, made1, res), rest, made1, res, pm, m);
    LeadsTransitive(pm.step, Config(s, Tokens(p) + rest, made, res),
        Config(Exp(s, TopState(s), p.left), next, made1, res),
                    Config(Exp(s, TopState(s), p), rest, made + Size(p), res), n1, n2);
    n := n1 + n2;
  }

  /** The end of a binary phrase, from the operator on. */
  lemma ReadsRight(p: Phrase, s: Stack, c: Config, rest: seq<Token>, made: nat, res: Option<Expression>, pm: Machine,
                   m: ULongRange)
    returns (n: nat)
    requires p.Binary? && Works(pm) && Proper(p, m) && Expecting(TopState(s)) && Weakest(TopState(s)) <= p.level
    requires rest != [] && CanFollow(Symbol(rest[0]), p) && Granted(pm, made, Size(p.right) + 1)
    requires c == Config(Exp(s, TopState(s), p.left), [OpToken(p.level, p.op)] + (Tokens(p.right) + rest), made, res)
    ensures Leads(pm.step, c, Config(Exp(s, TopState(s), p), rest, made + Size(p.right) + 1, res), n)
    decreases p, 0
  {
    var step, q, t, after := pm.step, TopState(s), OpToken(p.level, p.op), Tokens(p.right) + rest;
    OpSymbol(p.level, p.op);
    assert c.input[1..] == after;
    ShiftsOperator(c, q, pm);
    var s1 := Push(c.stack, p.level + 7, t.val);
    var n1 := ReadsPhrase(p.right, s1, rest, made, res, pm, m);
    var e := Config(Exp(s1, p.level + 7, p.right), rest, made + Size(p.right), res);
    Via(step, c, c, Config(s1, after, made, res), e, 0, n1);
    ReducesBinary(s, p.level, p.op, p.left, p.right, rest, made + Size(p.right), res, pm);
    OneMore(step, c, e, Config(Exp(s, q, p), rest, made + Size(p.right) + 1, res), n1 + 1);
    n := n1 + 2;
  }

  lemma ReadsCond(p: Phrase, s: Stack, rest: seq<Token>, made: nat, res: Option<Expression>, pm: Machine, m: ULongRange)
    returns (n: nat)
    requires Ready(p, s, rest, made, pm, m) && p.Cond?
    ensures Reads(p, s, Tokens(p) + rest, rest, made, res, pm, n)
    decreases p, 2
  {
    var mark, colon := Token('?' as int, Unset), Token(':' as int, Unset);
    var inYes := Tokens(p.yes) + ([colon] + (Tokens(p.no) + rest));
    var c := Config(s, Tokens(p) + rest, made, res);
    RegroupCond(Tokens(p.test), mark, Tokens(p.yes), colon, Tokens(p.no), rest);
    var n1 := ReadsPhrase(p.test, s, [mark] + inYes, made, res, pm, m);
    var d := Config(Exp(s, TopState(s), p.test), [mark] + inYes, made + Size(p.test), res);
    var n2 := ReadsBranches(p, s, d, rest, made + Size(p.test), res, pm, m);
    LeadsTransitive(pm.step, c, d, Config(Exp(s, TopState(s), p), rest, made + Size(p), res), n1, n2);
    n := n1 + n2;
  }

  lemma RegroupCond(a: seq<Token>, b: Token, c: seq<Token>, d: Token, e: seq<Token>, f: seq<Token>)
    ensures a + [b] + c + [d] + e + f == a + ([b] + (c + ([d] + (e + f))))
  {
  }

  lemma RegroupBinary(a: seq<Token>, b: Token, c: seq<Token>, d: seq<Token>)
    ensures a + [b] + c + d == a + ([b] + (c + d))
  {
  }

  /** The rest of a conditional, from the question mark on. */
  lemma ReadsBranches(p: Phrase, s: Stack, c: Config, rest: seq<Token>, made: nat, res: Option<Expression>, pm: Machine,
                      m: ULongRange)
    returns (n: nat)
    requires p.Cond? && Works(pm) && Proper(p, m) && Expecting(TopState(s)) && Weakest(TopState(s)) <= 3
    requires rest != [] && !IsOperator(Symbol(rest[0])) && Granted(pm, made, Size(p.yes) + Size(p.no) + 1)
    requires c == Config(Exp(s, TopState(s), p.test),
                         [Token('?' as int, Unset)] + (Tokens(p.yes)
                             + ([Token(':' as int, Unset)] + (Tokens(p.no) + rest))), made, res)
    ensures Leads(pm.step, c, Config(Exp(s, TopState(s), p), rest, made + Size(p.yes) + Size(p.no) + 1, res), n)
    decreases p, 1
  {
    var inNo := [Token(':' as int, Unset)] + (Tokens(p.no) + rest);
    var inYes := Tokens(p.yes) + inNo;
    assert c.input[1..] == inYes;
    ShiftsOperator(c, TopState(s), pm);
    var s1 := Push(c.stack, 10, Unset);
    var n1 := ReadsPhrase(p.yes, s1, inNo, made, res, pm, m);
    var e := Config(Exp(s1, 10, p.yes), inNo, made + Size(p.yes), res);
    Via(pm.step, c, c, Config(s1, inYes, made, res), e, 0, n1);
    var n2 := ReadsElse(p, s, e, rest, made + Size(p.yes), res, pm, m);
    LeadsTransitive(pm.step, c, e, Config(Exp(s, TopState(s), p), rest, made + Size(p.yes) + Size(p.no) + 1, res),
        n1 + 1, n2);
    n := n1 + 1 + n2;
  }

  /** The end of a conditional, from the colon on. */
  lemma ReadsElse(p: Phrase, s: Stack, c: Config, rest: seq<Token>, made: nat, res: Option<Expression>, pm: Machine,
                  m: ULongRange)
    returns (n: nat)
    requires p.Cond? && Works(pm) && Proper(p, m) && Expecting(TopState(s)) && rest != []
               && !IsOperator(Symbol(rest[0]))
    requires Granted(pm, made, Size(p.no) + 1)
    requires c == Config(Exp(Push(Exp(s, TopState(s), p.test), 10, Unset), 10, p.yes),
                         [Token(':' as int, Unset)] + (Tokens(p.no) + rest), made, res)
    ensures Leads(pm.step, c, Config(Exp(s, TopState(s), p), rest, made + Size(p.no) + 1, res), n)
    decreases p, 0
  {
    var step := pm.step;
    var input := Tokens(p.no) + rest;
    assert c.input[1..] == input;
    ActionsAfter(10, 12);
    Shifts(c, 25, pm);
    var s1 := Push(c.stack, 25, Unset);
    var n1 := ReadsPhrase(p.no, s1, rest, made, res, pm, m);
    var e := Config(Exp(s1, 25, p.no), rest, made + Size(p.no), res);
    Via(step, c, c, Config(s1, input, made, res), e, 0, n1);
    ReducesCond(s, p.test, p.yes, p.no, rest, made + Size(p.no), res, pm);
    OneMore(step, c, e, Config(Exp(s, TopState(s), p), rest, made + Size(p.no) + 1, res), n1 + 1);
    n := n1 + 2;
  }

  // ------------------------------------------------------------------------
  // Whole inputs
  // ------------------------------------------------------------------------

  ghost function Start(input: seq<Token>): Config {
    Config(Bottom, input, 0, None)
  }

  /** The parser ends with the given verdict. */
  ghost predicate EndsWith(pm: Machine, input: seq<Token>, verdict: Outcome) {
    exists d, n :: Leads(pm.step, Start(input), d, n) && pm.step(d) == verdict && !verdict.Running?
  }

  /** After a whole phrase: the start rule, the end token, acceptance. */
  lemma Finishes(p: Phrase, made: nat, pm: Machine, c: Config, k: nat) returns (d: Config)
    requires Works(pm) && Leads(pm.step, c, Config(Exp(Bottom, 0, p), [END_TOKEN], made, None), k)
    ensures Leads(pm.step, c, d, k + 2) && pm.step(d) == Accepted(Some(Tree(p)))
  {
    var v := ExpVal(Some(Tree(p)));
    var c1 := Config(Exp(Bottom, 0, p), [END_TOKEN], made, None);
    var c2 := Config(Push(Bottom, 5, v), [END_TOKEN], made, Some(Tree(p)));
    d := Config(Push(Push(Bottom, 5, v), YYFINAL, Unset), [], made, Some(Tree(p)));
    ActionsAfter(0, 0);
    Reduces(c1, 2, pm);
    Gotos(2, 0);
    assert Pop(c1.stack, 1) == Pop(Bottom, 0) && YyR2(2) == 1;
    OneMore(pm.step, c, c1, c2, k);
    ActionsOther(0);
    Shifts(c2, YYFINAL, pm);
    assert c2.input[1..] == [];
    OneMore(pm.step, c, c2, d, k + 1);
    StepsAs(pm.step, pm.grants, pm.depth, d);
  }

  /** Completeness: a properly written expression is accepted, with its tree, if memory suffices for the nodes. */
  lemma Complete(p: Phrase, pm: Machine, m: ULongRange)
    requires Works(pm) && Proper(p, m) && Granted(pm, 0, Size(p))
    ensures EndsWith(pm, Tokens(p) + [END_TOKEN], Accepted(Some(Tree(p))))
  {
    var n := ReadsPhrase(p, Bottom, [END_TOKEN], 0, None, pm, m);
    var d := Finishes(p, Size(p), pm, Start(Tokens(p) + [END_TOKEN]), n);
  }
}
