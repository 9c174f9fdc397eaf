/** The expressions as they are written: C's operators, precedences and parentheses. */
module PluralGrammar {
  import opened PluralExp
  import opened PluralTables
  import opened PluralEngine

  /** A written expression. The level of a binary operator is its symbol number, 4 for || up to 9 for * / %. */
  datatype Phrase =
    | Var
    | Num(num: nat)
    | Not(arg: Phrase)
    | Binary(level: int, op: Operator, left: Phrase, right: Phrase)
    | Cond(test: Phrase, yes: Phrase, no: Phrase)
    | Paren(inner: Phrase)

  /** The operators of a level. */
  predicate OpFits(level: int, op: Operator) {
    match op
    case LOr => level == 4
    case LAnd => level == 5
    case Equal => level == 6
    case NotEqual => level == 6
    case LessThan => level == 7
    case GreaterThan => level == 7
    case LessOrEqual => level == 7
    case GreaterOrEqual => level == 7
    case Plus => level == 8
    case Minus => level == 8
    case Mult => level == 9
    case Divide => level == 9
    case Module => level == 9
    case _ => false
  }

  function OpToken(level: int, op: Operator): Token {
    if level == 4 then Token('|' as int, Unset) else if level == 5 then Token('&' as int, Unset)
        else Token(252 + level, OpVal(op))
  }

  /** How tightly a phrase holds together: 3 for a conditional, the level of a binary operator, 10 for a
      negation, 11 for the rest. */
  function Strength(p: Phrase): int {
    match p
    case Cond(_, _, _) => 3
    case Binary(level, _, _, _) => level
    case Not(_) => 10
    case _ => 11
  }

  /** The operators by binding strength, in C's order; binary operators of one level group to the left. */
  predicate Proper(p: Phrase, m: ULongRange) {
    match p
    case Var => true
    case Num(k) => k < m
    case Not(arg) => Proper(arg, m) && Strength(arg) >= 10
    case Binary(level, op, l, r) =>
      OpFits(level, op) && Proper(l, m) && Proper(r, m) && Strength(l) >= level && Strength(r) > level
    case Cond(test, yes, no) => Proper(test, m) && Proper(yes, m) && Proper(no, m) && Strength(test) > 3
    case Paren(inner) => Proper(inner, m)
  }

  /** The tokens of a phrase. */
  function Tokens(p: Phrase): seq<Token> {
    match p
    case Var => [Token('n' as int, Unset)]
    case Num(k) => [Token(NUMBER, NumVal(k))]
    case Not(arg) => [Token('!' as int, Unset)] + Tokens(arg)
    case Binary(level, op, l, r) => Tokens(l) + [OpToken(level, op)] + Tokens(r)
    case Cond(test, yes, no) => Tokens(test) + [Token('?' as int, Unset)] + Tokens(yes) + [Token(':' as int, Unset)]
        + Tokens(no)
    case Paren(inner) => [Token('(' as int, Unset)] + Tokens(inner) + [Token(')' as int, Unset)]
  }

  /** The tree that a phrase stands for. */
  function Tree(p: Phrase): Expression {
    match p
    case Var => Expression(0, VarOp, Nothing)
    case Num(k) => Expression(0, NumOp, Number(k))
    case Not(arg) => Expression(1, LNot, Args([Tree(arg)]))
    case Binary(_, op, l, r) => Expression(2, op, Args([Tree(l), Tree(r)]))
    case Cond(test, yes, no) => Expression(3, QMop, Args([Tree(test), Tree(yes), Tree(no)]))
    case Paren(inner) => Tree(inner)
  }

  /** The number of nodes of the tree. */
  function Size(p: Phrase): nat {
    match p
    case Var => 1
    case Num(_) => 1
    case Not(arg) => Size(arg) + 1
    case Binary(_, _, l, r) => Size(l) + Size(r) + 1
    case Cond(test, yes, no) => Size(test) + Size(yes) + Size(no) + 1
    case Paren(inner) => Size(inner)
  }

  /** A proper phrase gives a tree in which every node has the arguments that the evaluation expects. */
  lemma {:induction false} TreeWellFormed(p: Phrase, m: ULongRange)
    requires Proper(p, m)
    ensures WellFormed(Tree(p), m)
  {
    match p
    case Var =>
    case Num(_) =>
    case Not(arg) => TreeWellFormed(arg, m);
    case Binary(_, _, l, r) =>
      TreeWellFormed(l, m);
      TreeWellFormed(r, m);
    case Cond(test, yes, no) =>
      TreeWellFormed(test, m);
      TreeWellFormed(yes, m);
      TreeWellFormed(no, m);
    case Paren(inner) => TreeWellFormed(inner, m);
  }
}
