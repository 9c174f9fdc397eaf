/** Writing an expression with as few parentheses as possible, and reading it back. */
module PluralPrint {
  import opened Wrappers
  import opened PluralExp
  import opened PluralTables
  import opened PluralEngine
  import opened PluralGrammar
  import opened PluralSound
  import opened PluralLexer
  import opened PluralText
  import opened PluralParser

  function LevelOf(op: Operator): int {
    match op
    case LOr => 4
    case LAnd => 5
    case Equal => 6
    case NotEqual => 6
    case LessThan => 7
    case GreaterThan => 7
    case LessOrEqual => 7
    case GreaterOrEqual => 7
    case Plus => 8
    case Minus => 8
    case _ => 9
  }

  /** The expression without parentheses around it. */
  ghost function Core(e: Expression, m: ULongRange): Phrase
    requires WellFormed(e, m)
    decreases e, 0
  {
    match e.operation
    case VarOp => Var
    case NumOp => Num(e.val.num)
    case LNot => Not(Written(e.val.args[0], 10, m))
    case QMop => Cond(Written(e.val.args[0], 4, m), Written(e.val.args[1], 3, m), Written(e.val.args[2], 3, m))
    case op => Binary(LevelOf(op), op, Written(e.val.args[0], LevelOf(op), m),
        Written(e.val.args[1], LevelOf(op) + 1, m))
  }

  /** The expression where at least the given strength is needed. */
  ghost function Written(e: Expression, strength: int, m: ULongRange): Phrase
    requires WellFormed(e, m)
    decreases e, 1
  {
    if Strength(Core(e, m)) >= strength then Core(e, m) else Paren(Core(e, m))
  }

  lemma {:induction false} CoreProper(e: Expression, m: ULongRange)
    requires WellFormed(e, m)
    ensures Proper(Core(e, m), m) && Tree(Core(e, m)) == e && Strength(Core(e, m)) >= 3
    decreases e, 0
  {
    match e.operation
    case VarOp =>
    case NumOp =>
    case LNot =>
      WrittenProper(e.val.args[0], 10, m);
      assert e.val.args == [e.val.args[0]];
    case QMop => CoreCond(e, m);
    case _ => CoreBinary(e, m);
  }

  lemma ThreeArgs(args: seq<Expression>)
    requires |args| == 3
    ensures args == [args[0], args[1], args[2]]
  {
  }

  lemma CoreCond(e: Expression, m: ULongRange)
    requires WellFormed(e, m) && e.operation == QMop
    ensures Proper(Core(e, m), m) && Tree(Core(e, m)) == e
    decreases e, 0, 0
  {
    var args := e.val.args;
    WrittenProper(args[0], 4, m);
    WrittenProper(args[1], 3, m);
    WrittenProper(args[2], 3, m);
    ThreeArgs(args);
  }

  lemma CoreBinary(e: Expression, m: ULongRange)
    requires WellFormed(e, m) && e.operation !in {VarOp, NumOp, LNot, QMop}
    ensures Proper(Core(e, m), m) && Tree(Core(e, m)) == e && Strength(Core(e, m)) >= 4
    decreases e, 0, 0
  {
    var args, level := e.val.args, LevelOf(e.operation);
    WrittenProper(args[0], level, m);
    WrittenProper(args[1], level + 1, m);
    assert args == [args[0], args[1]];
    assert OpFits(level, e.operation);
  }

  /** What is written is proper, as strong as needed, and stands for the expression. */
  lemma {:induction false} WrittenProper(e: Expression, strength: int, m: ULongRange)
    requires WellFormed(e, m) && strength <= 11
    ensures var p := Written(e, strength, m); Proper(p, m) && Tree(p) == e && Strength(p) >= strength
    decreases e, 1
  {
    CoreProper(e, m);
  }

  function Parens(p: Phrase): nat {
    match p
    case Var => 0
    case Num(_) => 0
    case Not(arg) => Parens(arg)
    case Binary(_, _, l, r) => Parens(l) + Parens(r)
    case Cond(test, yes, no) => Parens(test) + Parens(yes) + Parens(no)
    case Paren(inner) => Parens(inner) + 1
  }

  /** No proper way to write the expression has fewer parentheses. */
  lemma {:induction false} FewestParens(p: Phrase, strength: int, m: ULongRange)
    requires Proper(p, m) && Strength(p) >= strength && 3 <= strength <= 11 && WellFormed(Tree(p), m)
    ensures Parens(Written(Tree(p), strength, m)) <= Parens(p)
    decreases p
  {
    match p
    case Var =>
    case Num(_) =>
    case Not(arg) => FewestParens(arg, 10, m);
    case Binary(level, op, l, r) =>
      FewestParens(l, level, m);
      FewestParens(r, level + 1, m);
    case Cond(test, yes, no) =>
      FewestParens(test, 4, m);
      FewestParens(yes, 3, m);
      FewestParens(no, 3, m);
    case Paren(inner) =>
      FewestParens(inner, 3, m);
      CoreProper(Tree(inner), m);
  }

  // ------------------------------------------------------------------------
  // Characters
  // ------------------------------------------------------------------------

  function Decimal(k: nat): string {
    if k < 10 then [('0' as int + k) as char] else Decimal(k / 10) + [('0' as int + k % 10) as char]
  }

  lemma {:induction false} DecimalDigits(k: nat)
    ensures Decimal(k) != [] && forall i :: 0 <= i < |Decimal(k)| ==> IsDigit(Decimal(k)[i])
    ensures DecimalValue(Decimal(k)) == k
  {
    if k < 10 {
      assert Decimal(k)[..0] == [];
    } else {
      DecimalDigits(k / 10);
      var front := Decimal(k / 10);
      assert Decimal(k)[..|Decimal(k)| - 1] == front;
    }
  }

  function Text(p: Phrase): string {
    match p
    case Var => "n"
    case Num(k) => Decimal(k)
    case Not(arg) => "!" + Text(arg)
    case Binary(_, op, l, r) => Text(l) + OpText(op) + Text(r)
    case Cond(test, yes, no) => Text(test) + "?" + Text(yes) + ":" + Text(no)
    case Paren(inner) => "(" + Text(inner) + ")"
  }

  // ------------------------------------------------------------------------
  // The text is a layout of the tokens
  // ------------------------------------------------------------------------

  /** One way to spell a token. */
  function Spelling(t: Token): string {
    if t.yychar == NUMBER && t.val.NumVal? then Decimal(t.val.num)
    else if t.val.OpVal? then OpText(t.val.op)
    else if t.yychar == '|' as int then "||"
    else if t.yychar == '&' as int then "&&"
    else if 0 <= t.yychar < 128 then [t.yychar as char]
    else ""
  }

  function Printed(tokens: seq<Token>): string {
    if tokens == [] then "" else Spelling(tokens[0]) + Printed(tokens[1..])
  }

  lemma {:induction false} PrintedJoin(xs: seq<Token>, ys: seq<Token>)
    ensures Printed(xs + ys) == Printed(xs) + Printed(ys)
    decreases |xs|
  {
    if xs == [] {
      assert xs + ys == ys;
    } else {
      assert (xs + ys)[1..] == xs[1..] + ys;
      PrintedJoin(xs[1..], ys);
    }
  }

  lemma PrintedOne(t: Token)
    ensures Printed([t]) == Spelling(t)
  {
    assert [t][1..] == [];
  }

  ghost predicate AllSpelled(tokens: seq<Token>, m: ULongRange) {
    forall i :: 0 <= i < |tokens| ==> Spelled(Spelling(tokens[i]), tokens[i], m)
  }

  lemma NumberSpelled(k: nat, m: ULongRange)
    requires k < m
    ensures Spelled(Decimal(k), Token(NUMBER, NumVal(k)), m)
  {
    DecimalDigits(k);
    Remainder(k, 0, k, m);
  }

  /** The text t is that of the tokens, which can be spelled. */
  ghost predicate Prints(t: string, tokens: seq<Token>, m: ULongRange) {
    t == Printed(tokens) && AllSpelled(tokens, m)
  }

  lemma PrintsOne(t: Token, m: ULongRange)
    requires Spelled(Spelling(t), t, m)
    ensures Prints(Spelling(t), [t], m)
  {
    PrintedOne(t);
  }

  lemma PrintsBoth(a: string, xs: seq<Token>, b: string, ys: seq<Token>, m: ULongRange)
    requires Prints(a, xs, m) && Prints(b, ys, m)
    ensures Prints(a + b, xs + ys, m)
  {
    PrintedJoin(xs, ys);
  }

  lemma PrintsInfix(a: string, xs: seq<Token>, t: Token, b: string, ys: seq<Token>, m: ULongRange)
    requires Prints(a, xs, m) && Prints(b, ys, m) && Spelled(Spelling(t), t, m)
    ensures Prints(a + Spelling(t) + b, xs + [t] + ys, m)
  {
    PrintsOne(t, m);
    PrintsBoth(a, xs, Spelling(t), [t], m);
    PrintsBoth(a + Spelling(t), xs + [t], b, ys, m);
  }

  lemma PrintsParen(a: string, xs: seq<Token>, m: ULongRange)
    requires Prints(a, xs, m)
    ensures Prints("(" + a + ")", [Word('(')] + xs + [Word(')')], m)
  {
    PrintsOne(Word('('), m);
    PrintsOne(Word(')'), m);
    PrintsBoth("(", [Word('(')], a, xs, m);
    PrintsBoth("(" + a, [Word('(')] + xs, ")", [Word(')')], m);
  }

  lemma OperatorSpelled(level: int, op: Operator, m: ULongRange)
    requires OpFits(level, op)
    ensures Spelling(OpToken(level, op)) == OpText(op) && Spelled(OpText(op), OpToken(level, op), m)
  {
  }

  /** The text of a phrase is that of its tokens. */
  lemma {:induction false} TextPrints(p: Phrase, m: ULongRange)
    requires Proper(p, m)
    ensures Prints(Text(p), Tokens(p), m)
  {
    match p
    case Var => PrintsOne(Word('n'), m);
    case Num(k) =>
      NumberSpelled(k, m);
      PrintsOne(Token(NUMBER, NumVal(k)), m);
    case Not(arg) =>
      TextPrints(arg, m);
      PrintsOne(Word('!'), m);
      PrintsBoth("!", [Word('!')], Text(arg), Tokens(arg), m);
    case Binary(level, op, l, r) =>
      TextPrints(l, m);
      TextPrints(r, m);
      OperatorSpelled(level, op, m);
      PrintsInfix(Text(l), Tokens(l), OpToken(level, op), Text(r), Tokens(r), m);
    case Cond(test, yes, no) =>
      TextPrints(test, m);
      TextPrints(yes, m);
      TextPrints(no, m);
      var a, xs := Text(test) + "?" + Text(yes), Tokens(test) + [Word('?')] + Tokens(yes);
      PrintsInfix(Text(test), Tokens(test), Word('?'), Text(yes), Tokens(yes), m);
      PrintsInfix(a, xs, Word(':'), Text(no), Tokens(no), m);
    case Paren(inner) =>
      TextPrints(inner, m);
      PrintsParen(Text(inner), Tokens(inner), m);
  }

  lemma {:induction false} PrintedLaid(s: string, i: nat, tokens: seq<Token>, m: ULongRange)
    requires AllSpelled(tokens, m) && Stands(s, i, Printed(tokens))
    ensures Layout(s, i, i + |Printed(tokens)|, tokens, m)
    decreases |tokens|
  {
    if tokens == [] {
      NoTokens(s, i, i, m);
    } else {
      var w, rest := Spelling(tokens[0]), Printed(tokens[1..]);
      StandsParts(s, i, w, rest);
      PrintedLaid(s, i + |w|, tokens[1..], m);
      assert StartsAt(s, i, i, i + |w|, tokens[0], m);
      LayoutStep(s, i, i, i + |w|, i + |w| + |rest|, tokens, m);
    }
  }

  lemma StandsParts(s: string, i: nat, a: string, b: string)
    requires Stands(s, i, a + b)
    ensures Stands(s, i, a) && Stands(s, i + |a|, b)
  {
    assert s[i..i + |a|] == s[i..i + |a + b|][..|a|];
    assert s[i + |a|..i + |a| + |b|] == s[i..i + |a + b|][|a|..];
  }

  // ------------------------------------------------------------------------
  // The round trip
  // ------------------------------------------------------------------------

  /** The text of a proper phrase, with anything behind it that ends an expression, expresses the phrase. */
  lemma TextExpresses(p: Phrase, tail: string, m: ULongRange)
    requires Proper(p, m) && Stops(tail, 0)
    ensures Expresses(Text(p) + tail, 0, |Text(p)|, p, m)
  {
    var s := Text(p) + tail;
    assert Stands(s, 0, Text(p));
    TextPrints(p, m);
    PrintedLaid(s, 0, Tokens(p), m);
    ReadsLayout(s, p, m);
  }

  /** Scanning the text of a proper phrase gives its tokens. */
  lemma ScansWhole(p: Phrase, m: ULongRange)
    requires Proper(p, m)
    ensures TokensFrom(Text(p), 0, m) == Tokens(p) + [END_TOKEN]
  {
    TextExpresses(p, "", m);
    assert Text(p) + "" == Text(p);
    ScansAs(Text(p), 0, |Text(p)|, p, m);
  }

  /** Any expression, written with the fewest parentheses, is read back as it was. */
  method PrintAndParse(ghost e: Expression, s: string, m: ULongRange, grants: Grants)
    returns (yyresult: int, res: Option<Expression>)
    requires WellFormed(e, m) && s == Text(Written(e, 3, m)) && AllGranted(grants, Size(Written(e, 3, m)))
    ensures yyresult == 0 && res == Some(e)
  {
    ghost var p := Written(e, 3, m);
    WrittenProper(e, 3, m);
    TextExpresses(p, "", m);
    assert s + "" == s;
    assert Parses(s, 0, |s|, p, grants, m);
    var cp;
    yyresult, res, cp := Yyparse(s, 0, m, grants);
  }
}
