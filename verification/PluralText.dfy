/** The text of plural expressions: what is written, with blanks anywhere between the tokens, and what is scanned. */
module PluralText {
  import opened PluralExp
  import opened PluralTables
  import opened PluralEngine
  import opened PluralGrammar
  import opened PluralLexer

  function OpText(op: Operator): string {
    match op
    case LOr => "||"
    case LAnd => "&&"
    case Equal => "=="
    case NotEqual => "!="
    case LessThan => "<"
    case GreaterThan => ">"
    case LessOrEqual => "<="
    case GreaterOrEqual => ">="
    case Plus => "+"
    case Minus => "-"
    case Mult => "*"
    case Divide => "/"
    case _ => "%"
  }

  /** There are only blanks from i to j. */
  predicate Blank(s: string, i: nat, j: nat) {
    i <= j <= |s| && forall k :: i <= k < j ==> s[k] == ' ' || s[k] == '\t'
  }

  /** The word w stands at position a. */
  predicate Stands(s: string, a: nat, w: string) {
    a + |w| <= |s| && s[a..a + |w|] == w
  }

  /** From i to j there is the word w with blanks around it. */
  ghost predicate Around(s: string, i: nat, j: nat, w: string) {
    exists a: nat :: Stands(s, a, w) && Blank(s, i, a) && Blank(s, a + |w|, j)
  }

  /** A number is written with decimal digits; it counts modulo the range of unsigned long. */
  ghost predicate Numeral(w: string, k: nat, m: ULongRange) {
    && w != "" && (forall i :: 0 <= i < |w| ==> '0' <= w[i] <= '9')
    && DecimalValue(w) % m == k
  }

  /** From i to j the phrase is written, with blanks anywhere between the tokens and around them. The depth keeps the
      definition folded. */
  ghost predicate ReadsDeep(s: string, i: nat, j: nat, p: Phrase, m: ULongRange, depth: nat)
    decreases p, 1, depth
  {
    if depth > 0 then ReadsDeep(s, i, j, p, m, depth - 1)
    else match p
      case Var => Around(s, i, j, "n")
      case Num(k) => exists w :: Around(s, i, j, w) && Numeral(w, k, m)
      case Not(arg) => exists a: nat :: Around(s, i, a, "!") && Reads(s, a, j, arg, m)
      case Binary(_, op, l, r) => ReadsInfix(s, i, j, p, l, OpText(op), r, m)
      case Cond(test, yes, no) =>
        exists a: nat :: ReadsOpen(s, i, a, p, test, "?", m) && ReadsInfix(s, a, j, p, yes, ":", no, m)
      case Paren(inner) => exists a: nat :: Around(s, i, a, "(") && ReadsOpen(s, a, j, p, inner, ")", m)
  }

  ghost predicate Reads(s: string, i: nat, j: nat, p: Phrase, m: ULongRange)
    decreases p, 2
  {
    ReadsDeep(s, i, j, p, m, 4)
  }

  lemma OpenReads(s: string, i: nat, j: nat, p: Phrase, m: ULongRange)
    ensures Reads(s, i, j, p, m) == ReadsDeep(s, i, j, p, m, 0)
  {
    assert ReadsDeep(s, i, j, p, m, 3) == ReadsDeep(s, i, j, p, m, 2) == ReadsDeep(s, i, j, p, m, 1)
        == ReadsDeep(s, i, j, p, m, 0);
  }

  /** A part l of a phrase with a word behind it. */
  ghost predicate ReadsOpen(s: string, i: nat, j: nat, p: Phrase, l: Phrase, w: string, m: ULongRange)
    requires l < p
    decreases p, 0, 0
  {
    exists a: nat :: Reads(s, i, a, l, m) && Around(s, a, j, w)
  }

  /** Two parts l and r of a phrase with a word between them. */
  ghost predicate ReadsInfix(s: string, i: nat, j: nat, p: Phrase, l: Phrase, w: string, r: Phrase, m: ULongRange)
    requires l < p && r < p
    decreases p, 0, 1
  {
    exists a: nat :: ReadsOpen(s, i, a, p, l, w, m) && Reads(s, a, j, r, m)
  }

  // ------------------------------------------------------------------------
  // Layouts of tokens
  // ------------------------------------------------------------------------

  /** How a token is spelled. */
  ghost predicate Spelled(w: string, t: Token, m: ULongRange) {
    if t.yychar == NUMBER then
      t.val.NumVal? && Numeral(w, t.val.num, m)
    else if EQUOP2 <= t.yychar <= MULOP2 then
      t.val.OpVal? && OpFits(t.yychar - 252, t.val.op) && w == OpText(t.val.op)
    else
      t.val == Unset && (w == "&&" || w == "||" || w in ["n", "?", ":", "(", ")", "!"]) && t.yychar == w[0] as int
  }

  /** The token is spelled from a to b, and there are blanks between i and a. */
  ghost predicate StartsAt(s: string, i: nat, a: nat, b: nat, token: Token, m: ULongRange) {
    Blank(s, i, a) && a <= b <= |s| && Spelled(s[a..b], token, m)
  }

  /** From i to j there are the tokens with blanks around them. The depth keeps the definition folded. */
  ghost predicate Laid(s: string, i: nat, j: nat, tokens: seq<Token>, m: ULongRange, depth: nat)
    decreases |tokens|, depth
  {
    if depth > 0 then Laid(s, i, j, tokens, m, depth - 1)
    else if tokens == [] then Blank(s, i, j)
    else exists a: nat, b: nat :: StartsAt(s, i, a, b, tokens[0], m) && Laid(s, b, j, tokens[1..], m, 4)
  }

  ghost predicate Layout(s: string, i: nat, j: nat, tokens: seq<Token>, m: ULongRange) {
    Laid(s, i, j, tokens, m, 4)
  }

  lemma OpenLayout(s: string, i: nat, j: nat, tokens: seq<Token>, m: ULongRange)
    ensures Layout(s, i, j, tokens, m) == Laid(s, i, j, tokens, m, 0)
  {
    assert Laid(s, i, j, tokens, m, 3) == Laid(s, i, j, tokens, m, 2) == Laid(s, i, j, tokens, m, 1)
        == Laid(s, i, j, tokens, m, 0);
  }

  lemma NoTokens(s: string, i: nat, j: nat, m: ULongRange)
    ensures Layout(s, i, j, [], m) <==> Blank(s, i, j)
  {
    OpenLayout(s, i, j, [], m);
  }

  lemma LayoutStep(s: string, i: nat, a: nat, b: nat, j: nat, tokens: seq<Token>, m: ULongRange)
    requires tokens != [] && StartsAt(s, i, a, b, tokens[0], m) && Layout(s, b, j, tokens[1..], m)
    ensures Layout(s, i, j, tokens, m)
  {
    OpenLayout(s, i, j, tokens, m);
  }

  lemma LayoutHead(s: string, i: nat, j: nat, tokens: seq<Token>, m: ULongRange) returns (a: nat, b: nat)
    requires tokens != [] && Layout(s, i, j, tokens, m)
    ensures StartsAt(s, i, a, b, tokens[0], m) && Layout(s, b, j, tokens[1..], m)
  {
    OpenLayout(s, i, j, tokens, m);
    a, b :| StartsAt(s, i, a, b, tokens[0], m) && Layout(s, b, j, tokens[1..], m);
  }

  lemma BlankBefore(s: string, i: nat, k: nat, j: nat, tokens: seq<Token>, m: ULongRange)
    requires Blank(s, i, k) && Layout(s, k, j, tokens, m)
    ensures Layout(s, i, j, tokens, m)
  {
    NoTokens(s, k, j, m);
    NoTokens(s, i, j, m);
    if tokens != [] {
      var a, b := LayoutHead(s, k, j, tokens, m);
      LayoutStep(s, i, a, b, j, tokens, m);
    }
  }

  lemma {:induction false} LayoutsJoin(s: string, i: nat, k: nat, j: nat, xs: seq<Token>, ys: seq<Token>,
                                       m: ULongRange)
    requires Layout(s, i, k, xs, m) && Layout(s, k, j, ys, m)
    ensures Layout(s, i, j, xs + ys, m)
    decreases |xs|
  {
    if xs == [] {
      NoTokens(s, i, k, m);
      BlankBefore(s, i, k, j, ys, m);
      assert xs + ys == ys;
    } else {
      var a, b := LayoutHead(s, i, k, xs, m);
      LayoutsJoin(s, b, k, j, xs[1..], ys, m);
      assert (xs + ys)[1..] == xs[1..] + ys;
      LayoutStep(s, i, a, b, j, xs + ys, m);
    }
  }

  lemma {:induction false} LayoutsPart(s: string, i: nat, j: nat, xs: seq<Token>, ys: seq<Token>, m: ULongRange)
    returns (k: nat)
    requires Layout(s, i, j, xs + ys, m)
    ensures Layout(s, i, k, xs, m) && Layout(s, k, j, ys, m)
    decreases |xs|
  {
    if xs == [] {
      k := i;
      assert xs + ys == ys;
      LayoutInside(s, i, j, ys, m);
      NoTokens(s, i, i, m);
    } else {
      var a, b := LayoutHead(s, i, j, xs + ys, m);
      assert (xs + ys)[1..] == xs[1..] + ys;
      k := LayoutsPart(s, b, j, xs[1..], ys, m);
      LayoutStep(s, i, a, b, k, xs, m);
    }
  }

  lemma {:induction false} LayoutInside(s: string, i: nat, j: nat, tokens: seq<Token>, m: ULongRange)
    requires Layout(s, i, j, tokens, m)
    ensures i <= j <= |s|
    decreases |tokens|
  {
    NoTokens(s, i, j, m);
    if tokens != [] {
      var a, b := LayoutHead(s, i, j, tokens, m);
      LayoutInside(s, b, j, tokens[1..], m);
    }
  }

  /** A word that is the spelling of just one token. */
  ghost predicate Spells(w: string, token: Token, m: ULongRange) {
    forall v :: Spelled(v, token, m) <==> v == w
  }

  lemma OneToken(s: string, i: nat, j: nat, token: Token, m: ULongRange)
    ensures Layout(s, i, j, [token], m) <==> exists a: nat, b: nat :: StartsAt(s, i, a, b, token, m) && Blank(s, b, j)
  {
    assert [token][1..] == [];
    if a: nat, b: nat :| StartsAt(s, i, a, b, token, m) && Blank(s, b, j) {
      NoTokens(s, b, j, m);
      LayoutStep(s, i, a, b, j, [token], m);
    }
    if Layout(s, i, j, [token], m) {
      var a, b := LayoutHead(s, i, j, [token], m);
      NoTokens(s, b, j, m);
    }
  }

  lemma WordStarts(s: string, i: nat, a: nat, j: nat, w: string, token: Token, m: ULongRange)
    requires Spells(w, token, m)
    ensures Stands(s, a, w) && Blank(s, i, a) <==> StartsAt(s, i, a, a + |w|, token, m)
    ensures forall b: nat :: StartsAt(s, i, a, b, token, m) ==> b == a + |w|
  {
    assert Spelled(w, token, m);
  }

  lemma WordLayout(s: string, i: nat, j: nat, w: string, token: Token, m: ULongRange)
    requires Spells(w, token, m)
    ensures Around(s, i, j, w) <==> Layout(s, i, j, [token], m)
  {
    OneToken(s, i, j, token, m);
    forall a: nat {
      WordStarts(s, i, a, j, w, token, m);
    }
  }

  // ------------------------------------------------------------------------
  // The text of a phrase and the layout of its tokens
  // ------------------------------------------------------------------------

  function Word(c: char): Token {
    Token(c as int, Unset)
  }

  lemma NumberLayout(s: string, i: nat, j: nat, k: nat, m: ULongRange)
    ensures (exists w :: Around(s, i, j, w) && Numeral(w, k, m)) <==> Layout(s, i, j, [Token(NUMBER, NumVal(k))], m)
  {
    var token := Token(NUMBER, NumVal(k));
    OneToken(s, i, j, token, m);
    if w :| Around(s, i, j, w) && Numeral(w, k, m) {
      var a: nat :| Stands(s, a, w) && Blank(s, i, a) && Blank(s, a + |w|, j);
      assert StartsAt(s, i, a, a + |w|, token, m);
    }
    if a: nat, b: nat :| StartsAt(s, i, a, b, token, m) && Blank(s, b, j) {
      assert Stands(s, a, s[a..b]) && Around(s, i, j, s[a..b]);
    }
  }

  /** Reading the phrase is finding its tokens with blanks around them. */
  ghost predicate Agrees(s: string, p: Phrase, m: ULongRange) {
    forall i: nat, j: nat :: Reads(s, i, j, p, m) <==> Layout(s, i, j, Tokens(p), m)
  }

  lemma {:induction false} ReadsLayout(s: string, p: Phrase, m: ULongRange)
    requires Proper(p, m)
    ensures Agrees(s, p, m)
  {
    match p
    case Var =>
      forall i: nat, j: nat ensures Reads(s, i, j, p, m) <==> Layout(s, i, j, Tokens(p), m) {
        OpenReads(s, i, j, p, m);
        WordLayout(s, i, j, "n", Word('n'), m);
      }
    case Num(k) =>
      forall i: nat, j: nat ensures Reads(s, i, j, p, m) <==> Layout(s, i, j, Tokens(p), m) {
        OpenReads(s, i, j, p, m);
        NumberLayout(s, i, j, k, m);
      }
    case Not(arg) =>
      ReadsLayout(s, arg, m);
      NotLayout(s, p, m);
    case Binary(_, _, l, r) =>
      ReadsLayout(s, l, m);
      ReadsLayout(s, r, m);
      BinaryLayout(s, p, m);
    case Cond(test, yes, no) =>
      ReadsLayout(s, test, m);
      ReadsLayout(s, yes, m);
      ReadsLayout(s, no, m);
      CondLayout(s, p, m);
    case Paren(inner) =>
      ReadsLayout(s, inner, m);
      ParenLayout(s, p, m);
  }

  lemma NotLayout(s: string, p: Phrase, m: ULongRange)
    requires p.Not? && Agrees(s, p.arg, m)
    ensures Agrees(s, p, m)
  {
    forall i: nat, j: nat ensures Reads(s, i, j, p, m) <==> Layout(s, i, j, Tokens(p), m) {
      OpenReads(s, i, j, p, m);
      if a: nat :| Around(s, i, a, "!") && Reads(s, a, j, p.arg, m) {
        WordLayout(s, i, a, "!", Word('!'), m);
        LayoutsJoin(s, i, a, j, [Word('!')], Tokens(p.arg), m);
      }
      if Layout(s, i, j, Tokens(p), m) {
        var a := LayoutsPart(s, i, j, [Word('!')], Tokens(p.arg), m);
        WordLayout(s, i, a, "!", Word('!'), m);
      }
    }
  }

  lemma PartLayout(s: string, i: nat, j: nat, p: Phrase, l: Phrase, w: string, token: Token, m: ULongRange)
    requires l < p && Agrees(s, l, m) && Spells(w, token, m)
    ensures ReadsOpen(s, i, j, p, l, w, m) <==> Layout(s, i, j, Tokens(l) + [token], m)
  {
    if a: nat :| Reads(s, i, a, l, m) && Around(s, a, j, w) {
      WordLayout(s, a, j, w, token, m);
      LayoutsJoin(s, i, a, j, Tokens(l), [token], m);
    }
    if Layout(s, i, j, Tokens(l) + [token], m) {
      var a := LayoutsPart(s, i, j, Tokens(l), [token], m);
      WordLayout(s, a, j, w, token, m);
    }
  }

  lemma InfixFound(s: string, i: nat, j: nat, p: Phrase, l: Phrase, w: string, token: Token, r: Phrase, m: ULongRange)
    requires l < p && r < p && Agrees(s, l, m) && Agrees(s, r, m) && Spells(w, token, m)
    requires ReadsInfix(s, i, j, p, l, w, r, m)
    ensures Layout(s, i, j, Tokens(l) + [token] + Tokens(r), m)
  {
    var a: nat :| ReadsOpen(s, i, a, p, l, w, m) && Reads(s, a, j, r, m);
    PartLayout(s, i, a, p, l, w, token, m);
    LayoutsJoin(s, i, a, j, Tokens(l) + [token], Tokens(r), m);
  }

  lemma InfixSought(s: string, i: nat, j: nat, p: Phrase, l: Phrase, w: string, token: Token, r: Phrase,
                    m: ULongRange)
    requires l < p && r < p && Agrees(s, l, m) && Agrees(s, r, m) && Spells(w, token, m)
    requires Layout(s, i, j, Tokens(l) + [token] + Tokens(r), m)
    ensures ReadsInfix(s, i, j, p, l, w, r, m)
  {
    var a := LayoutsPart(s, i, j, Tokens(l) + [token], Tokens(r), m);
    PartLayout(s, i, a, p, l, w, token, m);
  }

  lemma InfixLayout(s: string, i: nat, j: nat, p: Phrase, l: Phrase, w: string, token: Token, r: Phrase,
                    m: ULongRange)
    requires l < p && r < p && Agrees(s, l, m) && Agrees(s, r, m) && Spells(w, token, m)
    ensures ReadsInfix(s, i, j, p, l, w, r, m) <==> Layout(s, i, j, Tokens(l) + [token] + Tokens(r), m)
  {
    if ReadsInfix(s, i, j, p, l, w, r, m) {
      InfixFound(s, i, j, p, l, w, token, r, m);
    }
    if Layout(s, i, j, Tokens(l) + [token] + Tokens(r), m) {
      InfixSought(s, i, j, p, l, w, token, r, m);
    }
  }

  lemma BinaryLayout(s: string, p: Phrase, m: ULongRange)
    requires p.Binary? && OpFits(p.level, p.op) && Agrees(s, p.left, m) && Agrees(s, p.right, m)
    ensures Agrees(s, p, m)
  {
    forall i: nat, j: nat ensures Reads(s, i, j, p, m) <==> Layout(s, i, j, Tokens(p), m) {
      OpenReads(s, i, j, p, m);
      InfixLayout(s, i, j, p, p.left, OpText(p.op), OpToken(p.level, p.op), p.right, m);
    }
  }

  lemma CondFound(s: string, i: nat, j: nat, p: Phrase, m: ULongRange)
    requires p.Cond? && Agrees(s, p.test, m) && Agrees(s, p.yes, m) && Agrees(s, p.no, m) && Reads(s, i, j, p, m)
    ensures Layout(s, i, j, Tokens(p.test) + [Word('?')] + (Tokens(p.yes) + [Word(':')] + Tokens(p.no)), m)
  {
    OpenReads(s, i, j, p, m);
    var a: nat :| ReadsOpen(s, i, a, p, p.test, "?", m) && ReadsInfix(s, a, j, p, p.yes, ":", p.no, m);
    PartLayout(s, i, a, p, p.test, "?", Word('?'), m);
    InfixLayout(s, a, j, p, p.yes, ":", Word(':'), p.no, m);
    LayoutsJoin(s, i, a, j, Tokens(p.test) + [Word('?')], Tokens(p.yes) + [Word(':')] + Tokens(p.no), m);
  }

  lemma CondReads(s: string, i: nat, a: nat, j: nat, p: Phrase, m: ULongRange)
    requires p.Cond? && ReadsOpen(s, i, a, p, p.test, "?", m) && ReadsInfix(s, a, j, p, p.yes, ":", p.no, m)
    ensures Reads(s, i, j, p, m)
  {
    OpenReads(s, i, j, p, m);
  }

  lemma CondSought(s: string, i: nat, j: nat, p: Phrase, m: ULongRange)
    requires p.Cond? && Agrees(s, p.test, m) && Agrees(s, p.yes, m) && Agrees(s, p.no, m)
    requires Layout(s, i, j, Tokens(p.test) + [Word('?')] + (Tokens(p.yes) + [Word(':')] + Tokens(p.no)), m)
    ensures Reads(s, i, j, p, m)
  {
    var a := LayoutsPart(s, i, j, Tokens(p.test) + [Word('?')], Tokens(p.yes) + [Word(':')] + Tokens(p.no), m);
    PartLayout(s, i, a, p, p.test, "?", Word('?'), m);
    InfixSought(s, a, j, p, p.yes, ":", Word(':'), p.no, m);
    CondReads(s, i, a, j, p, m);
  }

  lemma CondLayout(s: string, p: Phrase, m: ULongRange)
    requires p.Cond? && Agrees(s, p.test, m) && Agrees(s, p.yes, m) && Agrees(s, p.no, m)
    ensures Agrees(s, p, m)
  {
    assert Tokens(p) == Tokens(p.test) + [Word('?')] + (Tokens(p.yes) + [Word(':')] + Tokens(p.no));
    forall i: nat, j: nat ensures Reads(s, i, j, p, m) <==> Layout(s, i, j, Tokens(p), m) {
      if Reads(s, i, j, p, m) {
        CondFound(s, i, j, p, m);
      }
      if Layout(s, i, j, Tokens(p), m) {
        CondSought(s, i, j, p, m);
      }
    }
  }

  lemma ParenFound(s: string, i: nat, j: nat, p: Phrase, m: ULongRange)
    requires p.Paren? && Agrees(s, p.inner, m) && Reads(s, i, j, p, m)
    ensures Layout(s, i, j, [Word('(')] + (Tokens(p.inner) + [Word(')')]), m)
  {
    OpenReads(s, i, j, p, m);
    var a: nat :| Around(s, i, a, "(") && ReadsOpen(s, a, j, p, p.inner, ")", m);
    WordLayout(s, i, a, "(", Word('('), m);
    PartLayout(s, a, j, p, p.inner, ")", Word(')'), m);
    LayoutsJoin(s, i, a, j, [Word('(')], Tokens(p.inner) + [Word(')')], m);
  }

  lemma ParenSought(s: string, i: nat, j: nat, p: Phrase, m: ULongRange)
    requires p.Paren? && Agrees(s, p.inner, m)
    requires Layout(s, i, j, [Word('(')] + (Tokens(p.inner) + [Word(')')]), m)
    ensures Reads(s, i, j, p, m)
  {
    var a := LayoutsPart(s, i, j, [Word('(')], Tokens(p.inner) + [Word(')')], m);
    WordLayout(s, i, a, "(", Word('('), m);
    PartLayout(s, a, j, p, p.inner, ")", Word(')'), m);
    OpenReads(s, i, j, p, m);
  }

  lemma ParenLayout(s: string, p: Phrase, m: ULongRange)
    requires p.Paren? && Agrees(s, p.inner, m)
    ensures Agrees(s, p, m)
  {
    assert Tokens(p) == [Word('(')] + (Tokens(p.inner) + [Word(')')]);
    forall i: nat, j: nat ensures Reads(s, i, j, p, m) <==> Layout(s, i, j, Tokens(p), m) {
      if Reads(s, i, j, p, m) {
        ParenFound(s, i, j, p, m);
      }
      if Layout(s, i, j, Tokens(p), m) {
        ParenSought(s, i, j, p, m);
      }
    }
  }

  // ------------------------------------------------------------------------
  // Scanning
  // ------------------------------------------------------------------------

  /** What ends an expression. */
  predicate Stops(s: string, j: nat) {
    j == |s| || (j < |s| && (s[j] == '\0' || s[j] == ';' || s[j] == '\n'))
  }

  lemma {:induction false} BlanksSkipped(s: string, i: nat)
    requires i <= |s|
    ensures Blank(s, i, SkipBlanks(s, i))
    decreases |s| - i
  {
    if i < |s| && IsBlank(s[i]) {
      BlanksSkipped(s, i + 1);
    }
  }

  lemma {:induction false} SkipsBlanks(s: string, i: nat, a: nat)
    requires Blank(s, i, a) && !IsBlank(At(s, a))
    ensures SkipBlanks(s, i) == a
    decreases a - i
  {
    if i < a {
      SkipsBlanks(s, i + 1, a);
    }
  }

  lemma {:induction false} DigitsSkipped(s: string, a: nat, b: nat)
    requires a <= b <= |s| && (forall k :: a <= k < b ==> IsDigit(s[k])) && !IsDigit(At(s, b))
    ensures SkipDigits(s, a) == b
    decreases b - a
  {
    if a < b {
      DigitsSkipped(s, a + 1, b);
    }
  }

  /** What is scanned as a token is the spelling of the token. */
  lemma LexSpelled(s: string, i: nat, m: ULongRange) returns (a: nat)
    requires i <= |s| && Lex(s, i, m).token.yychar !in {YYEOF, YYERRCODE}
    ensures var l := Lex(s, i, m); StartsAt(s, i, a, l.end, l.token, m)
  {
    a := SkipBlanks(s, i);
    BlanksSkipped(s, i);
    DigitsUpTo(s, a);
    if a + 1 < |s| {
      assert s[a..a + 2] == [s[a], s[a + 1]];
    }
    if a < |s| {
      assert s[a..a + 1] == [s[a]];
    }
  }

  /** The character does not continue the token. */
  predicate Closed(token: Token, c: char) {
    && (token.yychar == NUMBER ==> !IsDigit(c))
    && (token.yychar == '!' as int || token.yychar == CMPOP2 ==> c != '=')
  }

  lemma NumeralLex(s: string, i: nat, a: nat, b: nat, token: Token, m: ULongRange)
    requires StartsAt(s, i, a, b, token, m) && token.yychar == NUMBER && !IsDigit(At(s, b))
    ensures SkipDigits(s, a) == b && a < b && IsDigit(s[a]) && token.val == NumVal(DecimalValue(s[a..b]) % m)
  {
    var w := s[a..b];
    assert w != "" && w[0] == s[a];
    forall k | a <= k < b ensures IsDigit(s[k]) {
      assert s[k] == w[k - a];
    }
    DigitsSkipped(s, a, b);
  }

  lemma WordLex(s: string, a: nat, b: nat, token: Token, m: ULongRange)
    requires a <= b <= |s| && Spelled(s[a..b], token, m) && token.yychar != NUMBER && Closed(token, At(s, b))
    ensures LexemeAt(s, a, m) == Lexeme(token, b) && token.yychar != YYEOF && !IsBlank(At(s, a))
  {
    var w := s[a..b];
    assert w != "" && w[0] == s[a] && (|w| == 2 ==> w[1] == s[a + 1]);
  }

  /** A token that is not continued is scanned where it is spelled. */
  lemma SpelledLex(s: string, i: nat, a: nat, b: nat, token: Token, m: ULongRange)
    requires i <= |s| && StartsAt(s, i, a, b, token, m) && Closed(token, At(s, b))
    ensures Lex(s, i, m) == Lexeme(token, b) && token.yychar != YYEOF
  {
    if token.yychar == NUMBER {
      NumeralLex(s, i, a, b, token, m);
    } else {
      WordLex(s, a, b, token, m);
    }
    SkipsBlanks(s, i, a);
  }

  /** Where the scanner comes to the end token. */
  function EndFrom(s: string, i: nat, m: ULongRange): (j: nat)
    requires i <= |s|
    ensures j <= |s|
    decreases |s| - i
  {
    var l := Lex(s, i, m);
    if l.token.yychar == YYEOF then l.end else EndFrom(s, l.end, m)
  }

  /** The scanner comes to the end where there are blanks up to the end. */
  lemma EndLex(s: string, i: nat, j: nat, m: ULongRange)
    requires Blank(s, i, j) && Stops(s, j)
    ensures TokensFrom(s, i, m) == [END_TOKEN] && EndFrom(s, i, m) == j
  {
    SkipsBlanks(s, i, j);
  }

  /** The two tokens can be written without a blank between them. */
  predicate Apart(t: Token, u: Token) {
    && (t.yychar == NUMBER ==> u.yychar != NUMBER)
    && (t.yychar == '!' as int || t.yychar == CMPOP2 ==> u != Token(EQUOP2, OpVal(Equal)))
  }

  predicate Separated(tokens: seq<Token>) {
    forall k :: 0 < k < |tokens| ==> Apart(tokens[k - 1], tokens[k])
  }

  /** A token is not continued by what comes behind it. */
  lemma NextCloses(s: string, b: nat, j: nat, t: Token, tokens: seq<Token>, m: ULongRange)
    requires Layout(s, b, j, tokens, m) && Stops(s, j) && (tokens != [] ==> Apart(t, tokens[0]))
    ensures b <= |s| && Closed(t, At(s, b))
  {
    if tokens == [] {
      NoTokens(s, b, j, m);
    } else {
      var a, e := LayoutHead(s, b, j, tokens, m);
      assert s[a..e] != "" && s[a..e][0] == s[a];
    }
  }

  /** The tokens that are laid out in a text are those that are scanned. */
  lemma {:induction false} LaidTokens(s: string, i: nat, j: nat, tokens: seq<Token>, m: ULongRange)
    requires Layout(s, i, j, tokens, m) && Stops(s, j) && Separated(tokens)
    ensures i <= |s| && TokensFrom(s, i, m) == tokens + [END_TOKEN] && EndFrom(s, i, m) == j
    decreases |tokens|
  {
    if tokens == [] {
      NoTokens(s, i, j, m);
      EndLex(s, i, j, m);
    } else {
      var a, b := LayoutHead(s, i, j, tokens, m);
      NextCloses(s, b, j, tokens[0], tokens[1..], m);
      SpelledLex(s, i, a, b, tokens[0], m);
      LaidTokens(s, b, j, tokens[1..], m);
      assert tokens == [tokens[0]] + tokens[1..];
    }
  }

  predicate Clean(tokens: seq<Token>) {
    forall k :: 0 <= k < |tokens| ==> tokens[k].yychar !in {YYEOF, YYERRCODE}
  }

  /** The tokens that are scanned are laid out in the text. */
  lemma {:induction false} TokensLaid(s: string, i: nat, tokens: seq<Token>, m: ULongRange)
    requires i <= |s| && TokensFrom(s, i, m) == tokens + [END_TOKEN] && Clean(tokens)
    ensures Layout(s, i, EndFrom(s, i, m), tokens, m) && Stops(s, EndFrom(s, i, m))
    decreases |tokens|
  {
    var l, all := Lex(s, i, m), TokensFrom(s, i, m);
    if tokens == [] {
      assert all[0] == END_TOKEN;
      BlanksSkipped(s, i);
      NoTokens(s, i, l.end, m);
    } else {
      assert all[0] == tokens[0] == l.token;
      assert all[1..] == TokensFrom(s, l.end, m) == tokens[1..] + [END_TOKEN];
      var a := LexSpelled(s, i, m);
      TokensLaid(s, l.end, tokens[1..], m);
      LayoutStep(s, i, a, l.end, EndFrom(s, i, m), tokens, m);
    }
  }

  // ------------------------------------------------------------------------
  // The tokens of a phrase
  // ------------------------------------------------------------------------

  predicate Opener(t: Token) {
    t == Word('n') || t == Word('!') || t == Word('(') || t.yychar == NUMBER
  }

  predicate Closer(t: Token) {
    t == Word('n') || t == Word(')') || t.yychar == NUMBER
  }

  /** Tokens of a phrase. */
  predicate Fine(tokens: seq<Token>) {
    tokens != [] && Separated(tokens) && Clean(tokens) && Opener(tokens[0]) && Closer(tokens[|tokens| - 1])
  }

  lemma FineInfix(xs: seq<Token>, t: Token, ys: seq<Token>)
    requires Fine(xs) && Fine(ys) && t.yychar !in {NUMBER, '!' as int, YYEOF, YYERRCODE}
    ensures Fine(xs + [t] + ys)
  {
    var all, n := xs + [t] + ys, |xs|;
    forall k | 0 < k < |all| ensures Apart(all[k - 1], all[k]) {
      assert k < n ==> Apart(xs[k - 1], xs[k]);
      assert k > n + 1 ==> Apart(ys[k - n - 2], ys[k - n - 1]);
    }
  }

  lemma {:induction false} FineTokens(p: Phrase, m: ULongRange)
    requires Proper(p, m)
    ensures Fine(Tokens(p))
  {
    match p
    case Var =>
    case Num(_) =>
    case Not(arg) =>
      FineTokens(arg, m);
      assert Tokens(p)[1..] == Tokens(arg);
    case Binary(level, op, l, r) =>
      FineTokens(l, m);
      FineTokens(r, m);
      FineInfix(Tokens(l), OpToken(level, op), Tokens(r));
    case Cond(test, yes, no) =>
      FineTokens(test, m);
      FineTokens(yes, m);
      FineTokens(no, m);
      FineInfix(Tokens(test), Word('?'), Tokens(yes));
      FineInfix(Tokens(test) + [Word('?')] + Tokens(yes), Word(':'), Tokens(no));
    case Paren(inner) =>
      FineTokens(inner, m);
      FineParen(Tokens(inner));
  }

  lemma FineParen(xs: seq<Token>)
    requires Fine(xs)
    ensures Fine([Word('(')] + xs + [Word(')')])
  {
    var all := [Word('(')] + xs + [Word(')')];
    forall k | 0 < k < |all| ensures Apart(all[k - 1], all[k]) {
      assert 1 < k <= |xs| ==> Apart(xs[k - 2], xs[k - 1]);
    }
  }

  /** A proper phrase is written from i to j, and there the text stops. */
  ghost predicate Expresses(s: string, i: nat, j: nat, p: Phrase, m: ULongRange) {
    Proper(p, m) && Reads(s, i, j, p, m) && Stops(s, j)
  }

  /** A text is scanned as the tokens of a proper phrase exactly if the phrase is written there. */
  lemma ScansAs(s: string, i: nat, j: nat, p: Phrase, m: ULongRange)
    requires i <= |s| && Proper(p, m)
    ensures Expresses(s, i, j, p, m) <==> TokensFrom(s, i, m) == Tokens(p) + [END_TOKEN] && j == EndFrom(s, i, m)
  {
    ReadsLayout(s, p, m);
    FineTokens(p, m);
    if Expresses(s, i, j, p, m) {
      LaidTokens(s, i, j, Tokens(p), m);
    }
    if TokensFrom(s, i, m) == Tokens(p) + [END_TOKEN] {
      TokensLaid(s, i, Tokens(p), m);
    }
  }
}
