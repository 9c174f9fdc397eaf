/** Whatever the parser accepts is a properly written expression, and the result is its tree. */
module PluralSound {
  import opened Wrappers
  import opened PluralExp
  import opened PluralTables
  import opened PluralEngine
  import opened PluralGrammar
  import opened PluralComplete

  /** What the lexer delivers: a value with exactly the tokens that need one. */
  predicate GoodToken(t: Token, m: ULongRange) {
    && t.yychar >= 0
    && match Symbol(t) {
         case 11 => t.val.NumVal? && t.val.num < m
         case _ => if 6 <= Symbol(t) <= 9 then t.val.OpVal? && OpFits(Symbol(t), t.val.op) else t.val == Unset
       }
  }

  /** How the stack came about: shifted tokens and phrases that have been found, and at the end the start
      symbol and the end token. */
  datatype History =
    | Begin
    | Shifted(before: History, token: Token, state: int)
    | Found(before: History, phrase: Phrase, exp: Option<Expression>)
    | Started(phrase: Phrase)
    | Ended(phrase: Phrase)

  ghost function StateOf(h: History): int {
    match h
    case Begin => 0
    case Shifted(_, _, state) => state
    case Found(before, _, _) => if Expecting(StateOf(before)) then AfterExp(StateOf(before)) else 0
    case Started(_) => 5
    case Ended(_) => YYFINAL
  }

  ghost function StackOf(h: History): Stack {
    match h
    case Begin => Bottom
    case Shifted(before, token, state) => Push(StackOf(before), state, token.val)
    case Found(before, _, exp) => Push(StackOf(before), StateOf(h), ExpVal(exp))
    case Started(p) => Push(Bottom, 5, ExpVal(Some(Tree(p))))
    case Ended(p) => Push(Push(Bottom, 5, ExpVal(Some(Tree(p)))), YYFINAL, Unset)
  }

  lemma TopOf(h: History)
    ensures TopState(StackOf(h)) == StateOf(h)
  {
  }

  /** The tokens behind the stack. */
  ghost function Consumed(h: History): seq<Token> {
    match h
    case Begin => []
    case Shifted(before, token, _) => Consumed(before) + [token]
    case Found(before, p, _) => Consumed(before) + Tokens(p)
    case Started(p) => Tokens(p)
    case Ended(p) => Tokens(p) + [END_TOKEN]
  }

  /** A token has been shifted that begins a phrase. */
  ghost predicate PrefixShift(before: History, token: Token, state: int) {
    Expecting(StateOf(before)) && !before.Found? && (Symbol(token), state) in {(10, 1), (11, 2), (13, 3), (14, 4)}
  }

  /** An operator has been shifted after a phrase that it may follow. */
  ghost predicate OperatorShift(before: History, token: Token, state: int) {
    && before.Found? && IsOperator(Symbol(token)) && state == Symbol(token) + 7
    && Expecting(StateOf(before.before)) && Weakest(StateOf(before.before)) <= Symbol(token)
       && CanFollow(Symbol(token), before.phrase)
  }

  /** A closing parenthesis or a colon has been shifted. */
  ghost predicate ClosingShift(before: History, token: Token, state: int) {
    before.Found? && (StateOf(before.before), Symbol(token), state) in {(4, 15, 17), (10, 12, 25)}
  }

  ghost predicate Consistent(h: History, m: ULongRange) {
    match h
    case Begin => true
    case Shifted(before, token, state) =>
      && Consistent(before, m) && GoodToken(token, m)
      && (before.Found? ==> Expecting(StateOf(before.before)))
      && (PrefixShift(before, token, state) || OperatorShift(before, token, state)
         || ClosingShift(before, token, state))
    case Found(before, p, exp) =>
      && Consistent(before, m) && !before.Found? && Expecting(StateOf(before))
      && Proper(p, m) && Strength(p) >= Weakest(StateOf(before))
      && (exp == None || exp == Some(Tree(p)))
    case Started(p) => Proper(p, m)
    case Ended(p) => Proper(p, m)
  }

  // ------------------------------------------------------------------------
  // Memory
  // ------------------------------------------------------------------------

  /** No expression on the stack is NULL. */
  ghost predicate NoNull(h: History) {
    match h
    case Shifted(before, _, _) => NoNull(before)
    case Found(before, _, exp) => exp.Some? && NoNull(before)
    case _ => true
  }

  ghost function Nodes(h: History): nat {
    match h
    case Begin => 0
    case Shifted(before, _, _) => Nodes(before)
    case Found(before, p, _) => Nodes(before) + Size(p)
    case Started(p) => Size(p)
    case Ended(p) => Size(p)
  }

  ghost predicate AllGranted(grants: Grants, made: nat) {
    forall i :: 0 <= i < made ==> grants(i)
  }

  /** There is a NULL on the stack exactly if an allocation has failed; if none has, one node was made
      for every node of the phrases found. */
  ghost predicate MemoryOk(h: History, made: nat, grants: Grants) {
    && (NoNull(h) <==> AllGranted(grants, made))
    && (NoNull(h) ==> made == Nodes(h))
  }

  // ------------------------------------------------------------------------
  // The invariant
  // ------------------------------------------------------------------------

  /** Good tokens, the last one of which, and no other, is the end token. */
  ghost predicate GoodInput(input: seq<Token>, m: ULongRange) {
    forall i :: 0 <= i < |input| ==> GoodToken(input[i], m) && (input[i].yychar == YYEOF <==> i == |input| - 1)
  }

  /** h explains the configuration c of a parser that was given all. */
  ghost predicate Explains(h: History, c: Config, all: seq<Token>, grants: Grants, m: ULongRange) {
    && Consistent(h, m) && c.stack == StackOf(h)
    && all == Consumed(h) + c.input && GoodInput(c.input, m) && (h.Ended? <==> c.input == [])
    && (h.Found? ==> CanFollow(Symbol(Lookahead(c.input)), h.phrase))
    && MemoryOk(h, c.made, grants)
    && (h.Started? || h.Ended? ==> c.res == Some(Tree(h.phrase)))
  }

  /** What acceptance with result r means. */
  ghost predicate Justified(r: Option<Expression>, p: Phrase, all: seq<Token>, grants: Grants, m: ULongRange) {
    Proper(p, m) && all == Tokens(p) + [END_TOKEN] && r == Some(Tree(p)) && AllGranted(grants, Size(p))
  }

  /** A measure of the work left on the stack. */
  ghost function Weight(h: History): nat {
    match h
    case Shifted(before, _, _) => Weight(before) + 2
    case Found(before, _, _) => Weight(before) + 1
    case _ => 0
  }

  // ------------------------------------------------------------------------
  // Shifts
  // ------------------------------------------------------------------------

  lemma ShiftExplained(h: History, c: Config, all: seq<Token>, grants: Grants, m: ULongRange, state: int)
    requires Explains(h, c, all, grants, m) && c.input != [] && Symbol(c.input[0]) != 0
    requires Consistent(Shifted(h, c.input[0], state), m)
    ensures Explains(Shifted(h, c.input[0], state),
              c.(stack := Push(c.stack, state, c.input[0].val), input := c.input[1..]),
                     all, grants, m)
  {
    var rest := c.input[1..];
    assert c.input == [c.input[0]] + rest;
    assert forall i :: 0 <= i < |rest| ==> rest[i] == c.input[i + 1];
    assert Consumed(h) + c.input == Consumed(h) + [c.input[0]] + rest;
    assert c.input[0].yychar != YYEOF;
  }

  lemma EndExplained(h: History, c: Config, all: seq<Token>, grants: Grants, m: ULongRange)
    requires Explains(h, c, all, grants, m) && h.Started? && Symbol(c.input[0]) == 0
    ensures Explains(Ended(h.phrase), c.(stack := Push(c.stack, YYFINAL, c.input[0].val), input := c.input[1..]), all,
              grants, m)
  {
    TranslateInjective(c.input[0].yychar, 0);
    assert c.input == [c.input[0]] + c.input[1..];
    assert c.input[0] == END_TOKEN;
    assert Consumed(h) + c.input == (Consumed(h) + [END_TOKEN]) + c.input[1..];
  }

  // ------------------------------------------------------------------------
  // Reductions
  // ------------------------------------------------------------------------

  lemma NullArgs1(a: Option<Expression>)
    ensures AnyNull([a]) <==> a == None
    ensures a.Some? ==> Values([a]) == [a.value]
  {
    assert [a][0] == a;
  }

  lemma NullArgs2(a: Option<Expression>, b: Option<Expression>)
    ensures AnyNull([a, b]) <==> a == None || b == None
    ensures a.Some? && b.Some? ==> Values([a, b]) == [a.value, b.value]
  {
    assert [a, b][0] == a && [a, b][1] == b;
  }

  lemma NullArgs3(a: Option<Expression>, b: Option<Expression>, c: Option<Expression>)
    ensures AnyNull([a, b, c]) <==> a == None || b == None || c == None
    ensures a.Some? && b.Some? && c.Some? ==> Values([a, b, c]) == [a.value, b.value, c.value]
  {
    assert [a, b, c][0] == a && [a, b, c][1] == b && [a, b, c][2] == c;
  }

  /** The node for phrase p is made of the phrases found above b. */
  lemma NodeMemory(h: History, b: History, p: Phrase, complete: bool, made: nat, exp: Option<Expression>, made': nat,
                   grants: Grants)
    requires MemoryOk(h, made, grants) && Nodes(h) + 1 == Nodes(b) + Size(p)
    requires NoNull(h) <==> NoNull(b) && complete
    requires exp.Some? <==> complete && grants(made)
    requires made' == if complete then made + 1 else made
    ensures MemoryOk(Found(b, p, exp), made', grants)
  {
    assert NoNull(Found(b, p, exp)) <==> exp.Some? && NoNull(b);
    assert Nodes(Found(b, p, exp)) == Nodes(b) + Size(p);
  }

  // ------------------------------------------------------------------------
  // What the reductions do to the stack
  // ------------------------------------------------------------------------

  ghost function Replaced(c: Config, s: Stack, exp: Option<Expression>, made: nat): Config
    requires Expecting(TopState(s))
  {
    c.(stack := Push(s, AfterExp(TopState(s)), ExpVal(exp)), made := made)
  }

  lemma LeafReduction(c: Config, s: Stack, state: int, v: SemVal, grants: Grants)
    requires Expecting(TopState(s)) && state in {2, 3} && c.stack == Push(s, state, v)
    ensures var rule := if state == 2 then 12 else 11;
            var n := if state == 2 then NewNumber(NumOf(v), c.made, grants) else NewExp(VarOp, [], c.made, grants);
            Reduction(c, rule, grants) == Running(Replaced(c, s, n.exp, n.made))
  {
    var rule := if state == 2 then 12 else 11;
    Gotos(rule, TopState(s));
    assert YyR2(rule) == 1 && Pop(c.stack, 1) == Pop(s, 0);
  }

  lemma NotReduction(c: Config, s: Stack, a: Option<Expression>, grants: Grants)
    requires Expecting(TopState(s)) && c.stack == Push(Push(s, 1, Unset), 7, ExpVal(a))
    ensures var n := NewExp(LNot, [a], c.made, grants);
            Reduction(c, 10, grants) == Running(Replaced(c, s, n.exp, n.made))
  {
    Gotos(10, TopState(s));
    assert YyR2(10) == 2 && Pop(c.stack, 2) == Pop(c.stack.below, 1) == Pop(s, 0);
  }

  lemma ParenReduction(c: Config, s: Stack, a: Option<Expression>, grants: Grants)
    requires Expecting(TopState(s)) && c.stack == Push(Push(Push(s, 4, Unset), 8, ExpVal(a)), 17, Unset)
    ensures Reduction(c, 13, grants) == Running(Replaced(c, s, a, c.made))
  {
    Gotos(13, TopState(s));
    TopThree(s, 4, Unset, 8, ExpVal(a), 17, Unset);
    assert YyR2(13) == 3;
  }

  lemma BinaryReduction(c: Config, s: Stack, s1: int, a: Option<Expression>, level: int, op: Operator, s3: int,
                        b: Option<Expression>, grants: Grants)
    requires Expecting(TopState(s)) && OpFits(level, op)
    requires c.stack == Push(Push(Push(s, s1, ExpVal(a)), level + 7, OpToken(level, op).val), s3, ExpVal(b))
    ensures var n := NewExp(op, [a, b], c.made, grants);
            Reduction(c, level, grants) == Running(Replaced(c, s, n.exp, n.made))
  {
    OpSymbol(level, op);
    Gotos(level, TopState(s));
    TopThree(s, s1, ExpVal(a), level + 7, OpToken(level, op).val, s3, ExpVal(b));
    assert YyR2(level) == 3;
  }

  lemma CondReduction(c: Config, s: Stack, s1: int, a: Option<Expression>, b: Option<Expression>, d: Option<Expression>,
                      grants: Grants)
    requires Expecting(TopState(s))
    requires c.stack == Push(Push(Push(Push(Push(s, s1, ExpVal(a)), 10, Unset), 18, ExpVal(b)), 25, Unset), 26,
               ExpVal(d))
    ensures var n := NewExp(QMop, [a, b, d], c.made, grants);
            Reduction(c, 3, grants) == Running(Replaced(c, s, n.exp, n.made))
  {
    Gotos(3, TopState(s));
    TopFive(s, s1, ExpVal(a), 10, Unset, 18, ExpVal(b), 25, Unset, 26, ExpVal(d));
    assert YyR2(3) == 5;
  }

  /** h' explains the configuration after a reduction. */
  ghost predicate Reduced(c: Config, rule: int, h': History, all: seq<Token>, grants: Grants, m: ULongRange) {
    Reduction(c, rule, grants).Running? && Explains(h', Reduction(c, rule, grants).config, all, grants, m)
  }

  /** A phrase p has been put together from the frames above b. */
  lemma FoundExplained(h: History, c: Config, all: seq<Token>, grants: Grants, m: ULongRange, rule: int, b: History,
                       p: Phrase, exp: Option<Expression>, made: nat)
    requires Explains(h, c, all, grants, m) && !h.Ended?
    requires Consumed(h) == Consumed(b) + Tokens(p)
    requires Consistent(b, m) && !b.Found? && Expecting(StateOf(b)) && Proper(p, m)
               && Strength(p) >= Weakest(StateOf(b))
    requires exp == None || exp == Some(Tree(p))
    requires CanFollow(Symbol(Lookahead(c.input)), p)
    requires MemoryOk(Found(b, p, exp), made, grants)
    requires TopState(StackOf(b)) == StateOf(b)
               && Reduction(c, rule, grants) == Running(Replaced(c, StackOf(b), exp, made))
    ensures Reduced(c, rule, Found(b, p, exp), all, grants, m)
  {
    var d := Reduction(c, rule, grants).config;
    assert Consistent(Found(b, p, exp), m);
    assert d.stack == StackOf(Found(b, p, exp));
    assert all == Consumed(Found(b, p, exp)) + d.input;
  }

  // ------------------------------------------------------------------------
  // The frames above a phrase that is found
  // ------------------------------------------------------------------------

  /** What has been shifted in front of a phrase, according to the state in which the phrase began. */
  lemma InFront(h: History, m: ULongRange)
    requires Consistent(h, m) && h.Shifted?
    ensures Consistent(h.before, m) && GoodToken(h.token, m)
    ensures h.state <= 4 ==> PrefixShift(h.before, h.token, h.state)
    ensures 10 <= h.state <= 16 ==> OperatorShift(h.before, h.token, h.state)
    ensures h.state == 17 || h.state == 25 ==> ClosingShift(h.before, h.token, h.state)
  {
  }

  lemma BelowFound(h: History, m: ULongRange)
    requires Consistent(h, m) && h.Found?
    ensures Consistent(h.before, m) && Expecting(StateOf(h.before)) && Proper(h.phrase, m) && !h.before.Found?
    ensures Strength(h.phrase) >= Weakest(StateOf(h.before)) && (h.exp == None || h.exp == Some(Tree(h.phrase)))
    ensures if h.before.Shifted? then StateOf(h.before) == h.before.state else h.before == Begin
  {
  }

  lemma LeafFound(h: History, c: Config, all: seq<Token>, grants: Grants, m: ULongRange) returns (h': History)
    requires Explains(h, c, all, grants, m) && h.Shifted? && h.state in {2, 3}
    ensures Reduced(c, if h.state == 2 then 12 else 11, h', all, grants, m)
    ensures Weight(h') < Weight(h)
  {
    InFront(h, m);
    var b, p := h.before, if h.state == 2 then Num(h.token.val.num) else Var;
    TopOf(b);
    TranslateInjective(h.token.yychar, if h.state == 2 then NUMBER else 'n' as int);
    assert h.token == Tokens(p)[0];
    LeafReduction(c, StackOf(b), h.state, h.token.val, grants);
    var n := if h.state == 2 then NewNumber(NumOf(h.token.val), c.made, grants) else NewExp(VarOp, [], c.made, grants);
    h' := Found(b, p, n.exp);
    NodeMemory(h, b, p, true, c.made, n.exp, n.made, grants);
    FoundExplained(h, c, all, grants, m, if h.state == 2 then 12 else 11, b, p, n.exp, n.made);
  }

  /** A good operator token is the token of its operator. */
  lemma GoodOperator(t: Token, m: ULongRange) returns (op: Operator)
    requires GoodToken(t, m) && 4 <= Symbol(t) <= 9
    ensures OpFits(Symbol(t), op) && t == OpToken(Symbol(t), op)
  {
    var level := Symbol(t);
    op := if level == 4 then LOr else if level == 5 then LAnd else t.val.op;
    TranslateInjective(t.yychar, OpToken(level, op).yychar);
  }

  /** A phrase found behind a token. */
  lemma OnToken(h: History)
    requires h.Found? && h.before.Shifted?
    ensures var b, t := h.before.before, h.before.token;
            && StackOf(h) == Push(Push(StackOf(b), h.before.state, t.val), StateOf(h), ExpVal(h.exp))
            && Consumed(h) == Consumed(b) + ([t] + Tokens(h.phrase))
            && (NoNull(h) <==> NoNull(b) && h.exp.Some?) && Nodes(h) == Nodes(b) + Size(h.phrase)
  {
    var b, t := h.before.before, h.before.token;
    assert StackOf(h.before) == Push(StackOf(b), h.before.state, t.val);
    assert Consumed(h.before) == Consumed(b) + [t];
    assert Consumed(b) + [t] + Tokens(h.phrase) == Consumed(b) + ([t] + Tokens(h.phrase));
    assert (NoNull(h.before) <==> NoNull(b)) && Nodes(h.before) == Nodes(b);
  }

  lemma NotShape(h: History, m: ULongRange)
    requires Consistent(h, m) && h.Found? && StateOf(h.before) == 1
    ensures h.before.Shifted?
    ensures var b := h.before.before;
            && Consistent(b, m) && Expecting(StateOf(b)) && !b.Found? && Strength(h.phrase) >= 10 && Proper(h.phrase, m)
            && (h.exp == None || h.exp == Some(Tree(h.phrase)))
            && StackOf(h) == Push(Push(StackOf(b), 1, Unset), 7, ExpVal(h.exp))
            && Consumed(h) == Consumed(b) + Tokens(Not(h.phrase))
            && (NoNull(h) <==> NoNull(b) && h.exp.Some?) && Nodes(h) == Nodes(b) + Size(h.phrase)
  {
    var bang := h.before;
    BelowFound(h, m);
    InFront(bang, m);
    TranslateInjective(bang.token.yychar, '!' as int);
    OnToken(h);
  }

  lemma NotFound(h: History, c: Config, all: seq<Token>, grants: Grants, m: ULongRange) returns (h': History)
    requires Explains(h, c, all, grants, m) && h.Found? && StateOf(h.before) == 1
    ensures Reduced(c, 10, h', all, grants, m)
    ensures Weight(h') < Weight(h)
  {
    NotShape(h, m);
    var b, p, n := h.before.before, Not(h.phrase), NewExp(LNot, [h.exp], c.made, grants);
    TopOf(b);
    NotReduction(c, StackOf(b), h.exp, grants);
    NullArgs1(h.exp);
    h' := Found(b, p, n.exp);
    NodeMemory(h, b, p, h.exp.Some?, c.made, n.exp, n.made, grants);
    assert Weight(h.before) == Weight(b) + 2;
    FoundExplained(h, c, all, grants, m, 10, b, p, n.exp, n.made);
  }

  lemma ParenShape(h: History, m: ULongRange)
    requires Consistent(h, m) && h.Shifted? && h.state == 17
    ensures h.before.Found? && h.before.before.Shifted?
    ensures var f, b := h.before, h.before.before.before;
            && Consistent(b, m) && Expecting(StateOf(b)) && !b.Found? && Proper(f.phrase, m)
            && (f.exp == None || f.exp == Some(Tree(f.phrase)))
            && StackOf(h) == Push(Push(Push(StackOf(b), 4, Unset), 8, ExpVal(f.exp)), 17, Unset)
            && Consumed(h) == Consumed(b) + Tokens(Paren(f.phrase))
            && (NoNull(h) <==> NoNull(b) && f.exp.Some?) && Nodes(h) == Nodes(b) + Size(f.phrase)
  {
    var f := h.before;
    InFront(h, m);
    BelowFound(f, m);
    var open := f.before;
    InFront(open, m);
    TranslateInjective(open.token.yychar, '(' as int);
    TranslateInjective(h.token.yychar, ')' as int);
    OnToken(f);
    var b := open.before;
    assert Consumed(b) + ([open.token] + Tokens(f.phrase)) + [h.token]
        == Consumed(b) + ([open.token] + Tokens(f.phrase) + [h.token]);
  }

  lemma ParenFound(h: History, c: Config, all: seq<Token>, grants: Grants, m: ULongRange) returns (h': History)
    requires Explains(h, c, all, grants, m) && h.Shifted? && h.state == 17
    ensures Reduced(c, 13, h', all, grants, m)
    ensures Weight(h') < Weight(h)
  {
    ParenShape(h, m);
    var f, b := h.before, h.before.before.before;
    TopOf(b);
    ParenReduction(c, StackOf(b), f.exp, grants);
    h' := Found(b, Paren(f.phrase), f.exp);
    assert Weight(f) == Weight(f.before) + 1 == Weight(b) + 3;
    FoundExplained(h, c, all, grants, m, 13, b, Paren(f.phrase), f.exp, c.made);
  }

  /** A phrase found behind a token that comes behind a phrase. */
  lemma OnPhrase(h: History)
    requires h.Found? && h.before.Shifted? && h.before.before.Found?
    ensures var left, t, b := h.before.before, h.before.token, h.before.before.before;
            && StackOf(h) == Push(Push(Push(StackOf(b), StateOf(left), ExpVal(left.exp)), h.before.state, t.val),
               StateOf(h), ExpVal(h.exp))
            && Consumed(h) == Consumed(b) + (Tokens(left.phrase) + [t] + Tokens(h.phrase))
            && (NoNull(h) <==> NoNull(b) && left.exp.Some? && h.exp.Some?)
            && Nodes(h) == Nodes(b) + Size(left.phrase) + Size(h.phrase)
  {
    OnToken(h);
    OnOne(h.before.before);
    var left, t, b := h.before.before, h.before.token, h.before.before.before;
    AssocThree(Consumed(b), Tokens(left.phrase), t, Tokens(h.phrase));
  }

  lemma OnOne(h: History)
    requires h.Found?
    ensures StackOf(h) == Push(StackOf(h.before), StateOf(h), ExpVal(h.exp))
    ensures Consumed(h) == Consumed(h.before) + Tokens(h.phrase)
    ensures (NoNull(h) <==> NoNull(h.before) && h.exp.Some?) && Nodes(h) == Nodes(h.before) + Size(h.phrase)
  {
  }

  lemma AssocThree(a: seq<Token>, b: seq<Token>, c: Token, d: seq<Token>)
    ensures a + b + ([c] + d) == a + (b + [c] + d)
  {
  }

  lemma BinaryShape(h: History, m: ULongRange) returns (op: Operator)
    requires Consistent(h, m) && h.Found? && 11 <= StateOf(h.before) <= 16
    ensures h.before.Shifted? && h.before.before.Found?
    ensures var left, level := h.before.before, h.before.state - 7;
            var b := left.before;
            && Consistent(b, m) && Expecting(StateOf(b)) && !b.Found?
            && OpFits(level, op) && Weakest(StateOf(b)) <= level && Proper(Binary(level, op, left.phrase, h.phrase), m)
            && (h.exp == None || h.exp == Some(Tree(h.phrase)))
               && (left.exp == None || left.exp == Some(Tree(left.phrase)))
            && StackOf(h) == Push(Push(Push(StackOf(b), StateOf(left), ExpVal(left.exp)), level + 7,
               OpToken(level, op).val),
                                  StateOf(h), ExpVal(h.exp))
            && Consumed(h) == Consumed(b) + Tokens(Binary(level, op, left.phrase, h.phrase))
            && (NoNull(h) <==> NoNull(b) && left.exp.Some? && h.exp.Some?)
            && Nodes(h) == Nodes(b) + Size(left.phrase) + Size(h.phrase)
  {
    var mid := h.before;
    BelowFound(h, m);
    InFront(mid, m);
    var level, left := mid.state - 7, mid.before;
    BelowFound(left, m);
    op := GoodOperator(mid.token, m);
    OnPhrase(h);
  }

  lemma BinaryNode(level: int, op: Operator, l: Phrase, r: Phrase, a: Option<Expression>, b: Option<Expression>,
                   made: nat, grants: Grants)
    requires (a == None || a == Some(Tree(l))) && (b == None || b == Some(Tree(r)))
    ensures var n := NewExp(op, [a, b], made, grants);
            && (n.exp == None || n.exp == Some(Tree(Binary(level, op, l, r))))
            && (n.exp.Some? <==> a.Some? && b.Some? && grants(made))
            && n.made == if a.Some? && b.Some? then made + 1 else made
  {
    NullArgs2(a, b);
  }

  lemma BinaryFound(h: History, c: Config, all: seq<Token>, grants: Grants, m: ULongRange) returns (h': History)
    requires Explains(h, c, all, grants, m) && h.Found? && 11 <= StateOf(h.before) <= 16
    requires var t := Symbol(Lookahead(c.input)); !(IsOperator(t) && Weakest(StateOf(h.before)) <= t)
    ensures Reduced(c, StateOf(h.before) - 7, h', all, grants, m)
    ensures Weight(h') < Weight(h)
  {
    var op := BinaryShape(h, m);
    var left, level := h.before.before, h.before.state - 7;
    var b, p, n := left.before, Binary(level, op, left.phrase, h.phrase), NewExp(op, [left.exp, h.exp], c.made, grants);
    TopOf(b);
    BinaryReduction(c, StackOf(b), StateOf(left), left.exp, level, op, StateOf(h), h.exp, grants);
    BinaryNode(level, op, left.phrase, h.phrase, left.exp, h.exp, c.made, grants);
    h' := Found(b, p, n.exp);
    NodeMemory(h, b, p, left.exp.Some? && h.exp.Some?, c.made, n.exp, n.made, grants);
    assert Weight(h.before) == Weight(left) + 2 == Weight(b) + 3;
    FoundExplained(h, c, all, grants, m, level, b, p, n.exp, n.made);
  }

  lemma CondShape(h: History, m: ULongRange)
    requires Consistent(h, m) && h.Found? && StateOf(h.before) == 25
    ensures h.before.Shifted? && h.before.before.Found?
    ensures h.before.before.before.Shifted? && h.before.before.before.before.Found?
    ensures var yes, test := h.before.before, h.before.before.before.before;
            var b, p := test.before, Cond(test.phrase, yes.phrase, h.phrase);
            && Consistent(b, m) && Expecting(StateOf(b)) && !b.Found? && Weakest(StateOf(b)) <= 3 && Proper(p, m)
            && (h.exp == None || h.exp == Some(Tree(h.phrase)))
               && (yes.exp == None || yes.exp == Some(Tree(yes.phrase)))
            && (test.exp == None || test.exp == Some(Tree(test.phrase)))
            && StackOf(h) == Push(Push(Push(Push(Push(StackOf(b), StateOf(test), ExpVal(test.exp)), 10, Unset), 18,
               ExpVal(yes.exp)),
                                       25, Unset), 26, ExpVal(h.exp))
            && Consumed(h) == Consumed(b) + Tokens(p)
            && (NoNull(h) <==> NoNull(b) && test.exp.Some? && yes.exp.Some? && h.exp.Some?)
            && Nodes(h) == Nodes(b) + Size(test.phrase) + Size(yes.phrase) + Size(h.phrase)
  {
    var colon := h.before;
    BelowFound(h, m);
    InFront(colon, m);
    var yes := colon.before;
    YesShape(yes, m);
    TranslateInjective(colon.token.yychar, ':' as int);
    var test := yes.before.before;
    var b := test.before;
    OnToken(h);
    Assoc(Consumed(b), Tokens(test.phrase), yes.before.token, Tokens(yes.phrase), colon.token, Tokens(h.phrase));
  }

  lemma Assoc(a: seq<Token>, b: seq<Token>, c: Token, d: seq<Token>, e: Token, f: seq<Token>)
    ensures a + (b + [c] + d) + ([e] + f) == a + (b + [c] + d + [e] + f)
  {
  }

  /** The test and the first branch of a conditional. */
  lemma YesShape(h: History, m: ULongRange)
    requires Consistent(h, m) && h.Found? && StateOf(h.before) == 10
    ensures h.before.Shifted? && h.before.before.Found? && h.before.token == Token('?' as int, Unset)
    ensures var test := h.before.before;
            var b := test.before;
            && Consistent(b, m) && Expecting(StateOf(b)) && !b.Found? && Weakest(StateOf(b)) <= 3
            && Proper(test.phrase, m) && Strength(test.phrase) > 3 && Proper(h.phrase, m)
            && (h.exp == None || h.exp == Some(Tree(h.phrase)))
               && (test.exp == None || test.exp == Some(Tree(test.phrase)))
            && StackOf(h) == Push(Push(Push(StackOf(b), StateOf(test), ExpVal(test.exp)), 10, Unset), 18, ExpVal(h.exp))
            && Consumed(h) == Consumed(b) + (Tokens(test.phrase) + [h.before.token] + Tokens(h.phrase))
            && (NoNull(h) <==> NoNull(b) && test.exp.Some? && h.exp.Some?)
            && Nodes(h) == Nodes(b) + Size(test.phrase) + Size(h.phrase)
  {
    var mark := h.before;
    BelowFound(h, m);
    InFront(mark, m);
    TranslateInjective(mark.token.yychar, '?' as int);
    var test := mark.before;
    BelowFound(test, m);
    OnPhrase(h);
  }

  lemma CondNode(t: Phrase, y: Phrase, n: Phrase, a: Option<Expression>, b: Option<Expression>, c: Option<Expression>,
                 made: nat, grants: Grants)
    requires (a == None || a == Some(Tree(t))) && (b == None || b == Some(Tree(y))) && (c == None || c == Some(Tree(n)))
    ensures var node := NewExp(QMop, [a, b, c], made, grants);
            && (node.exp == None || node.exp == Some(Tree(Cond(t, y, n))))
            && (node.exp.Some? <==> a.Some? && b.Some? && c.Some? && grants(made))
            && node.made == if a.Some? && b.Some? && c.Some? then made + 1 else made
  {
    NullArgs3(a, b, c);
  }

  lemma CondFound(h: History, c: Config, all: seq<Token>, grants: Grants, m: ULongRange) returns (h': History)
    requires Explains(h, c, all, grants, m) && h.Found? && StateOf(h.before) == 25
               && !IsOperator(Symbol(Lookahead(c.input)))
    ensures Reduced(c, 3, h', all, grants, m)
    ensures Weight(h') < Weight(h)
  {
    CondShape(h, m);
    var yes, test := h.before.before, h.before.before.before.before;
    var b, p := test.before, Cond(test.phrase, yes.phrase, h.phrase);
    var n := NewExp(QMop, [test.exp, yes.exp, h.exp], c.made, grants);
    TopOf(b);
    CondReduction(c, StackOf(b), StateOf(test), test.exp, yes.exp, h.exp, grants);
    CondNode(test.phrase, yes.phrase, h.phrase, test.exp, yes.exp, h.exp, c.made, grants);
    h' := Found(b, p, n.exp);
    NodeMemory(h, b, p, test.exp.Some? && yes.exp.Some? && h.exp.Some?, c.made, n.exp, n.made, grants);
    assert Weight(h.before) == Weight(yes) + 2 && Weight(yes) == Weight(yes.before) + 1;
    assert Weight(yes.before) == Weight(test) + 2 == Weight(b) + 3;
    FoundExplained(h, c, all, grants, m, 3, b, p, n.exp, n.made);
  }

  lemma OnBegin(p: Phrase, exp: Option<Expression>)
    ensures var h := Found(Begin, p, exp);
            (NoNull(h) <==> exp.Some?) && Nodes(h) == Size(p) && Consumed(h) == Tokens(p)
  {
    assert NoNull(Begin) && Nodes(Begin) == 0 && Consumed(Begin) == [];
  }

  /** The start rule is reduced only when the whole input has been read as one phrase; NULL aborts. */
  lemma StartFound(h: History, c: Config, all: seq<Token>, grants: Grants, m: ULongRange) returns (h': History)
    requires Explains(h, c, all, grants, m) && h.Found? && StateOf(h.before) == 0
    ensures Reduction(c, 2, grants).Running? <==> h.exp.Some?
    ensures Reduction(c, 2, grants).Running? ==> Reduced(c, 2, h', all, grants, m)
    ensures !Reduction(c, 2, grants).Running? ==> Reduction(c, 2, grants) == Rejected
    ensures Weight(h') < Weight(h)
  {
    BelowFound(h, m);
    h' := Started(h.phrase);
    if h.before.Shifted? {
      InFront(h.before, m);
    }
    assert h.before == Begin;
    assert StackOf(h) == Push(Bottom, 6, ExpVal(h.exp));
    Gotos(2, 0);
    assert YyR2(2) == 1 && Pop(c.stack, 1) == Pop(Bottom, 0);
    assert h == Found(Begin, h.phrase, h.exp);
    OnBegin(h.phrase, h.exp);
  }

  // ------------------------------------------------------------------------
  // Steps
  // ------------------------------------------------------------------------

  /** What is known of the outcome of a step from a configuration explained by h. */
  ghost predicate Sound(h: History, c: Config, out: Outcome, h': History, all: seq<Token>, grants: Grants,
                        m: ULongRange) {
    match out
    case Running(d) => Explains(h', d, all, grants, m) && Weight(h') + 3 * |d.input| < Weight(h) + 3 * |c.input|
    case Accepted(r) => h.Ended? && Justified(r, h.phrase, all, grants, m)
    case Rejected => true
  }

  /** In a state that expects a phrase. */
  lemma StepBefore(h: History, c: Config, all: seq<Token>, grants: Grants, m: ULongRange) returns (h': History)
    requires Explains(h, c, all, grants, m) && Expecting(StateOf(h)) && !h.Found?
    ensures Sound(h, c, Step(c, grants), h', all, grants, m)
  {
    TopOf(h);
    var t := c.input[0];
    SymbolRange(t);
    ActionsBefore(StateOf(h), Symbol(t));
    h' := h;
    match ActionOf(StateOf(h), Symbol(t))
    case Shift(next) =>
      h' := Shifted(h, t, next);
      ShiftExplained(h, c, all, grants, m, next);
    case _ =>
  }

  /** A token is shifted after a phrase. */
  lemma StepShifts(h: History, c: Config, all: seq<Token>, grants: Grants, m: ULongRange, next: int)
    returns (h': History)
    requires Explains(h, c, all, grants, m) && h.Found? && Expecting(StateOf(h.before))
    requires ActionOf(AfterExp(StateOf(h.before)), Symbol(c.input[0])) == Shift(next) && Symbol(c.input[0]) != 0
    requires OperatorShift(h, c.input[0], next) || ClosingShift(h, c.input[0], next)
    ensures Sound(h, c, Step(c, grants), h', all, grants, m)
  {
    TopOf(h);
    h' := Shifted(h, c.input[0], next);
    ShiftExplained(h, c, all, grants, m, next);
  }

  /** After a phrase. */
  lemma StepAfter(h: History, c: Config, all: seq<Token>, grants: Grants, m: ULongRange) returns (h': History)
    requires Explains(h, c, all, grants, m) && h.Found?
    ensures Sound(h, c, Step(c, grants), h', all, grants, m)
  {
    BelowFound(h, m);
    TopOf(h);
    var q, t := StateOf(h.before), Symbol(c.input[0]);
    SymbolRange(c.input[0]);
    ActionsAfter(q, t);
    if IsOperator(t) && Weakest(q) <= t {
      h' := StepShifts(h, c, all, grants, m, t + 7);
    } else if q == 4 && t == 15 {
      h' := StepShifts(h, c, all, grants, m, 17);
    } else if q == 10 && t == 12 {
      h' := StepShifts(h, c, all, grants, m, 25);
    } else {
      h' := StepReduces(h, c, all, grants, m);
    }
  }

  lemma StepReduces(h: History, c: Config, all: seq<Token>, grants: Grants, m: ULongRange) returns (h': History)
    requires Explains(h, c, all, grants, m) && h.Found? && Expecting(StateOf(h.before))
    requires var t := Symbol(c.input[0]); !(IsOperator(t) && Weakest(StateOf(h.before)) <= t)
    ensures var q := StateOf(h.before);
            q !in {4, 10} ==> Sound(h, c, Reduction(c, if q == 0 then 2 else if q == 1 then 10 else if q == 25 then 3
                else q - 7, grants),
                                    h', all, grants, m)
  {
    var q := StateOf(h.before);
    h' := h;
    if q == 0 {
      h' := StartFound(h, c, all, grants, m);
    } else if q == 1 {
      h' := NotFound(h, c, all, grants, m);
    } else if q == 25 {
      h' := CondFound(h, c, all, grants, m);
    } else if 11 <= q <= 16 {
      h' := BinaryFound(h, c, all, grants, m);
    }
  }

  /** After a token that completes a phrase. */
  lemma StepLast(h: History, c: Config, all: seq<Token>, grants: Grants, m: ULongRange) returns (h': History)
    requires Explains(h, c, all, grants, m) && h.Shifted? && h.state in {2, 3, 17}
    ensures Sound(h, c, Step(c, grants), h', all, grants, m)
  {
    TopOf(h);
    SymbolRange(c.input[0]);
    ActionsOther(Symbol(c.input[0]));
    if h.state == 17 {
      h' := ParenFound(h, c, all, grants, m);
    } else {
      h' := LeafFound(h, c, all, grants, m);
    }
  }

  lemma StepEnd(h: History, c: Config, all: seq<Token>, grants: Grants, m: ULongRange) returns (h': History)
    requires Explains(h, c, all, grants, m) && (h.Started? || h.Ended?)
    ensures Sound(h, c, Step(c, grants), h', all, grants, m)
  {
    TopOf(h);
    h' := h;
    if h.Started? {
      SymbolRange(c.input[0]);
      ActionsOther(Symbol(c.input[0]));
      if Symbol(c.input[0]) == 0 {
        EndExplained(h, c, all, grants, m);
        h' := Ended(h.phrase);
      }
    } else {
      assert all == Tokens(h.phrase) + [END_TOKEN];
    }
  }

  /** One step of the parser from a configuration that has an explanation. */
  lemma StepSound(h: History, c: Config, all: seq<Token>, grants: Grants, m: ULongRange) returns (h': History)
    requires Explains(h, c, all, grants, m)
    ensures Sound(h, c, Step(c, grants), h', all, grants, m)
  {
    match h
    case Begin => h' := StepBefore(h, c, all, grants, m);
    case Shifted(_, _, state) =>
      InFront(h, m);
      if state in {2, 3, 17} {
        h' := StepLast(h, c, all, grants, m);
      } else {
        h' := StepBefore(h, c, all, grants, m);
      }
    case Found(_, _, _) => h' := StepAfter(h, c, all, grants, m);
    case _ => h' := StepEnd(h, c, all, grants, m);
  }
}
