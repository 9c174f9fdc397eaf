/** The tables of the plural expression parser, as they stand in the source, and what they mean. */
module PluralTables {

  const YYFINAL := 9
  const YYLAST := 54
  const YYNTOKENS := 16
  const YYNSTATES := 27
  const YYPACT_NINF := -10
  const YYTERROR := 1
  const YYEOF := 0
  const YYERRCODE := 256

  // Token numbers. Single characters stand for themselves.
  const EQUOP2 := 258
  const CMPOP2 := 259
  const ADDOP2 := 260
  const MULOP2 := 261
  const NUMBER := 262

  /** The symbol number of a token number. All entries that are not listed are 2, the undefined token. */
  function YyTranslate(yychar: int): int {
    match yychar
    case 0 => 0 case 33 => 10 case 38 => 5 case 40 => 14 case 41 => 15 case 58 => 12 case 63 => 3 case 110 => 13
    case 124 => 4
    case 256 => 1 case 258 => 6 case 259 => 7 case 260 => 8 case 261 => 9 case 262 => 11
    case _ => 2
  }

  /** Where the entries of a state start in the action table. */
  function YyPact(i: int): int {
    match i
    case 0 => -9 case 1 => -9 case 2 => -10 case 3 => -10 case 4 => -9 case 5 => 8 case 6 => 36 case 7 => -10
    case 8 => 13 case 9 => -10 case 10 => -9 case 11 => -9 case 12 => -9 case 13 => -9
    case 14 => -9 case 15 => -9 case 16 => -9 case 17 => -10 case 18 => 26 case 19 => 41 case 20 => 45 case 21 => 18
    case 22 => -2 case 23 => 14 case 24 => -10 case 25 => -9 case 26 => 36
    case _ => 0
  }

  /** The default reduction of a state, or 0 for an error. */
  function YyDefact(i: int): int {
    match i
    case 0 => 0 case 1 => 0 case 2 => 12 case 3 => 11 case 4 => 0 case 5 => 0 case 6 => 2 case 7 => 10 case 8 => 0
    case 9 => 1 case 10 => 0 case 11 => 0 case 12 => 0 case 13 => 0
    case 14 => 0 case 15 => 0 case 16 => 0 case 17 => 13 case 18 => 0 case 19 => 4 case 20 => 5 case 21 => 6
    case 22 => 7 case 23 => 8 case 24 => 9 case 25 => 0 case 26 => 3
    case _ => 0
  }

  /** The actions: the state to shift to. */
  function YyTable(i: int): int {
    match i
    case 0 => 7 case 1 => 1 case 2 => 2 case 3 => 8 case 4 => 3 case 5 => 4 case 6 => 15 case 7 => 16 case 8 => 9
    case 9 => 18 case 10 => 19 case 11 => 20 case 12 => 21 case 13 => 22
    case 14 => 23 case 15 => 24 case 16 => 10 case 17 => 11 case 18 => 12 case 19 => 13 case 20 => 14 case 21 => 15
    case 22 => 16 case 23 => 16 case 24 => 26 case 25 => 14 case 26 => 15 case 27 => 16
    case 28 => 17 case 29 => 10 case 30 => 11 case 31 => 12 case 32 => 13 case 33 => 14 case 34 => 15 case 35 => 16
    case 36 => 0 case 37 => 0 case 38 => 25 case 39 => 10 case 40 => 11 case 41 => 12
    case 42 => 13 case 43 => 14 case 44 => 15 case 45 => 16 case 46 => 12 case 47 => 13 case 48 => 14 case 49 => 15
    case 50 => 16 case 51 => 13 case 52 => 14 case 53 => 15 case 54 => 16
    case _ => 0
  }

  /** The symbols that the actions are for. */
  function YyCheck(i: int): int {
    match i
    case 0 => 1 case 1 => 10 case 2 => 11 case 3 => 4 case 4 => 13 case 5 => 14 case 6 => 8 case 7 => 9 case 8 => 0
    case 9 => 10 case 10 => 11 case 11 => 12 case 12 => 13 case 13 => 14
    case 14 => 15 case 15 => 16 case 16 => 3 case 17 => 4 case 18 => 5 case 19 => 6 case 20 => 7 case 21 => 8
    case 22 => 9 case 23 => 9 case 24 => 25 case 25 => 7 case 26 => 8 case 27 => 9
    case 28 => 15 case 29 => 3 case 30 => 4 case 31 => 5 case 32 => 6 case 33 => 7 case 34 => 8 case 35 => 9
    case 36 => -1 case 37 => -1 case 38 => 12 case 39 => 3 case 40 => 4 case 41 => 5
    case 42 => 6 case 43 => 7 case 44 => 8 case 45 => 9 case 46 => 5 case 47 => 6 case 48 => 7 case 49 => 8
    case 50 => 9 case 51 => 6 case 52 => 7 case 53 => 8 case 54 => 9
    case _ => 0
  }

  /** The nonterminal that a rule derives. */
  function YyR1(i: int): int {
    match i
    case 0 => 0 case 1 => 16 case 2 => 17 case 3 => 18 case 4 => 18 case 5 => 18 case 6 => 18 case 7 => 18
    case 8 => 18 case 9 => 18 case 10 => 18 case 11 => 18 case 12 => 18 case 13 => 18
    case _ => 0
  }

  /** The number of symbols on the right hand side of a rule. */
  function YyR2(i: int): int {
    match i
    case 0 => 0 case 1 => 2 case 2 => 1 case 3 => 5 case 4 => 3 case 5 => 3 case 6 => 3 case 7 => 3 case 8 => 3
    case 9 => 3 case 10 => 2 case 11 => 1 case 12 => 1 case 13 => 3
    case _ => 0
  }

  /** Where the gotos of a nonterminal start in the action table. */
  function YyPgoto(i: int): int {
    match i
    case 0 => -10 case 1 => -10 case 2 => -1
    case _ => 0
  }

  /** The default goto of a nonterminal. */
  function YyDefgoto(i: int): int {
    match i
    case 0 => -1 case 1 => 5 case 2 => 6
    case _ => 0
  }

  datatype Action = Shift(state: int) | Reduce(rule: int) | Error

  function DefaultAction(state: int): Action {
    var yyn := YyDefact(state);
    if yyn == 0 then Error else Reduce(yyn)
  }

  /** The action of a state that looks at symbol token. */
  function ActionOf(state: int, token: int): Action {
    var yyn := YyPact(state);
    if yyn == YYPACT_NINF || yyn + token < 0 || YYLAST < yyn + token || YyCheck(yyn + token) != token then
      DefaultAction(state)
    else
      var act := YyTable(yyn + token);
      if act <= 0 then Reduce(-act) else Shift(act)
  }

  /** The state after a reduction by rule that uncovers state top. */
  function GotoOf(rule: int, top: int): int {
    var nt := YyR1(rule) - YYNTOKENS;
    var i := YyPgoto(nt) + top;
    if 0 <= i <= YYLAST && YyCheck(i) == top then YyTable(i) else YyDefgoto(nt)
  }

  // ------------------------------------------------------------------------
  // What the tables say
  // ------------------------------------------------------------------------

  /** The states in which an expression begins. */
  predicate Expecting(q: int) {
    q in {0, 1, 4, 25} || 10 <= q <= 16
  }

  /** The state after the expression. */
  function AfterExp(q: int): int
    requires Expecting(q)
  {
    if q == 0 then 6 else if q == 1 then 7 else if q == 4 then 8 else if q == 25 then 26 else q + 8
  }

  /** The weakest operator (as a symbol number, 3 to 9) that an expression beginning in state q may be
      continued with. 10 stands for none. */
  function Weakest(q: int): int
    requires Expecting(q)
  {
    if q == 1 then 10 else if 11 <= q <= 16 then q - 6 else 3
  }

  predicate IsOperator(token: int) {
    3 <= token <= 9
  }

  lemma ActionsBefore(q: int, token: int)
    requires Expecting(q) && 0 <= token < YYNTOKENS
    ensures ActionOf(q, token) ==
            if token == 10 then Shift(1) else if token == 11 then Shift(2) else if token == 13 then Shift(3)
            else if token == 14 then Shift(4) else Error
  {
  }

  /** After an expression the operators that bind tightly enough are shifted. */
  lemma ActionsAfter(q: int, token: int)
    requires Expecting(q) && 0 <= token < YYNTOKENS
    ensures IsOperator(token) && Weakest(q) <= token ==> ActionOf(AfterExp(q), token) == Shift(token + 7)
    ensures !(IsOperator(token) && Weakest(q) <= token) ==>
              ActionOf(AfterExp(q), token) ==
              match q {
                case 0 => Reduce(2)
                case 1 => Reduce(10)
                case 4 => if token == 15 then Shift(17) else Error
                case 10 => if token == 12 then Shift(25) else Error
                case 25 => Reduce(3)
                case _ => Reduce(q - 7)
              }
  {
  }

  lemma ActionsOther(token: int)
    requires 0 <= token < YYNTOKENS
    ensures ActionOf(2, token) == Reduce(12) && ActionOf(3, token) == Reduce(11) && ActionOf(17, token) == Reduce(13)
    ensures ActionOf(5, token) == if token == 0 then Shift(YYFINAL) else Error
  {
  }

  lemma Gotos(rule: int, q: int)
    requires Expecting(q)
    ensures 3 <= rule <= 13 ==> GotoOf(rule, q) == AfterExp(q)
    ensures GotoOf(2, q) == 5
  {
  }

  /** No state has an action for the error symbol, so a syntax error ends the parse. */
  lemma NoErrorAction(state: int)
    requires 0 <= state < YYNSTATES
    ensures YyPact(state) == YYPACT_NINF
            || !(0 <= YyPact(state) + YYTERROR <= YYLAST && YyCheck(YyPact(state) + YYTERROR) == YYTERROR)
  {
  }

  lemma TranslateInjective(a: int, b: int)
    requires YyTranslate(a) == YyTranslate(b) != 2
    ensures a == b
  {
  }
}
