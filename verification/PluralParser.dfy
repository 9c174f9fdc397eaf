/** The table-driven parser. */
module PluralParser {
  import opened Wrappers
  import opened PluralExp
  import opened PluralTables
  import opened PluralEngine
  import opened PluralGrammar
  import opened PluralComplete
  import opened PluralSound
  import opened PluralMembers
  import opened PluralLexer
  import opened PluralText

  const YYEMPTY := -2

  /** The two stacks as one. */
  ghost function Stacked(yyss: seq<int>, yyvs: seq<SemVal>): Stack
    requires |yyss| == |yyvs| + 1
  {
    if yyvs == [] then Bottom
    else Push(Stacked(yyss[..|yyss| - 1], yyvs[..|yyvs| - 1]), yyss[|yyss| - 1], yyvs[|yyvs| - 1])
  }

  lemma StackedPush(yyss: seq<int>, yyvs: seq<SemVal>, state: int, val: SemVal)
    requires |yyss| == |yyvs| + 1
    ensures Stacked(yyss + [state], yyvs + [val]) == Push(Stacked(yyss, yyvs), state, val)
  {
    assert (yyss + [state])[..|yyss|] == yyss && (yyvs + [val])[..|yyvs|] == yyvs;
  }

  lemma {:induction false} StackedTop(yyss: seq<int>, yyvs: seq<SemVal>)
    requires |yyss| == |yyvs| + 1 && yyss[0] == 0
    ensures TopState(Stacked(yyss, yyvs)) == yyss[|yyss| - 1]
  {
  }

  lemma {:induction false} StackedPop(yyss: seq<int>, yyvs: seq<SemVal>, k: nat)
    requires |yyss| == |yyvs| + 1 && k <= |yyvs|
    ensures Pop(Stacked(yyss, yyvs), k) == Stacked(yyss[..|yyss| - k], yyvs[..|yyvs| - k])
    decreases k
  {
    if k == 0 {
      assert yyss[..|yyss|] == yyss && yyvs[..|yyvs|] == yyvs;
    } else {
      var ss, vs := yyss[..|yyss| - 1], yyvs[..|yyvs| - 1];
      StackedPop(ss, vs, k - 1);
      assert ss[..|ss| - (k - 1)] == yyss[..|yyss| - k] && vs[..|vs| - (k - 1)] == yyvs[..|yyvs| - k];
    }
  }

  lemma {:induction false} StackedValue(yyss: seq<int>, yyvs: seq<SemVal>, k: nat)
    requires |yyss| == |yyvs| + 1 && k < |yyvs|
    ensures ValueAt(Stacked(yyss, yyvs), k) == yyvs[|yyvs| - 1 - k]
    decreases k
  {
    if k > 0 {
      StackedValue(yyss[..|yyss| - 1], yyvs[..|yyvs| - 1], k - 1);
    }
  }

  lemma {:induction false} StackedHeight(yyss: seq<int>, yyvs: seq<SemVal>)
    requires |yyss| == |yyvs| + 1
    ensures Height(Stacked(yyss, yyvs)) == |yyvs|
    decreases |yyvs|
  {
    if yyvs != [] {
      StackedHeight(yyss[..|yyss| - 1], yyvs[..|yyvs| - 1]);
    }
  }

  // ------------------------------------------------------------------------
  // Nodes
  // ------------------------------------------------------------------------

  /** Makes a node of its arguments, or NULL if an argument is NULL or there is no memory. */
  method MakeNode(nargs: nat, op: Operator, args: seq<Option<Expression>>, made: nat, grants: Grants)
    returns (newp: Option<Expression>, made': nat)
    requires nargs == |args|
    ensures NewNode(newp, made') == NewExp(op, args, made, grants)
  {
    var i: int := nargs - 1;
    while i >= 0
      invariant -1 <= i < nargs && forall k :: i < k < nargs ==> args[k].Some?
    {
      if args[i] == None {
        return None, made;
      }
      i := i - 1;
    }
    made' := made + 1;
    if grants(made) {
      i := nargs - 1;
      var vals: seq<Expression> := [];
      while i >= 0
        invariant -1 <= i < nargs && |vals| == nargs - 1 - i
                    && forall k :: i < k < nargs ==> vals[k - i - 1] == args[k].value
      {
        vals := [args[i].value] + vals;
        i := i - 1;
      }
      assert vals == Values(args);
      newp := Some(Expression(nargs, op, if nargs == 0 then Nothing else Args(vals)));
    } else {
      newp := None;
    }
  }

  /** The nodes that the actions of rules 3 to 12 make. */
  method MakeFor(yyn: int, yyss: seq<int>, yyvs: seq<SemVal>, made: nat, grants: Grants)
    returns (yyval: Option<Expression>, made': nat)
    requires |yyss| == |yyvs| + 1 && RightMembers(Stacked(yyss, yyvs), yyn) && 3 <= yyn <= 12
    ensures NewNode(yyval, made') == NodeOf(yyn, Stacked(yyss, yyvs), made, grants)
  {
    var top := |yyvs| - 1;
    StackedHeight(yyss, yyvs);
    StackedValue(yyss, yyvs, 0);
    if yyn == 3 {
      StackedValue(yyss, yyvs, 4);
      StackedValue(yyss, yyvs, 2);
      yyval, made' := MakeNode(3, QMop, [yyvs[top - 4].exp, yyvs[top - 2].exp, yyvs[top].exp], made, grants);
    } else if yyn <= 9 {
      StackedValue(yyss, yyvs, 2);
      StackedValue(yyss, yyvs, 1);
      var op := if yyn == 4 then LOr else if yyn == 5 then LAnd else yyvs[top - 1].op;
      yyval, made' := MakeNode(2, op, [yyvs[top - 2].exp, yyvs[top].exp], made, grants);
    } else if yyn == 10 {
      yyval, made' := MakeNode(1, LNot, [yyvs[top].exp], made, grants);
    } else if yyn == 11 {
      yyval, made' := MakeNode(0, VarOp, [], made, grants);
    } else {
      yyval, made' := MakeNode(0, NumOp, [], made, grants);
      if yyval != None {
        yyval := Some(yyval.value.(val := Number(yyvs[top].num)));
      }
    }
  }

  /** The semantic actions. */
  method Act(yyn: int, yyss: seq<int>, yyvs: seq<SemVal>, made: nat, res: Option<Expression>, grants: Grants)
    returns (effect: Effect)
    requires |yyss| == |yyvs| + 1 && RightMembers(Stacked(yyss, yyvs), yyn)
    ensures effect == EffectOf(yyn, Stacked(yyss, yyvs), made, res, grants)
  {
    var top := |yyvs| - 1;
    StackedHeight(yyss, yyvs);
    StackedValue(yyss, yyvs, 0);
    if yyn == 2 {
      effect := if yyvs[top].exp == None then Abort else Effect(yyvs[top], made, yyvs[top].exp);
    } else if yyn == 13 {
      StackedValue(yyss, yyvs, 1);
      effect := Effect(ExpVal(yyvs[top - 1].exp), made, res);
    } else {
      var exp, made';
      exp, made' := MakeFor(yyn, yyss, yyvs, made, grants);
      effect := Effect(ExpVal(exp), made', res);
    }
  }

  /** Looks up the state after a reduction in the goto tables. */
  method Goto(yyn: int, top: int) returns (yystate: int)
    ensures yystate == GotoOf(yyn, top)
  {
    var nt := YyR1(yyn) - YYNTOKENS;
    yystate := YyPgoto(nt) + top;
    if 0 <= yystate <= YYLAST && YyCheck(yystate) == top {
      yystate := YyTable(yystate);
    } else {
      yystate := YyDefgoto(nt);
    }
  }

  /** Pops the right-hand side and pushes the result of the reduction. */
  method PopAndGo(yyn: int, yyval: SemVal, yyss: seq<int>, yyvs: seq<SemVal>)
    returns (yyss': seq<int>, yyvs': seq<SemVal>)
    requires |yyss| == |yyvs| + 1 && yyss[0] == 0 && 0 <= YyR2(yyn) <= |yyvs|
    ensures |yyss'| == |yyvs'| + 1 && yyss'[0] == 0
    ensures var base := Pop(Stacked(yyss, yyvs), YyR2(yyn));
            Stacked(yyss', yyvs') == Push(base, GotoOf(yyn, TopState(base)), yyval)
    ensures 2 <= yyn <= 13 && InRange(yyss) ==> InRange(yyss')
  {
    var yylen := YyR2(yyn);
    StackedPop(yyss, yyvs, yylen);
    yyss', yyvs' := yyss[..|yyss| - yylen], yyvs[..|yyvs| - yylen];
    var yystate := Goto(yyn, yyss'[|yyss'| - 1]);
    StatesInRange(0, 0, yyn, yyss'[|yyss'| - 1]);
    StackedTop(yyss', yyvs');
    StackedPush(yyss', yyvs', yystate, yyval);
    yyss', yyvs' := yyss' + [yystate], yyvs' + [yyval];
  }

  ghost predicate InRange(yyss: seq<int>) {
    forall i :: 0 <= i < |yyss| ==> 0 <= yyss[i] < YYNSTATES
  }

  /** The tokens that are left are the lookahead token, if there is one, and those from the cursor on. */
  ghost predicate Ahead(input: seq<Token>, yychar: int, yylval: SemVal, s: string, cp: nat, m: ULongRange) {
    && cp <= |s|
    && (input == [] || yychar == YYEOF ==> Stops(s, cp))
    && if yychar == YYEMPTY then
         input == [] || input == TokensFrom(s, cp, m)
       else
         yychar >= 0 && input == [Token(yychar, yylval)] + if yychar == YYEOF then [] else TokensFrom(s, cp, m)
  }

  /** Reads the lookahead token, unless there is one. */
  method ReadAhead(s: string, m: ULongRange, yychar0: int, yylval0: SemVal, cp0: nat, ghost input: seq<Token>)
    returns (yychar: int, yylval: SemVal, cp: nat)
    requires Ahead(input, yychar0, yylval0, s, cp0, m) && input != []
    ensures Ahead(input, yychar, yylval, s, cp, m) && yychar != YYEMPTY && input[0] == Token(yychar, yylval)
    ensures EndFrom(s, cp, m) == EndFrom(s, cp0, m)
  {
    yychar, yylval, cp := yychar0, yylval0, cp0;
    if yychar == YYEMPTY {
      yychar, yylval, cp := Yylex(s, cp, m);
      Delivered(s, cp0, m);
    }
  }

  lemma Delivered(s: string, i: nat, m: ULongRange)
    requires i <= |s|
    ensures var l := Lex(s, i, m);
            && TokensFrom(s, i, m) == [l.token] + (if l.token.yychar == YYEOF then [] else TokensFrom(s, l.end, m))
            && l.token.yychar >= 0 && EndFrom(s, l.end, m) == EndFrom(s, i, m)
            && (l.token.yychar == YYEOF ==> Stops(s, l.end))
  {
  }

  /** The entry of the tables for a state and a lookahead token. */
  method Consult(yystate: int, yychar: int) returns (act: Action)
    requires yychar >= 0
    ensures forall val :: act == ActionOf(yystate, Symbol(Token(yychar, val)))
  {
    act := DefaultAction(yystate);
    var yytoken := if yychar <= YYEOF then YYEOF else YyTranslate(yychar);
    var yyn := YyPact(yystate) + yytoken;
    if !(yyn < 0 || YYLAST < yyn || YyCheck(yyn) != yytoken) && YyPact(yystate) != YYPACT_NINF {
      yyn := YyTable(yyn);
      act := if yyn <= 0 then Reduce(-yyn) else Shift(yyn);
    }
  }

  /** The action for the state, reading a lookahead token only if the state needs one. */
  method Decide(yystate: int, s: string, m: ULongRange, yychar0: int, yylval0: SemVal, cp0: nat,
                ghost input: seq<Token>)
    returns (act: Action, yychar: int, yylval: SemVal, cp: nat)
    requires Ahead(input, yychar0, yylval0, s, cp0, m) && input != []
    ensures act == ActionOf(yystate, Symbol(input[0])) && Ahead(input, yychar, yylval, s, cp, m)
    ensures act.Shift? ==> yychar != YYEMPTY && input[0] == Token(yychar, yylval)
    ensures EndFrom(s, cp, m) == EndFrom(s, cp0, m)
  {
    yychar, yylval, cp := yychar0, yylval0, cp0;
    if YyPact(yystate) == YYPACT_NINF {
      act := DefaultAction(yystate);
    } else {
      yychar, yylval, cp := ReadAhead(s, m, yychar, yylval, cp, input);
      act := Consult(yystate, yychar);
    }
  }

  lemma StatesInRange(state: int, token: int, rule: int, top: int)
    ensures ActionOf(state, token).Shift? ==> 0 <= ActionOf(state, token).state < YYNSTATES
    ensures 2 <= rule <= 13 ==> 0 <= GotoOf(rule, top) < YYNSTATES
  {
  }

  /** The error recovery pops states that cannot handle the error token. None can, so the parse is aborted. */
  method Recover(yyss0: seq<int>) returns (yyresult: int)
    requires yyss0 != [] && InRange(yyss0)
    ensures yyresult == 1
  {
    var yyss := yyss0;
    while true
      invariant yyss != [] && InRange(yyss)
      decreases |yyss|
    {
      var yyn := YyPact(yyss[|yyss| - 1]);
      NoErrorAction(yyss[|yyss| - 1]);
      if yyn != YYPACT_NINF {
        yyn := yyn + YYTERROR;
        if 0 <= yyn <= YYLAST && YyCheck(yyn) == YYTERROR {
          assert false;
        }
      }
      if |yyss| == 1 {
        return 1;
      }
      yyss := yyss[..|yyss| - 1];
    }
  }

  // ------------------------------------------------------------------------
  // yyparse
  // ------------------------------------------------------------------------

  /** p is written with exactly these tokens, and there is memory for its nodes. */
  ghost predicate Sentence(p: Phrase, all: seq<Token>, grants: Grants, m: ULongRange) {
    Proper(p, m) && all == Tokens(p) + [END_TOKEN] && AllGranted(grants, Size(p))
  }

  ghost predicate IsSentence(all: seq<Token>, grants: Grants, m: ULongRange) {
    exists p :: Sentence(p, all, grants, m)
  }

  /** However the run of the parser on a sentence ends, it ends with the tree of the sentence. */
  lemma Verdict(p: Phrase, all: seq<Token>, c: Config, n: nat, pm: Machine, m: ULongRange)
    requires Works(pm) && Sentence(p, all, pm.grants, m)
    requires Leads(pm.step, Start(all), c, n) && !pm.step(c).Running?
    ensures pm.step(c) == Accepted(Some(Tree(p)))
  {
    Complete(p, pm, m);
    var d, k :| Leads(pm.step, Start(all), d, k) && pm.step(d) == Accepted(Some(Tree(p)));
    OneEnd(pm.step, Start(all), c, d, n, k);
  }

  /** How a run has ended. */
  ghost predicate RunEnded(yyresult: int, res: Option<Expression>, h: History, c: Config, n: nat, all: seq<Token>,
                           pm: Machine, m: ULongRange) {
    && Explains(h, c, all, pm.grants, m)
    && Leads(pm.step, Start(all), c, n)
    && (yyresult == 0 || yyresult == 1)
    && pm.step(c) == if yyresult == 0 then Accepted(res) else Rejected
  }

  /** The variables of yyparse between two actions. */
  ghost predicate Between(h: History, yyss: seq<int>, yyvs: seq<SemVal>, yychar: int, yylval: SemVal, s: string,
                          cp: nat, made: nat, res: Option<Expression>, c: Config, all: seq<Token>, n: nat, pm: Machine,
                          m: ULongRange) {
    && |yyss| == |yyvs| + 1 && yyss[0] == 0 && InRange(yyss) && c == Config(Stacked(yyss, yyvs), c.input, made, res)
    && Explains(h, c, all, pm.grants, m)
    && Ahead(c.input, yychar, yylval, s, cp, m)
    && Leads(pm.step, Start(all), c, n)
  }

  /** A step forward keeps the explanation and the path. */
  lemma Forward(h: History, c: Config, d: Config, all: seq<Token>, n: nat, pm: Machine, m: ULongRange)
    returns (h': History)
    requires Works(pm) && Explains(h, c, all, pm.grants, m) && Leads(pm.step, Start(all), c, n)
               && pm.step(c) == Running(d)
    ensures Explains(h', d, all, pm.grants, m) && Leads(pm.step, Start(all), d, n + 1)
    ensures Weight(h') + 3 * |d.input| < Weight(h) + 3 * |c.input|
  {
    h' := StepSound(h, c, all, pm.grants, m);
    StepsAs(pm.step, pm.grants, pm.depth, c);
    OneMore(pm.step, Start(all), c, d, n);
  }

  lemma Beginning(s: string, cp: nat, pm: Machine, m: ULongRange)
    requires cp <= |s|
    ensures Between(Begin, [0], [], YYEMPTY, Unset, s, cp, 0, None, Start(TokensFrom(s, cp, m)), TokensFrom(s, cp, m),
              0, pm, m)
  {
    TokensGood(s, cp, m);
    var all := TokensFrom(s, cp, m);
    assert Consumed(Begin) + all == all;
  }

  /** Carries out a reduction that the tables call for. */
  method DoReduce(rule: int, yyss: seq<int>, yyvs: seq<SemVal>, made: nat, res: Option<Expression>, grants: Grants,
                  ghost h: History, ghost input: seq<Token>, ghost all: seq<Token>, ghost m: ULongRange)
    returns (abort: bool, yyss': seq<int>, yyvs': seq<SemVal>, made': nat, res': Option<Expression>)
    requires |yyss| == |yyvs| + 1 && yyss[0] == 0 && InRange(yyss) && input != []
    requires Explains(h, Config(Stacked(yyss, yyvs), input, made, res), all, grants, m)
    requires TopState(Stacked(yyss, yyvs)) != YYFINAL
    requires ActionOf(TopState(Stacked(yyss, yyvs)), Symbol(input[0])) == Reduce(rule)
    ensures |yyss'| == |yyvs'| + 1 && yyss'[0] == 0 && InRange(yyss')
    ensures Step(Config(Stacked(yyss, yyvs), input, made, res), grants) ==
            if abort then Rejected else Running(Config(Stacked(yyss', yyvs'), input, made', res'))
  {
    ghost var c := Config(Stacked(yyss, yyvs), input, made, res);
    MembersRight(h, c, all, grants, m, rule);
    var effect := Act(rule, yyss, yyvs, made, res, grants);
    abort, yyss', yyvs', made', res' := effect == Abort, yyss, yyvs, made, res;
    if !abort {
      StackedHeight(yyss, yyvs);
      yyss', yyvs' := PopAndGo(rule, effect.yyval, yyss, yyvs);
      made', res' := effect.made, effect.res;
    }
  }

  /** Pushes the lookahead token and uses it up. */
  method DoShift(next: int, yyss: seq<int>, yyvs: seq<SemVal>, yylval: SemVal, grants: Grants, ghost made: nat,
                 ghost res: Option<Expression>, ghost yychar: int, ghost input: seq<Token>)
    returns (yyss': seq<int>, yyvs': seq<SemVal>)
    requires |yyss| == |yyvs| + 1 && yyss[0] == 0 && InRange(yyss) && input != [] && input[0] == Token(yychar, yylval)
    requires TopState(Stacked(yyss, yyvs)) != YYFINAL
    requires ActionOf(TopState(Stacked(yyss, yyvs)), Symbol(input[0])) == Shift(next)
    ensures |yyss'| == |yyvs'| + 1 && yyss'[0] == 0 && InRange(yyss')
    ensures Step(Config(Stacked(yyss, yyvs), input, made, res), grants) ==
            Running(Config(Stacked(yyss', yyvs'), input[1..], made, res))
  {
    StackedPush(yyss, yyvs, next, yylval);
    StatesInRange(TopState(Stacked(yyss, yyvs)), Symbol(input[0]), 0, 0);
    yyss', yyvs' := yyss + [next], yyvs + [yylval];
  }

  /** One action of the parser. */
  method DoAction(s: string, m: ULongRange, grants: Grants, yyss0: seq<int>, yyvs0: seq<SemVal>, yychar0: int,
                  yylval0: SemVal, cp0: nat, made0: nat, res0: Option<Expression>, ghost h: History, ghost c: Config,
                  ghost all: seq<Token>, ghost pm: Machine)
    returns (stop: bool, yyss: seq<int>, yyvs: seq<SemVal>, yychar: int, yylval: SemVal, cp: nat, made: nat,
             res: Option<Expression>, ghost d: Config)
    requires Works(pm) && pm.grants == grants
    requires |yyss0| == |yyvs0| + 1 && yyss0[0] == 0 && InRange(yyss0)
    requires c == Config(Stacked(yyss0, yyvs0), c.input, made0, res0) && Explains(h, c, all, grants, m)
    requires Ahead(c.input, yychar0, yylval0, s, cp0, m)
    requires TopState(c.stack) != YYFINAL
    ensures |yyss| == |yyvs| + 1 && yyss[0] == 0 && InRange(yyss)
    ensures d == Config(Stacked(yyss, yyvs), d.input, made, res) && Ahead(d.input, yychar, yylval, s, cp, m)
    ensures pm.step(c) == if stop then Rejected else Running(d)
    ensures EndFrom(s, cp, m) == EndFrom(s, cp0, m)
  {
    NotFinal(h, c, all, grants, m);
    StackedTop(yyss0, yyvs0);
    StepsAs(pm.step, grants, pm.depth, c);
    stop, yyss, yyvs, made, res := false, yyss0, yyvs0, made0, res0;
    ghost var input := c.input;
    var act;
    act, yychar, yylval, cp := Decide(yyss[|yyss| - 1], s, m, yychar0, yylval0, cp0, input);
    match act {
      case Error =>
        var yyresult := Recover(yyss);
        stop := true;
      case Shift(next) =>
        yyss, yyvs := DoShift(next, yyss, yyvs, yylval, grants, made, res, yychar, input);
        yychar, input := YYEMPTY, input[1..];
      case Reduce(rule) =>
        stop, yyss, yyvs, made, res := DoReduce(rule, yyss, yyvs, made, res, grants, h, input, all, m);
    }
    d := Config(Stacked(yyss, yyvs), input, made, res);
  }

  lemma FinalState(h: History, c: Config, all: seq<Token>, pm: Machine, m: ULongRange)
    requires Works(pm) && Explains(h, c, all, pm.grants, m) && TopState(c.stack) == YYFINAL
    ensures h.Ended? && c.input == [] && pm.step(c) == Accepted(c.res)
  {
    TopOf(h);
    StepsAs(pm.step, pm.grants, pm.depth, c);
    if h.Found? {
      BelowFound(h, m);
    } else if h.Shifted? {
      InFront(h, m);
    }
  }

  lemma NotFinal(h: History, c: Config, all: seq<Token>, grants: Grants, m: ULongRange)
    requires Explains(h, c, all, grants, m) && TopState(c.stack) != YYFINAL
    ensures c.input != []
  {
    TopOf(h);
  }

  /** One round of the loop. */
  method Round(s: string, m: ULongRange, grants: Grants, yyss0: seq<int>, yyvs0: seq<SemVal>, yychar0: int,
               yylval0: SemVal, cp0: nat, made0: nat, res0: Option<Expression>, ghost h: History, ghost c: Config,
               ghost all: seq<Token>, ghost n: nat, ghost pm: Machine)
    returns (stop: bool, yyss: seq<int>, yyvs: seq<SemVal>, yychar: int, yylval: SemVal, cp: nat, made: nat,
             res: Option<Expression>, ghost h': History, ghost c': Config)
    requires Works(pm) && pm.grants == grants
               && Between(h, yyss0, yyvs0, yychar0, yylval0, s, cp0, made0, res0, c, all, n, pm, m)
    requires yyss0[|yyss0| - 1] != YYFINAL
    ensures stop ==> pm.step(c) == Rejected
    ensures !stop ==> Between(h', yyss, yyvs, yychar, yylval, s, cp, made, res, c', all, n + 1, pm, m)
    ensures !stop ==> Weight(h') + 3 * |c'.input| < Weight(h) + 3 * |c.input|
    ensures !stop ==> EndFrom(s, cp, m) == EndFrom(s, cp0, m)
  {
    StackedTop(yyss0, yyvs0);
    stop, yyss, yyvs, yychar, yylval, cp, made, res, c' :=
      DoAction(s, m, grants, yyss0, yyvs0, yychar0, yylval0, cp0, made0, res0, h, c, all, pm);
    h' := h;
    if !stop {
      h' := Forward(h, c, c', all, n, pm, m);
    }
  }

  /** The loop of the parser. */
  method ParseLoop(s: string, cp0: nat, m: ULongRange, grants: Grants, ghost pm: Machine)
    returns (yyresult: int, res: Option<Expression>, cp: nat, ghost h: History, ghost c: Config, ghost n: nat)
    requires cp0 <= |s| && Works(pm) && pm.grants == grants
    ensures RunEnded(yyresult, res, h, c, n, TokensFrom(s, cp0, m), pm, m)
    ensures yyresult == 0 ==> cp == EndFrom(s, cp0, m)
  {
    var yyss, yyvs, yychar, yylval, made, stop := [0], [], YYEMPTY, Unset, 0 as nat, false;
    cp, res := cp0, None;
    ghost var all := TokensFrom(s, cp, m);
    h, n, c := Begin, 0, Start(all);
    Beginning(s, cp, pm, m);
    while yyss[|yyss| - 1] != YYFINAL
      invariant Between(h, yyss, yyvs, yychar, yylval, s, cp, made, res, c, all, n, pm, m)
      invariant EndFrom(s, cp, m) == EndFrom(s, cp0, m)
      decreases Weight(h) + 3 * |c.input|
    {
      ghost var h', c';
      stop, yyss, yyvs, yychar, yylval, cp, made, res, h', c' :=
        Round(s, m, grants, yyss, yyvs, yychar, yylval, cp, made, res, h, c, all, n, pm);
      if stop {
        yyresult := 1;
        return;
      }
      h, c, n := h', c', n + 1;
    }
    StackedTop(yyss, yyvs);
    FinalState(h, c, all, pm, m);
    EndLex(s, cp, cp, m);
    yyresult := 0;
  }

  /** Soundness and completeness of the verdict of a run. */
  lemma Conclusion(h: History, c: Config, n: nat, all: seq<Token>, pm: Machine, m: ULongRange)
    requires Works(pm) && Explains(h, c, all, pm.grants, m) && Leads(pm.step, Start(all), c, n) && !pm.step(c).Running?
    ensures pm.step(c).Accepted? <==> IsSentence(all, pm.grants, m)
    ensures forall p :: Sentence(p, all, pm.grants, m) ==> pm.step(c) == Accepted(Some(Tree(p)))
  {
    forall p | Sentence(p, all, pm.grants, m)
      ensures pm.step(c) == Accepted(Some(Tree(p)))
    {
      Verdict(p, all, c, n, pm, m);
    }
    if pm.step(c).Accepted? {
      StepsAs(pm.step, pm.grants, pm.depth, c);
      var h' := StepSound(h, c, all, pm.grants, m);
      assert Sentence(h.phrase, all, pm.grants, m);
    }
  }

  /** The phrase is written at position i of s, it ends at j, and there is memory for its tree. */
  ghost predicate Parses(s: string, i: nat, j: nat, p: Phrase, grants: Grants, m: ULongRange) {
    Expresses(s, i, j, p, m) && AllGranted(grants, Size(p))
  }

  lemma SentenceText(s: string, i: nat, grants: Grants, m: ULongRange)
    requires i <= |s|
    ensures IsSentence(TokensFrom(s, i, m), grants, m) <==> exists p, j: nat :: Parses(s, i, j, p, grants, m)
    ensures forall p, j: nat :: Parses(s, i, j, p, grants, m) ==>
                                  Sentence(p, TokensFrom(s, i, m), grants, m) && j == EndFrom(s, i, m)
  {
    forall p, j: nat | Parses(s, i, j, p, grants, m)
      ensures Sentence(p, TokensFrom(s, i, m), grants, m) && j == EndFrom(s, i, m)
    {
      ScansAs(s, i, j, p, m);
    }
    if p :| Sentence(p, TokensFrom(s, i, m), grants, m) {
      ScansAs(s, i, EndFrom(s, i, m), p, m);
      assert Parses(s, i, EndFrom(s, i, m), p, grants, m);
    }
  }

  /** Parses the expression at position cp0. The result is 0 exactly if a proper expression is written there, with
      blanks anywhere between its tokens, up to something that ends it, and if there is memory for its nodes. Then res
      is its tree, and cp is where it ends. */
  method Yyparse(s: string, cp0: nat, m: ULongRange, grants: Grants)
    returns (yyresult: int, res: Option<Expression>, cp: nat)
    requires cp0 <= |s|
    ensures yyresult == 0 || yyresult == 1
    ensures yyresult == 0 <==> exists p, j: nat :: Parses(s, cp0, j, p, grants, m)
    ensures forall p, j: nat :: Parses(s, cp0, j, p, grants, m) ==> res == Some(Tree(p)) && cp == j
  {
    ghost var pm := Parser(grants);
    ghost var all := TokensFrom(s, cp0, m);
    ghost var h, c, n;
    yyresult, res, cp, h, c, n := ParseLoop(s, cp0, m, grants, pm);
    Conclusion(h, c, n, all, pm, m);
    SentenceText(s, cp0, grants, m);
  }
}
