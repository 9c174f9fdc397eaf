/** The semantic actions read only values that exist, and only the union members that were stored. */
module PluralMembers {
  import opened PluralExp
  import opened PluralTables
  import opened PluralEngine
  import opened PluralGrammar
  import opened PluralComplete
  import opened PluralSound

  ghost function Height(s: Stack): nat {
    if s.Bottom? then 0 else Height(s.below) + 1
  }

  /** The values that the action of a rule reads are there and hold the member that it reads. */
  ghost predicate RightMembers(s: Stack, rule: int) {
    && 2 <= rule <= 13 && Height(s) >= YyR2(rule)
    && match rule {
         case 3 => ValueAt(s, 4).ExpVal? && ValueAt(s, 2).ExpVal? && ValueAt(s, 0).ExpVal?
         case 11 => true
         case 12 => ValueAt(s, 0).NumVal?
         case 13 => ValueAt(s, 1).ExpVal?
         case _ =>
           if 4 <= rule <= 9 then ValueAt(s, 2).ExpVal? && ValueAt(s, 0).ExpVal? && (rule >= 6 ==> ValueAt(s, 1).OpVal?)
           else ValueAt(s, 0).ExpVal?
       }
  }

  lemma HeightThree(s: Stack, s1: int, v1: SemVal, s2: int, v2: SemVal, s3: int, v3: SemVal)
    ensures Height(Push(Push(Push(s, s1, v1), s2, v2), s3, v3)) == Height(s) + 3
  {
    assert Height(Push(Push(s, s1, v1), s2, v2)) == Height(Push(s, s1, v1)) + 1;
  }

  lemma MembersAfter(h: History, c: Config, all: seq<Token>, grants: Grants, m: ULongRange, rule: int)
    requires Explains(h, c, all, grants, m) && h.Found?
    requires ActionOf(TopState(c.stack), Symbol(Lookahead(c.input))) == Reduce(rule)
    ensures RightMembers(c.stack, rule)
  {
    BelowFound(h, m);
    TopOf(h);
    var q := StateOf(h.before);
    SymbolRange(Lookahead(c.input));
    ActionsAfter(q, Symbol(Lookahead(c.input)));
    assert ValueAt(c.stack, 0) == ExpVal(h.exp) && Height(c.stack) >= 1;
    if q == 1 {
      NotShape(h, m);
      assert Height(c.stack.below) >= 1;
    } else if q == 25 {
      CondShape(h, m);
      var s := StackOf(h.before.before.before.before.before);
      var yes, test := h.before.before, h.before.before.before.before;
      TopFive(s, StateOf(test), ExpVal(test.exp), 10, Unset, 18, ExpVal(yes.exp), 25, Unset, 26, ExpVal(h.exp));
      HeightThree(Push(Push(s, StateOf(test), ExpVal(test.exp)), 10, Unset), 18, ExpVal(yes.exp), 25, Unset, 26,
          ExpVal(h.exp));
    } else if 11 <= q <= 16 {
      MembersBinary(h, m);
    }
  }

  lemma MembersBinary(h: History, m: ULongRange)
    requires Consistent(h, m) && h.Found? && 11 <= StateOf(h.before) <= 16
    ensures RightMembers(StackOf(h), StateOf(h.before) - 7)
  {
    var op := BinaryShape(h, m);
    var left, level := h.before.before, h.before.state - 7;
    OpSymbol(level, op);
    TopThree(StackOf(left.before), StateOf(left), ExpVal(left.exp), level + 7, OpToken(level, op).val, StateOf(h),
        ExpVal(h.exp));
    HeightThree(StackOf(left.before), StateOf(left), ExpVal(left.exp), level + 7, OpToken(level, op).val, StateOf(h),
        ExpVal(h.exp));
    BelowFound(h, m);
  }

  lemma MembersLast(h: History, m: ULongRange)
    requires Consistent(h, m) && h.Shifted? && h.state in {2, 3, 17}
    ensures RightMembers(StackOf(h), if h.state == 2 then 12 else if h.state == 3 then 11 else 13)
  {
    if h.state == 17 {
      ParenShape(h, m);
      var f, s := h.before, StackOf(h.before.before.before);
      TopThree(s, 4, Unset, 8, ExpVal(f.exp), 17, Unset);
      HeightThree(s, 4, Unset, 8, ExpVal(f.exp), 17, Unset);
    } else {
      InFront(h, m);
      assert ValueAt(StackOf(h), 0) == h.token.val && Height(StackOf(h)) >= 1;
    }
  }

  lemma MembersBefore(h: History, c: Config, all: seq<Token>, grants: Grants, m: ULongRange, rule: int)
    requires Explains(h, c, all, grants, m) && !h.Found?
    requires ActionOf(TopState(c.stack), Symbol(Lookahead(c.input))) == Reduce(rule) && TopState(c.stack) != YYFINAL
    ensures RightMembers(c.stack, rule)
  {
    TopOf(h);
    SymbolRange(Lookahead(c.input));
    ActionsOther(Symbol(Lookahead(c.input)));
    if Expecting(StateOf(h)) {
      ActionsBefore(StateOf(h), Symbol(Lookahead(c.input)));
    } else if h.Shifted? {
      InFront(h, m);
      MembersLast(h, m);
    }
  }

  /** Whenever the tables call for a reduction, its action finds what it needs. */
  lemma MembersRight(h: History, c: Config, all: seq<Token>, grants: Grants, m: ULongRange, rule: int)
    requires Explains(h, c, all, grants, m) && TopState(c.stack) != YYFINAL
    requires ActionOf(TopState(c.stack), Symbol(Lookahead(c.input))) == Reduce(rule)
    ensures RightMembers(c.stack, rule)
  {
    if h.Found? {
      MembersAfter(h, c, all, grants, m, rule);
    } else {
      MembersBefore(h, c, all, grants, m, rule);
    }
  }
}
