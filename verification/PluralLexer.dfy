/** The scanner of plural expressions. */
module PluralLexer {
  import opened PluralExp
  import opened PluralTables
  import opened PluralEngine
  import opened PluralGrammar
  import opened PluralSound

  /** The character at position i of a C string; positions from the end on read as NUL. */
  function At(s: string, i: nat): char {
    if i < |s| then s[i] else '\0'
  }

  predicate IsBlank(c: char) {
    c == ' ' || c == '\t'
  }

  predicate IsDigit(c: char) {
    '0' <= c <= '9'
  }

  function DigitValue(c: char): nat
    requires IsDigit(c)
  {
    c as int - '0' as int
  }

  /** The first position from i on that does not hold a blank. */
  function SkipBlanks(s: string, i: nat): (j: nat)
    requires i <= |s|
    ensures i <= j <= |s| && !IsBlank(At(s, j))
    decreases |s| - i
  {
    if i < |s| && IsBlank(s[i]) then SkipBlanks(s, i + 1) else i
  }

  /** The first position from i on that does not hold a digit. */
  function SkipDigits(s: string, i: nat): (j: nat)
    requires i <= |s|
    ensures i <= j <= |s| && !IsDigit(At(s, j))
    decreases |s| - i
  {
    if i < |s| && IsDigit(s[i]) then SkipDigits(s, i + 1) else i
  }

  /** The value of a string of decimal digits. */
  function DecimalValue(d: string): nat
    requires forall i :: 0 <= i < |d| ==> IsDigit(d[i])
  {
    if d == [] then 0 else 10 * DecimalValue(d[..|d| - 1]) + DigitValue(d[|d| - 1])
  }

  /** A token and the position behind it. */
  datatype Lexeme = Lexeme(token: Token, end: nat)

  function Plain(c: char, end: nat): Lexeme {
    Lexeme(Token(c as int, Unset), end)
  }

  function Oper(yychar: int, op: Operator, end: nat): Lexeme {
    Lexeme(Token(yychar, OpVal(op)), end)
  }

  /** The token that begins at the non-blank position i. */
  function LexemeAt(s: string, i: nat, m: ULongRange): Lexeme
    requires i <= |s|
  {
    var c, next := At(s, i), At(s, i + 1);
    if c in "\0;\n" then
      Lexeme(END_TOKEN, i)
    else if IsDigit(c) then
      var j := SkipDigits(s, i);
      DigitsUpTo(s, i);
      Lexeme(Token(NUMBER, NumVal(DecimalValue(s[i..j]) % m)), j)
    else
      match c
      case '=' => if next == '=' then Oper(EQUOP2, Equal, i + 2) else Lexeme(Token(YYERRCODE, Unset), i + 1)
      case '!' => if next == '=' then Oper(EQUOP2, NotEqual, i + 2) else Plain(c, i + 1)
      case '&' => if next == c then Plain(c, i + 2) else Lexeme(Token(YYERRCODE, Unset), i + 1)
      case '|' => if next == c then Plain(c, i + 2) else Lexeme(Token(YYERRCODE, Unset), i + 1)
      case '<' => if next == '=' then Oper(CMPOP2, LessOrEqual, i + 2) else Oper(CMPOP2, LessThan, i + 1)
      case '>' => if next == '=' then Oper(CMPOP2, GreaterOrEqual, i + 2) else Oper(CMPOP2, GreaterThan, i + 1)
      case '*' => Oper(MULOP2, Mult, i + 1)
      case '/' => Oper(MULOP2, Divide, i + 1)
      case '%' => Oper(MULOP2, Module, i + 1)
      case '+' => Oper(ADDOP2, Plus, i + 1)
      case '-' => Oper(ADDOP2, Minus, i + 1)
      case _ => if c in "n?:()" then Plain(c, i + 1) else Lexeme(Token(YYERRCODE, Unset), i + 1)
  }

  lemma {:induction false} DigitsUpTo(s: string, i: nat)
    requires i <= |s|
    ensures forall k :: i <= k < SkipDigits(s, i) ==> IsDigit(s[k])
    decreases |s| - i
  {
    if i < |s| && IsDigit(s[i]) {
      DigitsUpTo(s, i + 1);
    }
  }

  /** The next token from position i on. */
  function Lex(s: string, i: nat, m: ULongRange): (l: Lexeme)
    requires i <= |s|
    ensures i <= l.end <= |s| && (l.token.yychar != YYEOF ==> i < l.end)
    ensures GoodToken(l.token, m)
  {
    LexemeAt(s, SkipBlanks(s, i), m)
  }

  /** All tokens from position i on, with the end token. */
  function TokensFrom(s: string, i: nat, m: ULongRange): seq<Token>
    requires i <= |s|
    decreases |s| - i
  {
    var l := Lex(s, i, m);
    [l.token] + if l.token.yychar == YYEOF then [] else TokensFrom(s, l.end, m)
  }

  lemma {:induction false} TokensGood(s: string, i: nat, m: ULongRange)
    requires i <= |s|
    ensures GoodInput(TokensFrom(s, i, m), m) && TokensFrom(s, i, m) != []
    decreases |s| - i
  {
    var l := Lex(s, i, m);
    if l.token.yychar != YYEOF {
      TokensGood(s, l.end, m);
      var rest := TokensFrom(s, l.end, m);
      assert forall k :: 1 <= k < |rest| + 1 ==> ([l.token] + rest)[k] == rest[k - 1];
    }
  }

  /** Reads a number digit by digit, in an unsigned long that may wrap around. */
  method ReadNumber(s: string, start: nat, m: ULongRange) returns (n: nat, exp: nat)
    requires start < |s| && IsDigit(s[start])
    ensures exp == SkipDigits(s, start)
    ensures forall k :: start <= k < exp ==> IsDigit(s[k])
    ensures n == DecimalValue(s[start..exp]) % m
  {
    n, exp := DigitValue(s[start]), start + 1;
    assert s[start..exp] == [s[start]] && DecimalValue([s[start]]) == n by { assert [s[start]][..0] == []; }
    while IsDigit(At(s, exp))
      invariant start < exp <= |s| && forall k :: start <= k < exp ==> IsDigit(s[k])
      invariant SkipDigits(s, exp) == SkipDigits(s, start)
      invariant n == DecimalValue(s[start..exp]) % m
      decreases |s| - exp
    {
      var digit := DigitValue(s[exp]);
      AppendDigit(s, start, exp);
      Wrapped(DecimalValue(s[start..exp]), n, digit, m);
      n := n * 10 % m;
      n := (n + digit) % m;
      exp := exp + 1;
    }
  }

  lemma AppendDigit(s: string, i: nat, j: nat)
    requires i <= j < |s| && forall k :: i <= k <= j ==> IsDigit(s[k])
    ensures DecimalValue(s[i..j + 1]) == 10 * DecimalValue(s[i..j]) + DigitValue(s[j])
  {
    assert s[i..j + 1][..j - i] == s[i..j];
  }

  /** Reducing after every operation is reducing once. */
  lemma Wrapped(v: nat, n: nat, digit: nat, m: ULongRange)
    requires n == v % m
    ensures (n * 10 % m + digit) % m == (10 * v + digit) % m
  {
    var x := n * 10 % m;
    var q1, q2, q3 := v / m, n * 10 / m, (x + digit) / m;
    Regroup(q1, q2, q3, m);
    Remainder(10 * v + digit, 10 * q1 + q2 + q3, (x + digit) % m, m);
  }

  lemma Regroup(q1: int, q2: int, q3: int, m: int)
    ensures (10 * q1 + q2 + q3) * m == 10 * (q1 * m) + q2 * m + q3 * m
  {
  }

  /** Scans one token: its number, its value (lval) and the new position. */
  method Yylex(s: string, pexp: nat, m: ULongRange) returns (result: int, lval: SemVal, exp: nat)
    requires pexp <= |s|
    ensures Lex(s, pexp, m) == Lexeme(Token(result, lval), exp)
  {
    exp, lval := pexp, Unset;
    while true
      invariant pexp <= exp <= |s| && SkipBlanks(s, exp) == SkipBlanks(s, pexp)
      decreases |s| - exp
    {
      if At(s, exp) == '\0' {
        return YYEOF, lval, exp;
      }
      if At(s, exp) != ' ' && At(s, exp) != '\t' {
        break;
      }
      exp := exp + 1;
    }
    ghost var start := exp;
    var c := s[exp];
    result := c as int;
    exp := exp + 1;
    match c {
      case '=' =>
        if At(s, exp) == '=' {
          exp := exp + 1;
          lval, result := OpVal(Equal), EQUOP2;
        } else {
          result := YYERRCODE;
        }
      case '!' =>
        if At(s, exp) == '=' {
          exp := exp + 1;
          lval, result := OpVal(NotEqual), EQUOP2;
        }
      case '&' =>
        if At(s, exp) == c {
          exp := exp + 1;
        } else {
          result := YYERRCODE;
        }
      case '|' =>
        if At(s, exp) == c {
          exp := exp + 1;
        } else {
          result := YYERRCODE;
        }
      case '<' =>
        if At(s, exp) == '=' {
          exp := exp + 1;
          lval := OpVal(LessOrEqual);
        } else {
          lval := OpVal(LessThan);
        }
        result := CMPOP2;
      case '>' =>
        if At(s, exp) == '=' {
          exp := exp + 1;
          lval := OpVal(GreaterOrEqual);
        } else {
          lval := OpVal(GreaterThan);
        }
        result := CMPOP2;
      case '*' => lval, result := OpVal(Mult), MULOP2;
      case '/' => lval, result := OpVal(Divide), MULOP2;
      case '%' => lval, result := OpVal(Module), MULOP2;
      case '+' => lval, result := OpVal(Plus), ADDOP2;
      case '-' => lval, result := OpVal(Minus), ADDOP2;
      case _ =>
        if IsDigit(c) {
          var n;
          n, exp := ReadNumber(s, exp - 1, m);
          lval, result := NumVal(n), NUMBER;
        } else if c == 'n' || c == '?' || c == ':' || c == '(' || c == ')' {
        } else if c == ';' || c == '\n' {
          exp := exp - 1;
          result := YYEOF;
        } else {
          result := YYERRCODE;
        }
    }
  }
}
