/** The syntax of locale names: language[_territory][.codeset][@modifier]. */
module LocaleExplode {
  import opened Wrappers
  import opened LocaleMasks

  datatype Locale = Locale(language: string, territory: Option<string>, codeset: Option<string>,
                           modifier: Option<string>)

  function Tail(lead: char, part: Option<string>): string {
    if part.None? then "" else [lead] + part.value
  }

  /** The parts behind one another. */
  function Spell(l: Locale): string {
    l.language + (Tail('_', l.territory) + (Tail('.', l.codeset) + Tail('@', l.modifier)))
  }

  predicate Without(s: string, stops: string) {
    forall i :: 0 <= i < |s| ==> s[i] !in stops
  }

  /** No part contains a character that ends it. */
  predicate Proper(l: Locale) {
    && l.language != "" && Without(l.language, "_.@")
    && (l.territory.Some? ==> Without(l.territory.value, ".@"))
    && (l.codeset.Some? ==> Without(l.codeset.value, "@"))
  }

  // ------------------------------------------------------------------------
  // There is one way to read a name
  // ------------------------------------------------------------------------

  predicate Begins(s: string, stops: string) {
    s == "" || s[0] in stops
  }

  lemma NotLonger(a: string, b: string, a': string, b': string, stops: string)
    requires a + b == a' + b' && Without(a', stops) && Begins(b, stops)
    ensures |a'| <= |a|
  {
    if b != "" {
      assert (a + b)[|a|] == b[0];
      assert forall k :: 0 <= k < |a'| ==> (a' + b')[k] == a'[k];
    } else {
      assert |a + b| == |a|;
    }
  }

  lemma OneCut(a: string, b: string, a': string, b': string, stops: string)
    requires a + b == a' + b' && Without(a, stops) && Without(a', stops) && Begins(b, stops) && Begins(b', stops)
    ensures a == a' && b == b'
  {
    NotLonger(a, b, a', b', stops);
    NotLonger(a', b', a, b, stops);
    assert (a + b)[..|a|] == a && (a' + b')[..|a|] == a' && (a + b)[|a|..] == b && (a' + b')[|a|..] == b';
  }

  lemma TailFirst(lead: char, part: Option<string>, b: string, stops: string)
    requires lead !in stops && Begins(b, stops)
    ensures var t := Tail(lead, part) + b;
            && (part.Some? <==> t != "" && t[0] == lead)
            && if part.Some? then t[1..] == part.value + b else t == b
  {
    assert "" + b == b;
    if part.Some? {
      assert ([lead] + part.value + b)[1..] == part.value + b;
    }
  }

  /** A part behind its lead character. */
  lemma OneTail(lead: char, part: Option<string>, b: string, part': Option<string>, b': string, stops: string)
    requires Tail(lead, part) + b == Tail(lead, part') + b' && lead !in stops
    requires Begins(b, stops) && Begins(b', stops)
    requires (part.Some? ==> Without(part.value, stops)) && (part'.Some? ==> Without(part'.value, stops))
    ensures part == part' && b == b'
  {
    TailFirst(lead, part, b, stops);
    TailFirst(lead, part', b', stops);
    if part.Some? {
      OneCut(part.value, b, part'.value, b', stops);
    }
  }

  lemma SpellOnce(l: Locale, l': Locale)
    requires Proper(l) && Proper(l') && Spell(l) == Spell(l')
    ensures l == l'
  {
    var m, m' := Tail('@', l.modifier), Tail('@', l'.modifier);
    var c, c' := Tail('.', l.codeset) + m, Tail('.', l'.codeset) + m';
    OneCut(l.language, Tail('_', l.territory) + c, l'.language, Tail('_', l'.territory) + c', "_.@");
    OneTail('_', l.territory, c, l'.territory, c', ".@");
    OneTail('.', l.codeset, m, l'.codeset, m', "@");
    assert m + "" == m && m' + "" == m';
    OneTail('@', l.modifier, "", l'.modifier, "", "");
  }

  // ------------------------------------------------------------------------
  // Reading a name
  // ------------------------------------------------------------------------

  /** The first position from i on with one of the characters, or the end. */
  method Find(name: string, i: nat, stops: string) returns (cp: nat)
    requires i <= |name|
    ensures i <= cp <= |name| && Without(name[i..cp], stops) && Begins(name[cp..], stops)
  {
    cp := i;
    while cp < |name| && name[cp] !in stops
      invariant i <= cp <= |name| && forall k :: i <= k < cp ==> name[k] !in stops
    {
      cp := cp + 1;
    }
  }

  predicate IsAlpha(c: char) {
    'a' <= c <= 'z' || 'A' <= c <= 'Z'
  }

  predicate IsDigit(c: char) {
    '0' <= c <= '9'
  }

  function ToLower(c: char): char {
    if 'A' <= c <= 'Z' then (c as int - 'A' as int + 'a' as int) as char else c
  }

  /** The letters, in lower case, and the digits. */
  function Alnum(codeset: string): string {
    if codeset == "" then ""
    else
      var c, rest := codeset[|codeset| - 1], Alnum(codeset[..|codeset| - 1]);
      if IsAlpha(c) || IsDigit(c) then rest + [ToLower(c)] else rest
  }

  predicate HasLetter(s: string) {
    exists i :: 0 <= i < |s| && IsAlpha(s[i])
  }

  /** A codeset of digits only is that of an ISO standard. */
  function Normalized(codeset: string): string {
    if HasLetter(codeset) then Alnum(codeset) else "iso" + Alnum(codeset)
  }

  predicate Plain(s: string) {
    forall i :: 0 <= i < |s| ==> 'a' <= s[i] <= 'z' || IsDigit(s[i])
  }

  lemma {:induction false} AlnumPlain(s: string)
    ensures Plain(Alnum(s))
  {
    if s != "" {
      AlnumPlain(s[..|s| - 1]);
    }
  }

  lemma {:induction false} AlnumLetter(s: string)
    requires HasLetter(s)
    ensures HasLetter(Alnum(s))
  {
    var front, c := s[..|s| - 1], s[|s| - 1];
    if IsAlpha(c) {
      assert Alnum(s)[|Alnum(s)| - 1] == ToLower(c);
    } else {
      var i :| 0 <= i < |s| && IsAlpha(s[i]);
      assert front[i] == s[i];
      AlnumLetter(front);
      var k :| 0 <= k < |Alnum(front)| && IsAlpha(Alnum(front)[k]);
      assert Alnum(s)[k] == Alnum(front)[k];
    }
  }

  lemma {:induction false} PlainAlnum(s: string)
    requires Plain(s)
    ensures Alnum(s) == s
  {
    if s != "" {
      PlainAlnum(s[..|s| - 1]);
      assert s == s[..|s| - 1] + [s[|s| - 1]];
    }
  }

  /** A normalized codeset consists of small letters and digits, and normalizing it again changes nothing. */
  lemma NormalizedTwice(codeset: string)
    ensures Plain(Normalized(codeset)) && Normalized(Normalized(codeset)) == Normalized(codeset)
  {
    AlnumPlain(codeset);
    if HasLetter(codeset) {
      AlnumLetter(codeset);
    } else {
      assert Normalized(codeset)[0] == 'i';
    }
    PlainAlnum(Normalized(codeset));
  }

  /** The two passes of _nl_normalize_codeset. */
  method NormalizeCodeset(codeset: string) returns (normalized: string)
    ensures normalized == Normalized(codeset)
  {
    var only_digit := true;
    for cnt := 0 to |codeset|
      invariant only_digit <==> forall i :: 0 <= i < cnt ==> !IsAlpha(codeset[i])
    {
      if IsAlpha(codeset[cnt]) {
        only_digit := false;
      }
    }
    var head := if only_digit then "iso" else "";
    normalized := head;
    for cnt := 0 to |codeset|
      invariant normalized == head + Alnum(codeset[..cnt])
    {
      assert codeset[..cnt + 1][..cnt] == codeset[..cnt];
      if IsAlpha(codeset[cnt]) {
        normalized := normalized + [ToLower(codeset[cnt])];
      } else if IsDigit(codeset[cnt]) {
        normalized := normalized + [codeset[cnt]];
      }
    }
    assert codeset[..|codeset|] == codeset;
  }

  function Bit(b: nat, present: bool): nat {
    if present then b else 0
  }

  predicate Nonempty(part: Option<string>) {
    part.Some? && part.value != ""
  }

  /** The mask of the parts that are not empty, and of the normalized codeset if it differs. */
  function MaskOf(l: Locale, normalized: Option<string>): nat {
    Bit(XPG_TERRITORY, Nonempty(l.territory)) + Bit(XPG_CODESET, Nonempty(l.codeset))
    + Bit(XPG_NORM_CODESET, normalized.Some?) + Bit(XPG_MODIFIER, Nonempty(l.modifier))
  }

  /** The part behind a lead character at cp, if it is there, up to one of the stops. */
  method TakePart(name: string, cp: nat, lead: char, stops: string) returns (part: Option<string>, cp': nat)
    requires cp <= |name| && lead !in stops
    ensures cp <= cp' <= |name| && Tail(lead, part) == name[cp..cp']
    ensures part.Some? <==> cp < |name| && name[cp] == lead
    ensures part.Some? ==> Without(part.value, stops) && Begins(name[cp'..], stops)
    ensures part.None? ==> cp' == cp
  {
    part, cp' := None, cp;
    if cp < |name| && name[cp] == lead {
      cp' := Find(name, cp + 1, stops);
      part := Some(name[cp + 1..cp']);
    }
  }

  lemma Joined(name: string, a: nat, b: nat, c: nat)
    requires a <= b <= c <= |name|
    ensures name[..a] + (name[a..b] + (name[b..c] + name[c..])) == name
  {
  }

  /** The name is read to its end. */
  lemma ReadToEnd(name: string, c: nat, modifier: Option<string>, end: nat)
    requires c <= end <= |name| && Begins(name[c..], "@") && Tail('@', modifier) == name[c..end]
    requires modifier.Some? <==> c < |name| && name[c] == '@'
    requires Begins(name[end..], "") && (modifier.None? ==> end == c)
    ensures Tail('@', modifier) == name[c..]
  {
  }

  /** Splits a locale name. The parts are those that the name spells; a name that begins with one of the separators
      is taken as a language as it is. The result is the mask, or -1 exactly if there is no memory for normalizing a
      codeset. */
  method ExplodeName(name: string, granted: bool) returns (result: int, l: Locale, normalized: Option<string>)
    ensures Begins(name, "_.@") ==> l == Locale(name, None, None, None) && result == 0
    ensures !Begins(name, "_.@") && result != -1 ==> Proper(l) && Spell(l) == name
    ensures result == -1 <==> Nonempty(l.codeset) && !granted
    ensures result != -1 ==> result == MaskOf(l, normalized)
    ensures result != -1 ==>
              normalized == if Nonempty(l.codeset) && Normalized(l.codeset.value) != l.codeset.value
                            then Some(Normalized(l.codeset.value)) else None
  {
    normalized := None;
    var a := Find(name, 0, "_.@");
    if a == 0 {
      return 0, Locale(name, None, None, None), None;
    }
    var b, c, end, territory, codeset, modifier;
    territory, b := TakePart(name, a, '_', ".@");
    codeset, c := TakePart(name, b, '.', "@");
    l := Locale(name[..a], territory, codeset, None);
    if Nonempty(codeset) {
      if !granted {
        return -1, l, None;
      }
      var n := NormalizeCodeset(codeset.value);
      if n != codeset.value {
        normalized := Some(n);
      }
    }
    modifier, end := TakePart(name, c, '@', "");
    l := l.(modifier := modifier);
    result := MaskOf(l, normalized);
    ReadToEnd(name, c, modifier, end);
    Joined(name, a, b, c);
  }
}
