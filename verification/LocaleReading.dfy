/** What the name of a localised file says: the directories, the parts of the locale that a mask chooses, and the file
    name. */
module LocaleReading {
  import opened Wrappers
  import opened LocaleMasks
  import opened LocaleNames
  import opened LocaleExplode

  function Chosen(mask: nat, b: nat, text: string): Option<string>
    requires b > 0
  {
    if Has(mask, b) then Some(text) else None
  }

  /** The codeset in a name; both forms behind one another read as one. */
  function CodesetOf(mask: nat, p: Parts): Option<string> {
    if Has(mask, XPG_CODESET) && Has(mask, XPG_NORM_CODESET) then Some(p.codeset + ("." + p.normalized))
    else if Has(mask, XPG_CODESET) then Some(p.codeset)
    else Chosen(mask, XPG_NORM_CODESET, p.normalized)
  }

  /** The parts in the mask. */
  function LocaleOf(mask: nat, p: Parts): Locale {
    Locale(p.language, Chosen(mask, XPG_TERRITORY, p.territory), CodesetOf(mask, p),
           Chosen(mask, XPG_MODIFIER, p.modifier))
  }

  /** Where directory i begins. */
  function DirPlace(dirs: seq<string>, i: nat): nat
    requires i <= |dirs|
  {
    if i == 0 then 0 else DirPlace(dirs, i - 1) + |dirs[i - 1]| + 1
  }

  /** Directory i is at its place in front of a colon, the last one in front of a slash. */
  ghost predicate DirAt(name: string, dirs: seq<string>, i: nat)
    requires i < |dirs|
  {
    var a := DirPlace(dirs, i);
    var b := a + |dirs[i]|;
    b < |name| && name[a..b] == dirs[i] && name[b] == if i == |dirs| - 1 then '/' else ':'
  }

  /** The name consists of the directories, of the parts in the mask behind the characters that announce them, and of
      the file name behind a slash. */
  ghost predicate Means(name: string, dirs: seq<string>, mask: nat, p: Parts) {
    var a := DirPlace(dirs, |dirs|);
    && a + |p.filename| < |name|
    && (forall i :: 0 <= i < |dirs| ==> DirAt(name, dirs, i))
    && Component(name, dirs, p) == Spell(LocaleOf(mask, p))
    && name[|name| - |p.filename| - 1..] == "/" + p.filename
  }

  /** What stands between the directories and the file name. */
  function Component(name: string, dirs: seq<string>, p: Parts): string
    requires DirPlace(dirs, |dirs|) + |p.filename| < |name|
  {
    name[DirPlace(dirs, |dirs|)..|name| - |p.filename| - 1]
  }

  lemma {:induction false} MoreDirs(dirs: seq<string>, i: nat)
    requires 0 < i <= |dirs|
    ensures DirPlace(dirs, i) == |dirs[0]| + 1 + DirPlace(dirs[1..], i - 1)
    decreases i
  {
    if i > 1 {
      MoreDirs(dirs, i - 1);
    }
  }

  lemma FirstDir(d: string, lead: string, rest: string)
    ensures (d + lead + rest)[..|d|] == d && (d + lead + rest)[|d|..|d| + |lead|] == lead
    ensures (d + lead + rest)[|d| + |lead|..] == rest
  {
  }

  /** The directories in front of a name. */
  lemma {:induction false} DirsAt(dirs: seq<string>)
    ensures |DirPart(dirs)| == DirPlace(dirs, |dirs|)
    ensures forall i :: 0 <= i < |dirs| ==> DirAt(DirPart(dirs), dirs, i)
    decreases |dirs|
  {
    if |dirs| == 1 {
      FirstDir(dirs[0], "/", "");
      assert dirs[0] + "/" + "" == dirs[0] + "/";
      MoreDirs(dirs, 1);
    } else if |dirs| > 1 {
      DirsAt(dirs[1..]);
      MoreDirs(dirs, |dirs|);
      var tail := dirs[1..];
      FirstAt(dirs, DirPart(tail));
      forall i | 0 <= i < |dirs| ensures DirAt(DirPart(dirs), dirs, i) {
        if i > 0 {
          LaterAt(dirs[0] + ":", DirPart(tail), dirs, tail, i);
        }
      }
    }
  }

  lemma Shifted(x: string, rest: string, a: nat, b: nat)
    requires a <= b < |rest|
    ensures (x + rest)[|x| + a..|x| + b] == rest[a..b] && (x + rest)[|x| + b] == rest[b]
  {
  }

  lemma FirstAt(dirs: seq<string>, rest: string)
    requires |dirs| > 1
    ensures DirAt(dirs[0] + ":" + rest, dirs, 0)
  {
    FirstDir(dirs[0], ":", rest);
  }

  lemma LaterAt(x: string, rest: string, dirs: seq<string>, tail: seq<string>, i: nat)
    requires |dirs| > 1 && tail == dirs[1..] && |x| == |dirs[0]| + 1 && 0 < i < |dirs| && DirAt(rest, tail, i - 1)
    ensures DirAt(x + rest, dirs, i)
  {
    MoreDirs(dirs, i);
    assert tail[i - 1] == dirs[i];
    Shifted(x, rest, DirPlace(tail, i - 1), DirPlace(tail, i - 1) + |dirs[i]|);
  }

  lemma DirLonger(d: string, rest: string, dirs: seq<string>, i: nat)
    requires i < |dirs| && DirAt(d, dirs, i)
    ensures DirAt(d + rest, dirs, i)
  {
    var a := DirPlace(dirs, i);
    var b := a + |dirs[i]|;
    assert (d + rest)[a..b] == d[a..b];
  }

  /** The parts behind the language, as they are spelled. */
  lemma PartsSpelled(mask: nat, p: Parts)
    ensures p.language + NameParts(mask, p) == Spell(LocaleOf(mask, p))
  {
    var a, b := Part(mask, XPG_TERRITORY, '_', p.territory), Part(mask, XPG_CODESET, '.', p.codeset);
    var c, d := Part(mask, XPG_NORM_CODESET, '.', p.normalized), Part(mask, XPG_MODIFIER, '@', p.modifier);
    var l := LocaleOf(mask, p);
    assert Tail('_', l.territory) == a && Tail('@', l.modifier) == d;
    assert Tail('.', l.codeset) == b + c;
    Regroup(p.language, a, b, c, d);
  }

  lemma Regroup(l: string, a: string, b: string, c: string, d: string)
    ensures l + (a + b + c + d) == l + (a + ((b + c) + d))
  {
  }

  /** The name of a file means what it was made of. */
  lemma NameMeans(dirs: seq<string>, mask: nat, p: Parts)
    ensures Means(FileName(dirs, mask, p), dirs, mask, p)
  {
    var d, c, f := DirPart(dirs), Spell(LocaleOf(mask, p)), "/" + p.filename;
    DirsAt(dirs);
    PartsSpelled(mask, p);
    NamePieces(d, p.language, NameParts(mask, p), p.filename);
    forall i | 0 <= i < |dirs| ensures DirAt(FileName(dirs, mask, p), dirs, i) {
      DirLonger(d, c + f, dirs, i);
    }
    assert (d + (c + f))[|d|..|d| + |c|] == c && (d + (c + f))[|d| + |c|..] == f;
  }

  lemma NamePieces(d: string, l: string, parts: string, f: string)
    ensures d + l + parts + "/" + f == d + ((l + parts) + ("/" + f))
  {
  }

  /** Where the parts do not contain the characters that end them, they can be read back from the name, in one way
      only. */
  lemma ReadsBack(name: string, dirs: seq<string>, mask: nat, p: Parts, l: Locale)
    requires Means(name, dirs, mask, p) && Proper(LocaleOf(mask, p))
    requires Proper(l) && Spell(l) == Component(name, dirs, p)
    ensures l == LocaleOf(mask, p)
  {
    SpellOnce(l, LocaleOf(mask, p));
  }

  /** Different masks give different names. */
  lemma MasksDiffer(dirs: seq<string>, c: nat, mask: nat, p: Parts)
    requires c < 16 && mask < 16 && p.codeset != p.normalized
    requires Proper(LocaleOf(c, p)) && Proper(LocaleOf(mask, p))
    requires FileName(dirs, c, p) == FileName(dirs, mask, p)
    ensures c == mask
  {
    NameMeans(dirs, c, p);
    NameMeans(dirs, mask, p);
    SpellOnce(LocaleOf(c, p), LocaleOf(mask, p));
    CodesetsDiffer(c, mask, p);
    FourBits(c);
    FourBits(mask);
  }

  lemma CodesetsDiffer(c: nat, mask: nat, p: Parts)
    requires p.codeset != p.normalized && CodesetOf(c, p) == CodesetOf(mask, p)
    ensures Has(c, XPG_CODESET) == Has(mask, XPG_CODESET) && Has(c, XPG_NORM_CODESET) == Has(mask, XPG_NORM_CODESET)
  {
    assert |p.codeset + ("." + p.normalized)| > |p.codeset| && |p.codeset + ("." + p.normalized)| > |p.normalized|;
  }

  /** A name that has been split, without empty parts, is put together again from its parts. */
  lemma NamedAgain(l: Locale, p: Parts)
    requires Proper(l)
    requires l.territory != Some("") && l.codeset != Some("") && l.modifier != Some("")
    requires p.language == l.language
    requires l.territory.Some? ==> p.territory == l.territory.value
    requires l.codeset.Some? ==> p.codeset == l.codeset.value
    requires l.modifier.Some? ==> p.modifier == l.modifier.value
    ensures p.language + NameParts(MaskOf(l, None), p) == Spell(l)
  {
    PartsSpelled(MaskOf(l, None), p);
  }
}
