/** Slug rules of the on-chain namespace registry. */
module NamespaceRules {
  import opened Prelude
  import opened Text

  const SLUG_MIN_LEN: nat := 3
  const SLUG_MAX_LEN: nat := 32

  /** The Unicode `White_Space` property. */
  predicate IsWhitespace(c: char) {
    var u := c as int;
    || 9 <= u <= 13 || u == 0x20 || u == 0x85 || u == 0xA0 || u == 0x1680 || 0x2000 <= u <= 0x200A
    || u == 0x2028 || u == 0x2029 || u == 0x202F || u == 0x205F || u == 0x3000
  }

  function TrimStart(s: string): string {
    if s != "" && IsWhitespace(s[0]) then TrimStart(s[1..]) else s
  }

  function TrimEnd(s: string): string {
    if s != "" && IsWhitespace(s[|s| - 1]) then TrimEnd(s[..|s| - 1]) else s
  }

  function Trim(s: string): string {
    TrimEnd(TrimStart(s))
  }

  predicate IsLowerLetter(c: char) {
    'a' <= c <= 'z'
  }

  predicate IsSlugChar(c: char) {
    IsLowerLetter(c) || IsDigit(c) || c == '-'
  }

  /** Canonical slug. Lengths are counted in bytes by the source; a slug with any longer character is invalid anyway. */
  predicate ValidSlug(s: string) {
    && SLUG_MIN_LEN <= |s| <= SLUG_MAX_LEN
    && s[0] != '-' && s[|s| - 1] != '-'
    && (forall i :: 0 <= i < |s| - 1 ==> !(s[i] == '-' && s[i + 1] == '-'))
    && forall i :: 0 <= i < |s| ==> IsSlugChar(s[i])
  }

  /** The stricter rule for content uploads: letters only. */
  predicate ValidUploadSlug(s: string) {
    SLUG_MIN_LEN <= |s| <= SLUG_MAX_LEN && forall i :: 0 <= i < |s| ==> IsLowerLetter(s[i])
  }

  function NormalizeSlug(input: string): Option<string> {
    var slug := LowerAll(Trim(input));
    if ValidSlug(slug) then Some(slug) else None
  }

  ghost predicate AllWhitespace(s: string) {
    forall i :: 0 <= i < |s| ==> IsWhitespace(s[i])
  }

  lemma {:induction false} TrimStartSkips(a: string, s: string)
    requires AllWhitespace(a) && s != "" && !IsWhitespace(s[0])
    ensures TrimStart(a + s) == s
    decreases |a|
  {
    if a == "" {
      assert a + s == s;
    } else {
      assert (a + s)[1..] == a[1..] + s;
      TrimStartSkips(a[1..], s);
    }
  }

  lemma {:induction false} TrimEndSkips(s: string, b: string)
    requires AllWhitespace(b) && s != "" && !IsWhitespace(s[|s| - 1])
    ensures TrimEnd(s + b) == s
    decreases |b|
  {
    if b == "" {
      assert s + b == s;
    } else {
      assert (s + b)[..|s + b| - 1] == s + b[..|b| - 1];
      TrimEndSkips(s, b[..|b| - 1]);
    }
  }

  /** Surrounding blanks and upper case are forgiven. */
  lemma NormalizeForgives(a: string, s: string, b: string)
    requires AllWhitespace(a) && AllWhitespace(b) && ValidSlug(LowerAll(s))
    ensures NormalizeSlug(a + s + b) == Some(LowerAll(s))
  {
    assert !IsWhitespace(s[0]) && !IsWhitespace(s[|s| - 1]) by {
      assert IsSlugChar(LowerAll(s)[0]) && IsSlugChar(LowerAll(s)[|s| - 1]);
    }
    assert a + s + b == a + (s + b);
    assert (s + b)[0] == s[0];
    TrimStartSkips(a, s + b);
    TrimEndSkips(s, b);
  }

  /** A canonical slug survives normalisation unchanged, so normalising twice is normalising once. */
  lemma CanonicalSlugIsFixed(s: string)
    requires ValidSlug(s)
    ensures NormalizeSlug(s) == Some(s)
  {
    LowerKeepsSlug(s);
    NormalizeForgives("", s, "");
    assert "" + s + "" == s;
  }

  lemma LowerKeepsSlug(s: string)
    requires forall i :: 0 <= i < |s| ==> IsSlugChar(s[i])
    ensures LowerAll(s) == s
  {
    forall i | 0 <= i < |s|
      ensures LowerAll(s)[i] == s[i]
    {
      assert IsSlugChar(s[i]);
    }
  }

  lemma UploadSlugIsSlug(s: string)
    requires ValidUploadSlug(s)
    ensures ValidSlug(s)
  {
    assert forall i :: 0 <= i < |s| ==> IsLowerLetter(s[i]) && s[i] != '-';
  }

  // ----- The grammar of slugs -----

  predicate IsAlnum(c: char) {
    'a' <= c <= 'z' || '0' <= c <= '9'
  }

  ghost predicate IsWord(s: string) {
    s != "" && forall i :: 0 <= i < |s| ==> IsAlnum(s[i])
  }

  /** A slug is 3 to 32 characters: words of lowercase letters and digits joined by single hyphens. */
  lemma SlugGrammar(s: string)
    ensures ValidSlug(s) <==> 3 <= |s| <= 32 && forall i :: 0 <= i < |Split(s, '-')| ==> IsWord(Split(s, '-')[i])
  {
    var parts := Split(s, '-');
    LaterPieces(s);
    PieceCharacters(s);
    FirstPiece(s);
    assert (forall i :: 0 <= i < |parts| ==> IsWord(parts[i])) <==>
           parts[0] != "" && LaterNonEmpty(parts) && AllAlnum(parts) by {
      WordsAre(parts);
    }
  }

  ghost predicate LaterNonEmpty(parts: seq<string>) {
    forall i :: 1 <= i < |parts| ==> parts[i] != ""
  }

  ghost predicate AllAlnum(parts: seq<string>) {
    forall i, j :: 0 <= i < |parts| && 0 <= j < |parts[i]| ==> IsAlnum(parts[i][j])
  }

  lemma WordsAre(parts: seq<string>)
    requires |parts| > 0
    ensures (forall i :: 0 <= i < |parts| ==> IsWord(parts[i])) <==> parts[0] != "" && LaterNonEmpty(parts) && AllAlnum(parts)
  {
    if parts[0] != "" && LaterNonEmpty(parts) && AllAlnum(parts) {
      forall i | 0 <= i < |parts|
        ensures IsWord(parts[i])
      {
      }
    }
    if forall i :: 0 <= i < |parts| ==> IsWord(parts[i]) {
      assert IsWord(parts[0]);
    }
  }

  lemma FirstPiece(s: string)
    ensures Split(s, '-')[0] != "" <==> s != "" && s[0] != '-'
  {
  }

  ghost predicate NoDoubleHyphen(s: string) {
    forall i :: 0 <= i < |s| - 1 ==> !(s[i] == '-' && s[i + 1] == '-')
  }

  lemma NoDoubleCons(s: string)
    requires s != ""
    ensures NoDoubleHyphen(s) <==> NoDoubleHyphen(s[1..]) && !(|s| > 1 && s[0] == '-' && s[1] == '-')
  {
    var rest := s[1..];
    if NoDoubleHyphen(rest) && !(|s| > 1 && s[0] == '-' && s[1] == '-') {
      forall i | 0 <= i < |s| - 1
        ensures !(s[i] == '-' && s[i + 1] == '-')
      {
        if i > 0 {
          assert s[i] == rest[i - 1] && s[i + 1] == rest[i];
        }
      }
    }
    if NoDoubleHyphen(s) {
      forall i | 0 <= i < |rest| - 1
        ensures !(rest[i] == '-' && rest[i + 1] == '-')
      {
        assert rest[i] == s[i + 1] && rest[i + 1] == s[i + 2];
      }
    }
  }

  /** No empty piece after the first: no hyphen at the end and no two in a row. */
  lemma {:induction false} LaterPieces(s: string)
    ensures LaterNonEmpty(Split(s, '-')) <==> (s == "" || s[|s| - 1] != '-') && NoDoubleHyphen(s)
  {
    if s != "" {
      var parts, rest := Split(s, '-'), Split(s[1..], '-');
      LaterPieces(s[1..]);
      FirstPiece(s[1..]);
      NoDoubleCons(s);
      if s[0] == '-' {
        assert parts == [""] + rest;
        assert LaterNonEmpty(parts) <==> rest[0] != "" && LaterNonEmpty(rest) by {
          assert forall i :: 1 <= i < |parts| ==> parts[i] == rest[i - 1];
          assert forall i :: 0 <= i < |rest| ==> rest[i] == parts[i + 1];
        }
      } else {
        assert forall i :: 1 <= i < |parts| ==> parts[i] == rest[i];
        assert forall i :: 1 <= i < |rest| ==> rest[i] == parts[i];
      }
    }
  }

  lemma {:induction false} PieceCharacters(s: string)
    ensures AllAlnum(Split(s, '-')) <==> forall i :: 0 <= i < |s| ==> IsSlugChar(s[i])
  {
    if s != "" {
      var parts, rest := Split(s, '-'), Split(s[1..], '-');
      PieceCharacters(s[1..]);
      assert (forall i :: 0 <= i < |s| ==> IsSlugChar(s[i])) <==> IsSlugChar(s[0]) && forall i :: 0 <= i < |s[1..]| ==> IsSlugChar(s[1..][i]) by {
        CharsCons(s);
      }
      if s[0] == '-' {
        AlnumCons("", rest);
      } else {
        AlnumGrow(s[0], rest);
      }
    }
  }

  lemma CharsCons(s: string)
    requires s != ""
    ensures (forall i :: 0 <= i < |s| ==> IsSlugChar(s[i])) <==> IsSlugChar(s[0]) && forall i :: 0 <= i < |s[1..]| ==> IsSlugChar(s[1..][i])
  {
    if IsSlugChar(s[0]) && forall i :: 0 <= i < |s[1..]| ==> IsSlugChar(s[1..][i]) {
      forall i | 0 <= i < |s|
        ensures IsSlugChar(s[i])
      {
        if i > 0 {
          assert s[i] == s[1..][i - 1];
        }
      }
    }
  }

  lemma AlnumCons(p: string, rest: seq<string>)
    requires p == ""
    ensures AllAlnum([p] + rest) <==> AllAlnum(rest)
  {
    var parts := [p] + rest;
    assert forall i :: 0 <= i < |rest| ==> rest[i] == parts[i + 1];
    assert forall i :: 1 <= i < |parts| ==> parts[i] == rest[i - 1];
  }

  lemma AlnumGrow(c: char, rest: seq<string>)
    requires |rest| > 0
    ensures AllAlnum([[c] + rest[0]] + rest[1..]) <==> IsAlnum(c) && AllAlnum(rest)
  {
    var parts := [[c] + rest[0]] + rest[1..];
    assert forall i :: 1 <= i < |parts| ==> parts[i] == rest[i];
    if AllAlnum(parts) {
      assert parts[0][0] == c;
      forall i, j | 0 <= i < |rest| && 0 <= j < |rest[i]|
        ensures IsAlnum(rest[i][j])
      {
        assert i == 0 ==> parts[0][j + 1] == rest[0][j];
        assert i > 0 ==> parts[i] == rest[i];
      }
    }
    if IsAlnum(c) && AllAlnum(rest) {
      forall i, j | 0 <= i < |parts| && 0 <= j < |parts[i]|
        ensures IsAlnum(parts[i][j])
      {
        if i == 0 && j > 0 {
          assert parts[0][j] == rest[0][j - 1];
        }
      }
    }
  }

  // ----- What normalisation accepts -----

  ghost predicate Around(input: string, core: string) {
    exists a, b :: input == a + core + b && AllWhitespace(a) && AllWhitespace(b)
  }

  lemma {:induction false} TrimStartShape(s: string) returns (a: string)
    ensures s == a + TrimStart(s) && AllWhitespace(a)
  {
    if s != "" && IsWhitespace(s[0]) {
      var rest := TrimStartShape(s[1..]);
      a := [s[0]] + rest;
      assert s == [s[0]] + s[1..];
    } else {
      a := "";
    }
  }

  lemma {:induction false} TrimEndShape(s: string) returns (b: string)
    ensures s == TrimEnd(s) + b && AllWhitespace(b)
  {
    if s != "" && IsWhitespace(s[|s| - 1]) {
      var rest := TrimEndShape(s[..|s| - 1]);
      b := rest + [s[|s| - 1]];
      assert s == s[..|s| - 1] + [s[|s| - 1]];
    } else {
      b := "";
    }
  }

  /** An input normalises to a slug exactly when it is that slug in some case between blanks. */
  lemma NormalizesExactly(input: string, slug: string)
    ensures NormalizeSlug(input) == Some(slug) <==>
            ValidSlug(slug) && exists core :: Around(input, core) && LowerAll(core) == slug
  {
    if NormalizeSlug(input) == Some(slug) {
      var a := TrimStartShape(input);
      var b := TrimEndShape(TrimStart(input));
      assert input == a + Trim(input) + b;
      assert Around(input, Trim(input));
    }
    if ValidSlug(slug) {
      forall core | Around(input, core) && LowerAll(core) == slug
        ensures NormalizeSlug(input) == Some(slug)
      {
        var a, b :| input == a + core + b && AllWhitespace(a) && AllWhitespace(b);
        NormalizeForgives(a, core, b);
      }
    }
  }

  /** Among the ASCII characters the blanks are tab, line feed, vertical tab, form feed, return and space. */
  lemma AsciiBlanks(c: char)
    requires c as int < 128
    ensures IsWhitespace(c) <==> c as int in {9, 10, 11, 12, 13, 32}
  {
  }
}
