/** Latvian diacritic folding, scoring and the letter case maps the system relies on
    (src/utils/latvian.ts). */
module Latvian {

  /** The eleven lowercase keys of LATVIAN_CHAR_MAP. */
  predicate IsLatvianLower(c: char) {
    c == 'ā' || c == 'č' || c == 'ē' || c == 'ģ' || c == 'ī' || c == 'ķ' ||
    c == 'ļ' || c == 'ņ' || c == 'š' || c == 'ū' || c == 'ž'
  }

  /** The eleven uppercase keys of LATVIAN_CHAR_MAP. */
  predicate IsLatvianUpper(c: char) {
    c == 'Ā' || c == 'Č' || c == 'Ē' || c == 'Ģ' || c == 'Ī' || c == 'Ķ' ||
    c == 'Ļ' || c == 'Ņ' || c == 'Š' || c == 'Ū' || c == 'Ž'
  }

  /** A character matched by LATVIAN_CHAR_PATTERN: one of the 22 keys of the map. */
  predicate IsLatvianChar(c: char) {
    IsLatvianLower(c) || IsLatvianUpper(c)
  }

  predicate IsAsciiLower(c: char) { 'a' <= c <= 'z' }
  predicate IsAsciiUpper(c: char) { 'A' <= c <= 'Z' }

  /** The letters hasNaturalCasing keeps: [a-zA-Z] and the 22 Latvian letters. */
  predicate IsNameLetter(c: char) {
    IsAsciiLower(c) || IsAsciiUpper(c) || IsLatvianChar(c)
  }

  /** LATVIAN_CHAR_MAP applied to one character; characters outside the map are kept. */
  function FoldChar(c: char): char {
    match c
    case 'ā' => 'a' case 'Ā' => 'A'
    case 'č' => 'c' case 'Č' => 'C'
    case 'ē' => 'e' case 'Ē' => 'E'
    case 'ģ' => 'g' case 'Ģ' => 'G'
    case 'ī' => 'i' case 'Ī' => 'I'
    case 'ķ' => 'k' case 'Ķ' => 'K'
    case 'ļ' => 'l' case 'Ļ' => 'L'
    case 'ņ' => 'n' case 'Ņ' => 'N'
    case 'š' => 's' case 'Š' => 'S'
    case 'ū' => 'u' case 'Ū' => 'U'
    case 'ž' => 'z' case 'Ž' => 'Z'
    case _ => c
  }

  /** String.prototype.toLowerCase on one character, for ASCII letters and the
      Latvian letters (every Latvian capital sits one code point below its small letter). */
  function LowerChar(c: char): char {
    if IsAsciiUpper(c) then (c as int + 32) as char
    else if IsLatvianUpper(c) then (c as int + 1) as char
    else c
  }

  /** String.prototype.toUpperCase on one character, for the same letters. */
  function UpperChar(c: char): char {
    if IsAsciiLower(c) then (c as int - 32) as char
    else if IsLatvianLower(c) then (c as int - 1) as char
    else c
  }

  /** Facts about one character: the fold keeps the case of the letter it replaces and
      lands outside the map; the case maps send Latvian letters to Latvian letters. */
  lemma CharFacts(c: char)
    ensures IsLatvianLower(c) ==> IsAsciiLower(FoldChar(c))
    ensures IsLatvianUpper(c) ==> IsAsciiUpper(FoldChar(c))
    ensures !IsLatvianChar(c) <==> FoldChar(c) == c
    ensures !IsLatvianChar(FoldChar(c))
    ensures IsLatvianChar(LowerChar(c)) <==> IsLatvianChar(c)
    ensures IsLatvianUpper(c) ==> IsLatvianLower(LowerChar(c))
    ensures FoldChar(LowerChar(c)) == LowerChar(FoldChar(c))
    ensures LowerChar(LowerChar(c)) == LowerChar(c)
    ensures IsNameLetter(c) ==> (UpperChar(c) == c <==> !(IsAsciiLower(c) || IsLatvianLower(c)))
  {
  }

  /** normalizeLatvian: every match of the pattern is replaced by its map entry. */
  function Fold(s: string): (r: string)
    ensures |r| == |s|
  {
    if s == [] then [] else [FoldChar(s[0])] + Fold(s[1..])
  }

  /** toLowerCase, restricted to the letters LowerChar knows. */
  function Lower(s: string): (r: string)
    ensures |r| == |s|
  {
    if s == [] then [] else [LowerChar(s[0])] + Lower(s[1..])
  }

  /** toUpperCase, restricted to the letters UpperChar knows. */
  function Upper(s: string): (r: string)
    ensures |r| == |s|
  {
    if s == [] then [] else [UpperChar(s[0])] + Upper(s[1..])
  }

  /** countLatvianChars: the number of matches of the pattern. */
  function CountLatvianChars(s: string): (n: nat)
    ensures n <= |s|
  {
    if s == [] then 0 else (if IsLatvianChar(s[0]) then 1 else 0) + CountLatvianChars(s[1..])
  }

  /** The string with every character outside [a-zA-Z] and the Latvian letters removed. */
  function Letters(s: string): (r: string)
    ensures |r| <= |s|
  {
    if s == [] then [] else (if IsNameLetter(s[0]) then [s[0]] else []) + Letters(s[1..])
  }

  /** hasNaturalCasing: no letters at all, or the letters are not all uppercase. */
  function HasNaturalCasing(name: string): bool {
    var letters := Letters(name);
    if |letters| == 0 then true else letters != Upper(letters)
  }

  // ---------------------------------------------------------------------------
  // Properties

  /** Folding replaces each character by its map entry, one for one. */
  lemma {:induction false} FoldAt(s: string, i: nat)
    requires i < |s|
    ensures Fold(s)[i] == FoldChar(s[i])
  {
    if i > 0 { FoldAt(s[1..], i - 1); }
  }

  lemma {:induction false} LowerAt(s: string, i: nat)
    requires i < |s|
    ensures Lower(s)[i] == LowerChar(s[i])
  {
    if i > 0 { LowerAt(s[1..], i - 1); }
  }

  lemma {:induction false} UpperAt(s: string, i: nat)
    requires i < |s|
    ensures Upper(s)[i] == UpperChar(s[i])
  {
    if i > 0 { UpperAt(s[1..], i - 1); }
  }

  /** Each of the 22 letters becomes the ASCII letter of the same case; every other
      character is left as it is. */
  lemma FoldMapsLetters(s: string, i: nat)
    requires i < |s|
    ensures IsLatvianLower(s[i]) ==> IsAsciiLower(Fold(s)[i])
    ensures IsLatvianUpper(s[i]) ==> IsAsciiUpper(Fold(s)[i])
    ensures !IsLatvianChar(s[i]) ==> Fold(s)[i] == s[i]
  {
    FoldAt(s, i);
    CharFacts(s[i]);
  }

  /** A folded string holds no Latvian letters. */
  lemma {:induction false} FoldLeavesNoLatvian(s: string)
    ensures CountLatvianChars(Fold(s)) == 0
  {
    if s != [] {
      CharFacts(s[0]);
      FoldLeavesNoLatvian(s[1..]);
      assert Fold(s)[1..] == Fold(s[1..]);
    }
  }

  /** A string is left unchanged by folding exactly when it holds no Latvian letter. */
  lemma {:induction false} FoldFixedIffNoLatvian(s: string)
    ensures CountLatvianChars(s) == 0 <==> Fold(s) == s
  {
    if s != [] {
      CharFacts(s[0]);
      FoldFixedIffNoLatvian(s[1..]);
      if Fold(s) == s {
        assert Fold(s)[1..] == s[1..];
        assert Fold(s)[0] == s[0];
      }
    }
  }

  /** normalizeLatvian is idempotent. */
  lemma FoldIdempotent(s: string)
    ensures Fold(Fold(s)) == Fold(s)
  {
    FoldLeavesNoLatvian(s);
    FoldFixedIffNoLatvian(Fold(s));
  }

  /** Lowercasing does not change the Latvian-letter count: both cases are counted. */
  lemma {:induction false} CountIgnoresCase(s: string)
    ensures CountLatvianChars(Lower(s)) == CountLatvianChars(s)
  {
    if s != [] {
      CharFacts(s[0]);
      CountIgnoresCase(s[1..]);
      assert Lower(s)[1..] == Lower(s[1..]);
    }
  }

  /** Folding and lowercasing commute. */
  lemma FoldLowerCommute(s: string)
    ensures Fold(Lower(s)) == Lower(Fold(s))
  {
    forall i | 0 <= i < |s|
      ensures Fold(Lower(s))[i] == Lower(Fold(s))[i]
    {
      FoldAt(Lower(s), i);
      LowerAt(s, i);
      LowerAt(Fold(s), i);
      FoldAt(s, i);
      CharFacts(s[i]);
    }
  }

  /** The letters Letters keeps are exactly the name letters of the input, in order. */
  lemma {:induction false} LettersAreNameLetters(s: string)
    ensures forall k :: 0 <= k < |Letters(s)| ==> IsNameLetter(Letters(s)[k])
    ensures (exists i :: 0 <= i < |s| && IsNameLetter(s[i])) <==> |Letters(s)| > 0
  {
    if s != [] {
      LettersAreNameLetters(s[1..]);
      if IsNameLetter(s[0]) {
        assert Letters(s)[0] == s[0];
      } else {
        assert Letters(s) == Letters(s[1..]);
        if exists i :: 0 <= i < |s| && IsNameLetter(s[i]) {
          var i :| 0 <= i < |s| && IsNameLetter(s[i]);
          assert s[1..][i - 1] == s[i];
        }
      }
      if exists i :: 0 <= i < |s[1..]| && IsNameLetter(s[1..][i]) {
        var i :| 0 <= i < |s[1..]| && IsNameLetter(s[1..][i]);
        assert IsNameLetter(s[i + 1]);
      }
    }
  }

  /** A letter with a lowercase form: ASCII a-z or a small Latvian letter. */
  predicate IsSmallLetter(c: char) {
    IsAsciiLower(c) || IsLatvianLower(c)
  }

  /** A name letter occurs in Letters(s) exactly when it occurs in s. */
  lemma {:induction false} LettersKeep(s: string, c: char)
    requires IsNameLetter(c)
    ensures c in Letters(s) <==> c in s
  {
    if s != [] {
      LettersKeep(s[1..], c);
      assert s == [s[0]] + s[1..];
    }
  }

  /** The name letters of s contain a small letter exactly when s does. */
  lemma LettersKeepSmall(s: string)
    ensures (exists k :: 0 <= k < |Letters(s)| && IsSmallLetter(Letters(s)[k])) <==>
            (exists i :: 0 <= i < |s| && IsSmallLetter(s[i]))
  {
    if exists k :: 0 <= k < |Letters(s)| && IsSmallLetter(Letters(s)[k]) {
      var k :| 0 <= k < |Letters(s)| && IsSmallLetter(Letters(s)[k]);
      LettersKeep(s, Letters(s)[k]);
    }
    if exists i :: 0 <= i < |s| && IsSmallLetter(s[i]) {
      var i :| 0 <= i < |s| && IsSmallLetter(s[i]);
      LettersKeep(s, s[i]);
    }
  }

  /** A string of name letters is its own uppercase exactly when it has no small letter. */
  lemma UpperFixedIffNoSmall(t: string)
    requires forall k :: 0 <= k < |t| ==> IsNameLetter(t[k])
    ensures Upper(t) == t <==> !(exists k :: 0 <= k < |t| && IsSmallLetter(t[k]))
  {
    if Upper(t) == t {
      forall k | 0 <= k < |t| ensures !IsSmallLetter(t[k]) {
        UpperAt(t, k);
        CharFacts(t[k]);
      }
    } else {
      var k :| 0 <= k < |t| && Upper(t)[k] != t[k];
      UpperAt(t, k);
      CharFacts(t[k]);
    }
    if !(exists k :: 0 <= k < |t| && IsSmallLetter(t[k])) {
      forall k | 0 <= k < |t| ensures Upper(t)[k] == t[k] {
        UpperAt(t, k);
        CharFacts(t[k]);
      }
    }
  }

  /** hasNaturalCasing is true for a string without letters, and otherwise true exactly
      when some letter is lowercase (false exactly when every letter is uppercase). */
  lemma NaturalCasingMeans(name: string)
    ensures !(exists i :: 0 <= i < |name| && IsNameLetter(name[i])) ==> HasNaturalCasing(name)
    ensures HasNaturalCasing(name) <==>
              (!(exists i :: 0 <= i < |name| && IsNameLetter(name[i])) ||
               (exists i :: 0 <= i < |name| && IsSmallLetter(name[i])))
  {
    LettersAreNameLetters(name);
    LettersKeepSmall(name);
    UpperFixedIffNoSmall(Letters(name));
  }

  /** The examples the module's tests pin down: both cases are counted. */
  lemma CountExampleUpper()
    ensures CountLatvianChars("JĀNIS") == 1
  {
    assert "JĀNIS"[1..] == "ĀNIS";
    assert "ĀNIS"[1..] == "NIS";
    assert "NIS"[1..] == "IS";
    assert "IS"[1..] == "S";
    assert "S"[1..] == "";
  }

  lemma CountExampleMixed()
    ensures CountLatvianChars("Bērziņš") == 3
  {
    assert "Bērziņš"[1..] == "ērziņš";
    assert "ērziņš"[1..] == "rziņš";
    assert "rziņš"[1..] == "ziņš";
    assert "ziņš"[1..] == "iņš";
    assert "iņš"[1..] == "ņš";
    assert "ņš"[1..] == "š";
    assert "š"[1..] == "";
  }

  /** An all-uppercase name with Latvian letters does not have natural casing. */
  lemma CasingExample()
    ensures !HasNaturalCasing("ĀBOLIŅŠ")
  {
    NaturalCasingMeans("ĀBOLIŅŠ");
    var s := "ĀBOLIŅŠ";
    assert IsNameLetter(s[0]);
    forall i | 0 <= i < |s| ensures !IsSmallLetter(s[i]) {
    }
  }
}
