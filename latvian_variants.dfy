/** The two other diacritic folds of the repository, written as the chains of
    `String.prototype.replace` calls they are: the search fold of worker/index.ts
    (repeated verbatim in scripts/check_duplicates.ts) and the migration's
    normalizeName (migrations/merge-latvian-duplicates.js). */
module LatvianVariants {
  import opened Latvian

  /** One `.replace(/x/g, y)` call on a single letter x: without the `i` flag it matches x
      alone, with it (`/x/gi`) also the capital of x. */
  datatype Rule =
    | CaseSensitive(letter: char, target: char)
    | CaseInsensitive(letter: char, capital: char, target: char)

  predicate Matches(c: char, rule: Rule) {
    c == rule.letter || (rule.CaseInsensitive? && c == rule.capital)
  }

  function RuleChar(c: char, rule: Rule): char {
    if Matches(c, rule) then rule.target else c
  }

  /** A global single-character replace. */
  function ReplaceAll(s: string, rule: Rule): (r: string)
    ensures |r| == |s|
  {
    if s == [] then [] else [RuleChar(s[0], rule)] + ReplaceAll(s[1..], rule)
  }

  /** A chain of replace calls, applied left to right. */
  function ApplyRules(s: string, rules: seq<Rule>): (r: string)
    ensures |r| == |s|
    decreases |rules|
  {
    if rules == [] then s else ApplyRules(ReplaceAll(s, rules[0]), rules[1..])
  }

  /** What a chain of rules does to a single character. */
  function ChainChar(c: char, rules: seq<Rule>): char
    decreases |rules|
  {
    if rules == [] then c else ChainChar(RuleChar(c, rules[0]), rules[1..])
  }

  /** The chain in worker/index.ts and scripts/check_duplicates.ts: eleven
      case-insensitive replaces, each to a lowercase ASCII letter. */
  const SearchRules: seq<Rule> := [
    CaseInsensitive('ā', 'Ā', 'a'), CaseInsensitive('č', 'Č', 'c'), CaseInsensitive('ē', 'Ē', 'e'),
    CaseInsensitive('ģ', 'Ģ', 'g'), CaseInsensitive('ī', 'Ī', 'i'), CaseInsensitive('ķ', 'Ķ', 'k'),
    CaseInsensitive('ļ', 'Ļ', 'l'), CaseInsensitive('ņ', 'Ņ', 'n'), CaseInsensitive('š', 'Š', 's'),
    CaseInsensitive('ū', 'Ū', 'u'), CaseInsensitive('ž', 'Ž', 'z')]

  /** The chain in normalizeName: eleven case-sensitive replaces of the small letters. */
  const MigrationRules: seq<Rule> := [
    CaseSensitive('ā', 'a'), CaseSensitive('č', 'c'), CaseSensitive('ē', 'e'), CaseSensitive('ģ', 'g'),
    CaseSensitive('ī', 'i'), CaseSensitive('ķ', 'k'), CaseSensitive('ļ', 'l'), CaseSensitive('ņ', 'n'),
    CaseSensitive('š', 's'), CaseSensitive('ū', 'u'), CaseSensitive('ž', 'z')]

  /** normalizeLatvian of worker/index.ts and scripts/check_duplicates.ts. */
  function SearchFold(text: string): string {
    ApplyRules(text, SearchRules)
  }

  /** normalizeName of the migration: lowercase first, then fold the small letters. */
  function NormalizeName(name: string): string {
    ApplyRules(Lower(name), MigrationRules)
  }

  /** hasLatvianChars: the case-insensitive test for any of the eleven letters. */
  predicate HasLatvianChars(name: string) {
    exists i :: 0 <= i < |name| && IsLatvianChar(name[i])
  }

  // ---------------------------------------------------------------------------
  // Properties

  lemma {:induction false} ReplaceAllAt(s: string, rule: Rule, i: nat)
    requires i < |s|
    ensures ReplaceAll(s, rule)[i] == RuleChar(s[i], rule)
  {
    if i > 0 { ReplaceAllAt(s[1..], rule, i - 1); }
  }

  /** A chain of replaces acts on each character on its own. */
  lemma {:induction false} ApplyRulesAt(s: string, rules: seq<Rule>, i: nat)
    requires i < |s|
    ensures ApplyRules(s, rules)[i] == ChainChar(s[i], rules)
    decreases |rules|
  {
    if rules != [] {
      ReplaceAllAt(s, rules[0], i);
      ApplyRulesAt(ReplaceAll(s, rules[0]), rules[1..], i);
    }
  }

  /** The search chain sends each of the 22 letters to its lowercase ASCII letter. */
  lemma SearchChar(c: char)
    ensures ChainChar(c, SearchRules) == if IsLatvianChar(c) then LowerChar(FoldChar(c)) else c
  {
    var r := SearchRules;
    var c0 := c;
    var c1 := RuleChar(c0, r[0]);
    assert ChainChar(c0, r) == ChainChar(c1, r[1..]);
    var c2 := RuleChar(c1, r[1..][0]);
    assert ChainChar(c1, r[1..]) == ChainChar(c2, r[1..][1..]);
    var c3 := RuleChar(c2, r[1..][1..][0]);
    assert ChainChar(c2, r[1..][1..]) == ChainChar(c3, r[1..][1..][1..]);
    var c4 := RuleChar(c3, r[1..][1..][1..][0]);
    assert ChainChar(c3, r[1..][1..][1..]) == ChainChar(c4, r[1..][1..][1..][1..]);
    var c5 := RuleChar(c4, r[1..][1..][1..][1..][0]);
    assert ChainChar(c4, r[1..][1..][1..][1..]) == ChainChar(c5, r[1..][1..][1..][1..][1..]);
    var c6 := RuleChar(c5, r[1..][1..][1..][1..][1..][0]);
    assert ChainChar(c5, r[1..][1..][1..][1..][1..]) == ChainChar(c6, r[1..][1..][1..][1..][1..][1..]);
    var c7 := RuleChar(c6, r[1..][1..][1..][1..][1..][1..][0]);
    assert ChainChar(c6, r[1..][1..][1..][1..][1..][1..]) == ChainChar(c7, r[1..][1..][1..][1..][1..][1..][1..]);
    var c8 := RuleChar(c7, r[1..][1..][1..][1..][1..][1..][1..][0]);
    assert ChainChar(c7, r[1..][1..][1..][1..][1..][1..][1..]) == ChainChar(c8, r[1..][1..][1..][1..][1..][1..][1..][1..]);
    var c9 := RuleChar(c8, r[1..][1..][1..][1..][1..][1..][1..][1..][0]);
    assert ChainChar(c8, r[1..][1..][1..][1..][1..][1..][1..][1..]) == ChainChar(c9, r[1..][1..][1..][1..][1..][1..][1..][1..][1..]);
    var c10 := RuleChar(c9, r[1..][1..][1..][1..][1..][1..][1..][1..][1..][0]);
    assert ChainChar(c9, r[1..][1..][1..][1..][1..][1..][1..][1..][1..]) == ChainChar(c10, r[1..][1..][1..][1..][1..][1..][1..][1..][1..][1..]);
    var c11 := RuleChar(c10, r[1..][1..][1..][1..][1..][1..][1..][1..][1..][1..][0]);
    assert ChainChar(c10, r[1..][1..][1..][1..][1..][1..][1..][1..][1..][1..]) == ChainChar(c11, r[1..][1..][1..][1..][1..][1..][1..][1..][1..][1..][1..]);
    assert r[1..][1..][1..][1..][1..][1..][1..][1..][1..][1..][1..] == [];
  }

  /** The migration chain sends each small Latvian letter to its ASCII letter. */
  lemma MigrationChar(c: char)
    ensures ChainChar(c, MigrationRules) == if IsLatvianLower(c) then FoldChar(c) else c
  {
    var r := MigrationRules;
    var c0 := c;
    var c1 := RuleChar(c0, r[0]);
    assert ChainChar(c0, r) == ChainChar(c1, r[1..]);
    var c2 := RuleChar(c1, r[1..][0]);
    assert ChainChar(c1, r[1..]) == ChainChar(c2, r[1..][1..]);
    var c3 := RuleChar(c2, r[1..][1..][0]);
    assert ChainChar(c2, r[1..][1..]) == ChainChar(c3, r[1..][1..][1..]);
    var c4 := RuleChar(c3, r[1..][1..][1..][0]);
    assert ChainChar(c3, r[1..][1..][1..]) == ChainChar(c4, r[1..][1..][1..][1..]);
    var c5 := RuleChar(c4, r[1..][1..][1..][1..][0]);
    assert ChainChar(c4, r[1..][1..][1..][1..]) == ChainChar(c5, r[1..][1..][1..][1..][1..]);
    var c6 := RuleChar(c5, r[1..][1..][1..][1..][1..][0]);
    assert ChainChar(c5, r[1..][1..][1..][1..][1..]) == ChainChar(c6, r[1..][1..][1..][1..][1..][1..]);
    var c7 := RuleChar(c6, r[1..][1..][1..][1..][1..][1..][0]);
    assert ChainChar(c6, r[1..][1..][1..][1..][1..][1..]) == ChainChar(c7, r[1..][1..][1..][1..][1..][1..][1..]);
    var c8 := RuleChar(c7, r[1..][1..][1..][1..][1..][1..][1..][0]);
    assert ChainChar(c7, r[1..][1..][1..][1..][1..][1..][1..]) == ChainChar(c8, r[1..][1..][1..][1..][1..][1..][1..][1..]);
    var c9 := RuleChar(c8, r[1..][1..][1..][1..][1..][1..][1..][1..][0]);
    assert ChainChar(c8, r[1..][1..][1..][1..][1..][1..][1..][1..]) == ChainChar(c9, r[1..][1..][1..][1..][1..][1..][1..][1..][1..]);
    var c10 := RuleChar(c9, r[1..][1..][1..][1..][1..][1..][1..][1..][1..][0]);
    assert ChainChar(c9, r[1..][1..][1..][1..][1..][1..][1..][1..][1..]) == ChainChar(c10, r[1..][1..][1..][1..][1..][1..][1..][1..][1..][1..]);
    var c11 := RuleChar(c10, r[1..][1..][1..][1..][1..][1..][1..][1..][1..][1..][0]);
    assert ChainChar(c10, r[1..][1..][1..][1..][1..][1..][1..][1..][1..][1..]) == ChainChar(c11, r[1..][1..][1..][1..][1..][1..][1..][1..][1..][1..][1..]);
    assert r[1..][1..][1..][1..][1..][1..][1..][1..][1..][1..][1..] == [];
  }

  /** What the search chain does to one character. */
  function SearchFoldChar(c: char): char {
    if IsLatvianChar(c) then LowerChar(FoldChar(c)) else c
  }

  /** The search fold acts on each character on its own, as SearchFoldChar. */
  lemma SearchFoldAt(s: string, i: nat)
    requires i < |s|
    ensures |SearchFold(s)| == |s|
    ensures SearchFold(s)[i] == SearchFoldChar(s[i])
  {
    ApplyRulesAt(s, SearchRules, i);
    SearchChar(s[i]);
  }

  /** Each mapped letter, in either case, becomes lowercase ASCII; every other character
      keeps its value and its case. */
  lemma SearchFoldMapsLetters(s: string, i: nat)
    requires i < |s|
    ensures IsLatvianChar(s[i]) ==> IsAsciiLower(SearchFold(s)[i])
    ensures !IsLatvianChar(s[i]) ==> SearchFold(s)[i] == s[i]
  {
    SearchFoldAt(s, i);
    CharFacts(s[i]);
  }

  /** The search fold leaves no Latvian letter behind, so applying it twice is the same as once. */
  lemma SearchFoldIdempotent(s: string)
    ensures SearchFold(SearchFold(s)) == SearchFold(s)
  {
    var t := SearchFold(s);
    forall i | 0 <= i < |s| ensures SearchFold(t)[i] == t[i] {
      SearchFoldAt(s, i);
      SearchFoldAt(t, i);
      CharFacts(s[i]);
      CharFacts(FoldChar(s[i]));
    }
  }

  /** The lowered search comparisons agree with the case-preserving fold:
      folding a lowered string is lowering a folded one. */
  lemma SearchFoldOfLower(s: string)
    ensures SearchFold(Lower(s)) == Lower(Fold(s))
  {
    forall i | 0 <= i < |s| ensures SearchFold(Lower(s))[i] == Lower(Fold(s))[i] {
      SearchFoldAt(Lower(s), i);
      LowerAt(s, i);
      LowerAt(Fold(s), i);
      FoldAt(s, i);
      CharFacts(s[i]);
      CharFacts(LowerChar(s[i]));
    }
  }

  /** The duplicate checker's key, lower(searchFold(name)), is the pipeline's key,
      lower(normalizeLatvian(name)). */
  lemma LowerOfSearchFold(s: string)
    ensures Lower(SearchFold(s)) == Lower(Fold(s))
  {
    forall i | 0 <= i < |s| ensures Lower(SearchFold(s))[i] == Lower(Fold(s))[i] {
      SearchFoldAt(s, i);
      LowerAt(SearchFold(s), i);
      LowerAt(Fold(s), i);
      FoldAt(s, i);
      LowerSearchFoldChar(s[i]);
    }
  }

  lemma LowerSearchFoldChar(c: char)
    ensures LowerChar(SearchFoldChar(c)) == LowerChar(FoldChar(c))
  {
    CharFacts(FoldChar(c));
    CharFacts(c);
  }

  /** normalizeName is the lowercased case-preserving fold. */
  lemma NormalizeNameIsLowerFold(s: string)
    ensures NormalizeName(s) == Lower(Fold(s))
  {
    forall i | 0 <= i < |s| ensures NormalizeName(s)[i] == Lower(Fold(s))[i] {
      ApplyRulesAt(Lower(s), MigrationRules, i);
      MigrationChar(Lower(s)[i]);
      LowerAt(s, i);
      LowerAt(Fold(s), i);
      FoldAt(s, i);
      CharFacts(s[i]);
    }
  }

  /** Two names that differ only in case or in Latvian diacritics normalize alike. */
  lemma NormalizeNameInsensitive(s: string)
    ensures NormalizeName(Lower(s)) == NormalizeName(s)
    ensures NormalizeName(Fold(s)) == NormalizeName(s)
  {
    NormalizeNameIsLowerFold(s);
    NormalizeNameIsLowerFold(Lower(s));
    NormalizeNameIsLowerFold(Fold(s));
    FoldLowerCommute(s);
    FoldIdempotent(s);
    LowerIdempotent(Fold(s));
  }

  lemma LowerIdempotent(s: string)
    ensures Lower(Lower(s)) == Lower(s)
  {
    forall i | 0 <= i < |s| ensures Lower(Lower(s))[i] == Lower(s)[i] {
      LowerAt(s, i);
      LowerAt(Lower(s), i);
    }
  }

  /** hasLatvianChars holds exactly when countLatvianChars is positive. */
  lemma {:induction false} HasLatvianCharsIffCount(s: string)
    ensures HasLatvianChars(s) <==> CountLatvianChars(s) > 0
  {
    if s != [] {
      HasLatvianCharsIffCount(s[1..]);
      if HasLatvianChars(s[1..]) {
        var i :| 0 <= i < |s[1..]| && IsLatvianChar(s[1..][i]);
        assert IsLatvianChar(s[i + 1]);
      }
      if HasLatvianChars(s) && !IsLatvianChar(s[0]) {
        var i :| 0 <= i < |s| && IsLatvianChar(s[i]);
        assert s[1..][i - 1] == s[i];
      }
    }
  }

}
