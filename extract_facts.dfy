/** Properties of the field extraction: the month table, the dates parseDate writes and how
    the rest of the system reads them back, the cell cleaning, and which rows give races. */
module ExtractFacts {
  import opened Common
  import opened Text
  import opened Latvian
  import opened Records
  import opened Collections
  import Comparison
  import opened Extract

  // ---------------------------------------------------------------------------
  // parseDate

  /** A name found at position i, and at none before it, is looked up as i + 1. */
  lemma {:induction false} PositionOfFirst(names: seq<string>, i: nat)
    requires i < |names| && names[i] !in names[..i]
    ensures PositionOf(names, names[i]) == Some(i + 1)
    decreases i
  {
    if i > 0 {
      assert names[0] in names[..i];
      assert names[1..][..i - 1] == names[..i][1..];
      PositionOfFirst(names[1..], i - 1);
    }
  }

  /** The twelve month names are all different. */
  lemma MonthNamesDistinct(i: nat, j: nat)
    requires i < j < 12
    ensures MonthNames[i] != MonthNames[j]
  {
    var n := MonthNames;
    assert |n[0]| == 8 && |n[1]| == 9 && |n[2]| == 5 && |n[3]| == 7 && |n[4]| == 5 && |n[5]| == 6;
    assert |n[6]| == 6 && |n[7]| == 7 && |n[8]| == 10 && |n[9]| == 8 && |n[10]| == 9 && |n[11]| == 9;
    assert n[0][0] == 'j' && n[1][0] == 'f' && n[2][0] == 'm' && n[3][0] == 'a' && n[4][0] == 'm';
    assert n[5][0] == 'j' && n[6][0] == 'j' && n[7][0] == 'a' && n[8][0] == 's' && n[9][0] == 'o';
    assert n[10][0] == 'n' && n[11][0] == 'd';
    assert n[2][1] == 'a' && n[4][1] == 'a' && n[2][2] == 'r' && n[4][2] == 'i';
    assert n[5][2] == 'n' && n[6][2] == 'l';
  }

  /** MONTH_MAP is a bijection between the twelve names and the months 1 to 12. */
  lemma MonthTable(m: nat, name: string)
    ensures 1 <= m <= 12 ==> MonthNumber(MonthName(m)) == Some(m)
    ensures MonthNumber(name) == Some(m) ==> name == MonthName(m)
  {
    if 1 <= m <= 12 {
      forall k | 0 <= k < m - 1 ensures MonthNames[k] != MonthNames[m - 1] {
        MonthNamesDistinct(k, m - 1);
      }
      assert MonthNames[m - 1] !in MonthNames[..m - 1];
      PositionOfFirst(MonthNames, m - 1);
    }
  }

  /** A date without a '.' is returned as it is, and so is one whose text after the first
      '.' does not name a month. */
  lemma ParseDateFallback(dateStr: string, startYear: int, endYear: int)
    ensures '.' !in Trim(dateStr) ==> ParseDate(dateStr, startYear, endYear) == dateStr
    ensures |Split(Trim(dateStr), '.')| >= 2 &&
            MonthNumber(Lower(Trim(Split(Trim(dateStr), '.')[1]))).None? ==>
            ParseDate(dateStr, startYear, endYear) == dateStr
  {
    if '.' !in Trim(dateStr) {
      SplitNoSep(Trim(dateStr), '.');
    }
  }

  /** The number of digits NatToString prints, for numbers below 10000. */
  lemma {:induction false} DigitCount(n: nat)
    ensures n < 10 ==> |NatToString(n)| == 1
    ensures 10 <= n < 100 ==> |NatToString(n)| == 2
    ensures 100 <= n < 1000 ==> |NatToString(n)| == 3
    ensures 1000 <= n < 10000 ==> |NatToString(n)| == 4
    decreases n
  {
    if n >= 10 {
      DigitCount(n / 10);
    }
  }

  /** A leading zero does not change the value of a digit string. */
  lemma {:induction false} LeadingZero(d: string)
    requires forall k :: 0 <= k < |d| ==> IsDigit(d[k])
    ensures DigitsValue("0" + d) == DigitsValue(d)
    decreases |d|
  {
    if d != [] {
      var p := d[..|d| - 1];
      LeadingZero(p);
      assert ("0" + d)[..|d|] == "0" + p;
    }
  }

  /** `String(n).padStart(2, '0')` for n below 100: two digits that read back as n. */
  lemma PaddedValue(n: nat)
    requires n < 100
    ensures |PadStart2(NatToString(n))| == 2
    ensures forall k :: 0 <= k < 2 ==> IsDigit(PadStart2(NatToString(n))[k])
    ensures DigitsValue(PadStart2(NatToString(n))) == n
  {
    DigitCount(n);
    NatToStringRoundTrip(n);
    if n < 10 {
      LeadingZero(NatToString(n));
      assert PadStart2(NatToString(n)) == "0" + NatToString(n);
    }
  }

  /** The text parseDate builds for a four-digit year, a month and a day of the month is a
      `YYYY-MM-DD` date that the comparison reads back as that very date. */
  lemma IsoRoundTrip(year: int, month: nat, day: nat)
    requires 1000 <= year <= 9999 && 1 <= month <= 12 && 1 <= day <= 31
    ensures Comparison.ParseIsoDate(IsoText(year, month, NatToString(day))) ==
            Some(Comparison.IsoDate(year, month, day))
  {
    var ys := IntToString(year);
    var ms := PadStart2(NatToString(month));
    var ds := PadStart2(NatToString(day));
    DigitCount(year);
    NatToStringRoundTrip(year);
    PaddedValue(month);
    PaddedValue(day);
    var s := IsoText(year, month, NatToString(day));
    assert s == ys + "-" + ms + "-" + ds;
    assert s[..4] == ys && s[5..7] == ms && s[8..] == ds;
  }

  /** A cell "<day>.<month name>" splits into the day and the month name. */
  lemma DayMonthParts(dateStr: string, day: nat, monthText: string)
    requires Trim(dateStr) == NatToString(day) + "." + monthText && '.' !in monthText
    ensures Split(Trim(dateStr), '.') == [NatToString(day), monthText]
    ensures Trim(NatToString(day)) == NatToString(day)
  {
    var ds := NatToString(day);
    DigitsExclude(ds, '.');
    assert ds + "." + monthText == ds + ['.'] + monthText;
    SplitAfter(ds, '.', monthText);
    SplitNoSep(monthText, '.');
    TrimNoSpaceEnds(ds);
  }

  /** parseDate of a text made of a trimmed day and a month name. */
  lemma ParseDateNamed(dateStr: string, startYear: int, endYear: int, dayText: string,
                       monthText: string, month: nat)
    requires Split(Trim(dateStr), '.') == [dayText, monthText] && Trim(dayText) == dayText
    requires MonthNumber(Lower(Trim(monthText))) == Some(month)
    ensures ParseDate(dateStr, startYear, endYear) ==
            IsoText(if month >= 7 then startYear else endYear, month, dayText)
  {
  }

  /** What parseDate makes of a cell "<day>.<month name>": the date text of that day in
      that month of the year the month falls in. */
  lemma ParseDateOfDayMonth(dateStr: string, day: nat, monthText: string, month: nat,
                            startYear: int, endYear: int)
    requires Trim(dateStr) == NatToString(day) + "." + monthText && '.' !in monthText
    requires MonthNumber(Lower(Trim(monthText))) == Some(month)
    ensures ParseDate(dateStr, startYear, endYear) ==
            IsoText(if month >= 7 then startYear else endYear, month, NatToString(day))
  {
    DayMonthParts(dateStr, day, monthText);
    ParseDateNamed(dateStr, startYear, endYear, NatToString(day), monthText, month);
  }

  /** A cell "<day>.<month name>" becomes the date of that day and month, in the start year
      of the season for July to December and in its end year for January to June. */
  lemma ParseDateRoundTrip(dateStr: string, day: nat, monthText: string, month: nat,
                           startYear: int, endYear: int)
    requires Trim(dateStr) == NatToString(day) + "." + monthText && '.' !in monthText
    requires MonthNumber(Lower(Trim(monthText))) == Some(month)
    requires 1 <= day <= 31
    requires 1000 <= startYear <= 9999 && 1000 <= endYear <= 9999
    ensures Comparison.ParseIsoDate(ParseDate(dateStr, startYear, endYear)) ==
            Some(Comparison.IsoDate(if month >= 7 then startYear else endYear, month, day))
  {
    ParseDateOfDayMonth(dateStr, day, monthText, month, startYear, endYear);
    IsoRoundTrip(if month >= 7 then startYear else endYear, month, day);
  }

  /** The season deriveSeasonFromDate gives a parsed date of the season startYear-endYear:
      that season for November to June, but the season before for July to October, which
      parseDate puts in the start year while deriveSeasonFromDate opens a season only in
      November. */
  lemma ParsedDateSeason(dateStr: string, day: nat, monthText: string, month: nat,
                         startYear: int)
    requires Trim(dateStr) == NatToString(day) + "." + monthText && '.' !in monthText
    requires MonthNumber(Lower(Trim(monthText))) == Some(month)
    requires 1 <= day <= 31
    requires 1000 <= startYear <= 9998
    ensures Comparison.DeriveSeason(ParseDate(dateStr, startYear, startYear + 1)) ==
            if 7 <= month <= 10 then Comparison.SeasonLabel(startYear - 1)
            else Comparison.SeasonLabel(startYear)
  {
    ParseDateRoundTrip(dateStr, day, monthText, month, startYear, startYear + 1);
    SeasonOfParsed(ParseDate(dateStr, startYear, startYear + 1),
                   Comparison.IsoDate(if month >= 7 then startYear else startYear + 1, month, day));
  }

  /** The season deriveSeasonFromDate gives a text that reads as the date d. */
  lemma SeasonOfParsed(date: string, d: Comparison.IsoDate)
    requires Comparison.ParseIsoDate(date) == Some(d)
    ensures Comparison.DeriveSeason(date) ==
            if d.month >= 11 then Comparison.SeasonLabel(d.year) else Comparison.SeasonLabel(d.year - 1)
  {
  }

  // ---------------------------------------------------------------------------
  // Cell cleaning

  /** Text without '&' has no entity to replace. */
  lemma {:induction false} ReplaceNbspNone(s: string)
    requires '&' !in s
    ensures ReplaceNbsp(s) == s
    decreases |s|
  {
    if s != [] {
      assert s[0] != '&';
      ReplaceNbspNone(s[1..]);
      assert s == [s[0]] + s[1..];
    }
  }

  /** Text without '<' has no tag to strip. */
  lemma {:induction false} StripTagsNone(s: string)
    requires '<' !in s
    ensures StripTags(s) == s
    decreases |s|
  {
    if s != [] {
      assert s[0] != '<';
      StripTagsNone(s[1..]);
      assert s == [s[0]] + s[1..];
    }
  }

  /** A cell of plain text is only trimmed. */
  lemma PlainCell(s: string)
    requires '&' !in s && '<' !in s
    ensures CleanCell(s) == Trim(s)
  {
    ReplaceNbspNone(s);
    StripTagsNone(s);
  }

  /** A leading space is trimmed away. */
  lemma TrimLeadingSpace(s: string)
    ensures Trim(" " + s) == Trim(s)
  {
    assert (" " + s)[1..] == s;
    assert TrimStart(" " + s) == TrimStart(s);
  }

  /** A leading "&nbsp;" counts for nothing in a cell. */
  lemma NbspCell(s: string)
    ensures CleanCell("&nbsp;" + s) == CleanCell(s)
  {
    var t := "&nbsp;" + s;
    assert t[..5] == "&nbsp" && t[5] == ';' && t[6..] == s;
    assert ReplaceNbsp(t) == " " + ReplaceNbsp(s);
    var u := ReplaceNbsp(s);
    assert (" " + u)[1..] == u;
    assert StripTags(" " + u) == " " + StripTags(u);
    TrimLeadingSpace(StripTags(u));
  }

  /** A tag, '<' and '>' around at least one other character, is removed with its text. */
  lemma TagStripped(tag: string, s: string)
    requires tag != [] && '>' !in tag
    ensures StripTags("<" + tag + ">" + s) == StripTags(s)
  {
    var t := "<" + tag + ">" + s;
    var rest := tag + ">" + s;
    assert t[1..] == rest;
    assert rest[..|tag|] == tag && rest[|tag|] == '>';
    var close := IndexOf(rest, '>');
    assert close == Some(|tag|);
    assert t[|tag| + 2..] == s;
  }

  // ---------------------------------------------------------------------------
  // extractRaces

  /** A row of ten cells or more whose first cell is a run of digits is a data row. */
  lemma NumberedRowAccepted(cells: seq<string>)
    requires |cells| >= 10 && |cells[0]| > 0
    requires forall k :: 0 <= k < |cells[0]| ==> IsDigit(cells[0][k])
    ensures Accepts(cells)
  {
    ParseIntDigits(cells[0]);
  }

  /** A row yields a race exactly when it is accepted, and then the race of its cells. */
  lemma RowYieldIff(row: seq<string>, startYear: int, endYear: int, r: RaceResult)
    ensures r in RowYield(row, startYear, endYear) <==>
            Accepts(CleanRow(row)) && r == RowRace(CleanRow(row), startYear, endYear)
    ensures |RowYield(row, startYear, endYear)| <= 1
  {
  }

  /** A race comes from one of the rows, and every row's race is there; there are never
      more races than rows. */
  lemma RowsRacesIff(rows: seq<seq<string>>, startYear: int, endYear: int, r: RaceResult)
    ensures r in RowsRaces(rows, startYear, endYear) <==>
            exists i :: 0 <= i < |rows| && r in RowYield(rows[i], startYear, endYear)
    ensures |RowsRaces(rows, startYear, endYear)| <= |rows|
  {
    var f := Yield(startYear, endYear);
    FlatMapIff(rows, f, r);
    forall i | 0 <= i < |rows| ensures |f(rows[i])| <= 1 {
      RowYieldIff(rows[i], startYear, endYear, r);
    }
    FlatMapAtMostOne(rows, f);
  }

  /** The first row of the table never yields a race, whatever it holds: the races are
      those of the rows after it. */
  lemma HeaderIgnored(header: seq<string>, rows: seq<seq<string>>, startYear: int, endYear: int)
    ensures ExtractRaces([header] + rows, startYear, endYear) == RowsRaces(rows, startYear, endYear)
  {
    assert ([header] + rows)[1..] == rows;
  }

  /** Case folding leaves the tag punctuation alone and makes no other character into it. */
  lemma TagPunctuation(c: char)
    ensures LowerChar(c) == '<' ==> c == '<'
    ensures LowerChar(c) == '/' ==> c == '/'
    ensures LowerChar(c) == 't' ==> c == 't' || c == 'T'
  {
  }

  /** A page whose tags are written in capitals. */
  const TitlePage: string := "<HTML><TITLE>Dāvis Pazars</TITLE>"

  /** The title tags of the page enclose the name. */
  lemma TitlePageMatch()
    ensures TitleAt(TitlePage, 6, 25)
  {
    var html := TitlePage;
    assert TagAt(html, 6, "<title>");
    assert TagAt(html, 25, "</title>");
    assert NoLineBreak(html, 13, 25);
  }

  /** No match starts earlier, and none closes sooner. */
  lemma TitlePageFirst()
    ensures FirstTitle(TitlePage, 6, 25)
  {
    var html := TitlePage;
    TitlePageMatch();
    forall a, b | TitleAt(html, a, b) ensures 6 < a || (a == 6 && 25 <= b) {
      assert LowerChar(html[a + 0]) == "<title>"[0] && LowerChar(html[a + 1]) == "<title>"[1];
      TagPunctuation(html[a]);
      TagPunctuation(html[a + 1]);
      assert html[a] == '<' && (html[a + 1] == 't' || html[a + 1] == 'T');
      assert a >= 6;
      if a == 6 {
        assert LowerChar(html[b + 0]) == "</title>"[0];
        TagPunctuation(html[b]);
        assert html[b] == '<';
        assert b >= 25;
      }
    }
  }

  /** The title is found whatever the case of its tags. */
  lemma ExtractNameExample()
    ensures ExtractName(TitlePage) == "Dāvis Pazars"
  {
    TitlePageFirst();
    assert TitlePage[13..25] == "Dāvis Pazars";
  }
}
