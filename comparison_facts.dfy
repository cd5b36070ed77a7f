/** Properties of the race comparator: how finish times and distances are read, what the
    season label says about the date, and that compareRaces returns exactly the rows of
    the compared pairs, in date order. */
module ComparisonFacts {
  import opened Common
  import opened Text
  import opened Comparison
  import opened Collections

  // ---------------------------------------------------------------------------
  // Finish times and distances

  /** A trimmed time of at least three characters is read part by part. */
  lemma ParseTimeTrimmed(t: string)
    requires |t| >= 3 && Trim(t) == t
    ensures ParseTime(t) == TimeOfParts(Split(t, ':'))
  {
  }

  lemma TwoPartsShape(a: string, b: string)
    requires a != [] && b != [] && !IsSpace(a[0]) && !IsSpace(b[|b| - 1])
    requires ':' !in a && ':' !in b
    ensures Trim(a + ":" + b) == a + ":" + b
    ensures Split(a + ":" + b, ':') == [a, b]
  {
    var t := a + ":" + b;
    assert t[0] == a[0] && t[|t| - 1] == b[|b| - 1];
    TrimNoSpaceEnds(t);
    assert t == a + [':'] + b;
    SplitAfter(a, ':', b);
    SplitNoSep(b, ':');
  }

  lemma ThreePartsTrimmed(h: string, m: string, s: string)
    requires h != [] && s != [] && !IsSpace(h[0]) && !IsSpace(s[|s| - 1])
    ensures Trim(h + ":" + m + ":" + s) == h + ":" + m + ":" + s
  {
    var t := h + ":" + m + ":" + s;
    assert t[0] == h[0] && t[|t| - 1] == s[|s| - 1];
    TrimNoSpaceEnds(t);
  }

  lemma ThreePartsSplit(h: string, m: string, s: string)
    requires ':' !in h && ':' !in m && ':' !in s
    ensures Split(h + ":" + m + ":" + s, ':') == [h, m, s]
  {
    assert h + ":" + m + ":" + s == h + [':'] + (m + [':'] + s);
    SplitAfter(h, ':', m + [':'] + s);
    SplitAfter(m, ':', s);
    SplitNoSep(s, ':');
  }

  /** "a:b" with no further ':' reads as a * 60 + b when both parts parse as integers,
      and as null when either does not. */
  lemma ParseTimeTwoParts(a: string, b: string)
    requires a != [] && b != [] && !IsSpace(a[0]) && !IsSpace(b[|b| - 1])
    requires ':' !in a && ':' !in b
    ensures ParseTime(a + ":" + b) ==
            if ParseInt(a).Some? && ParseInt(b).Some? then Some(ParseInt(a).value * 60 + ParseInt(b).value)
            else None
  {
    TwoPartsShape(a, b);
    ParseTimeTrimmed(a + ":" + b);
  }

  /** "h:m:s" with no further ':' reads as h * 3600 + m * 60 + s when all three parts
      parse as integers, and as null when any does not. */
  lemma ParseTimeThreeParts(h: string, m: string, s: string)
    requires h != [] && s != [] && !IsSpace(h[0]) && !IsSpace(s[|s| - 1])
    requires ':' !in h && ':' !in m && ':' !in s
    ensures ParseTime(h + ":" + m + ":" + s) ==
            if ParseInt(h).Some? && ParseInt(m).Some? && ParseInt(s).Some?
            then Some(ParseInt(h).value * 3600 + ParseInt(m).value * 60 + ParseInt(s).value)
            else None
  {
    var t := h + ":" + m + ":" + s;
    ThreePartsTrimmed(h, m, s);
    ThreePartsSplit(h, m, s);
    assert |t| >= 3;
    ParseTimeTrimmed(t);
    TimeOfThreeParts(h, m, s);
  }

  lemma TimeOfThreeParts(h: string, m: string, s: string)
    ensures TimeOfParts([h, m, s]) ==
            if ParseInt(h).Some? && ParseInt(m).Some? && ParseInt(s).Some?
            then Some(ParseInt(h).value * 3600 + ParseInt(m).value * 60 + ParseInt(s).value)
            else None
  {
    var parts := [h, m, s];
    assert |parts| == 3 && parts[0] == h && parts[1] == m && parts[2] == s;
  }

  /** parseTime gives null for an empty or placeholder text, and it gives a number only
      when the trimmed text holds one or two ':'. */
  lemma ParseTimeNull(t: string)
    ensures Trim(t) in {"", "0", "x", "-"} ==> ParseTime(t).None?
    ensures ParseTime(t).Some? ==> Occurrences(Trim(t), ':') == 1 || Occurrences(Trim(t), ':') == 2
  {
    SplitJoin(Trim(t), ':');
  }

  /** The pace times the distance gives back the time. */
  lemma PaceTimesDistance(timeSeconds: int, km: real)
    requires km != 0.0
    ensures CalculatePace(timeSeconds, km).value * km == timeSeconds as real
  {
  }

  /** A run of digits has no space at either end, holds no ':', and parses to its value. */
  lemma DigitRun(d: string)
    requires d != [] && AllDigits(d)
    ensures !IsSpace(d[0]) && !IsSpace(d[|d| - 1]) && ':' !in d
    ensures ParseInt(d) == Some(DigitsValue(d))
  {
    DigitNotSpace(d[0]);
    DigitNotSpace(d[|d| - 1]);
    DigitsExclude(d, ':');
    ParseIntDigits(d);
  }

  lemma DigitNotSpace(c: char)
    requires IsDigit(c)
    ensures !IsSpace(c)
  {
  }

  /** "a:b" in digits reads as a minutes and b seconds. */
  lemma MinutesSeconds(a: string, b: string)
    requires a != [] && b != [] && AllDigits(a) && AllDigits(b)
    ensures ParseTime(a + ":" + b) == Some(DigitsValue(a) * 60 + DigitsValue(b))
  {
    DigitRun(a);
    DigitRun(b);
    ParseTimeTwoParts(a, b);
  }

  lemma TwoDigits(d: string)
    requires |d| == 2 && AllDigits(d)
    ensures DigitsValue(d) == DigitValue(d[0]) * 10 + DigitValue(d[1])
  {
    assert DigitsValue(d) == DigitsValue(d[..1]) * 10 + DigitValue(d[1]);
    assert DigitsValue(d[..1]) == DigitsValue(d[..1][..0]) * 10 + DigitValue(d[0]);
  }

  /** The two-digit runs of the worked example's finish times. */
  lemma ExampleDigits(d: string, v: nat)
    requires (d == "52" && v == 52) || (d == "09" && v == 9) || (d == "41" && v == 41) || (d == "02" && v == 2)
    ensures DigitsValue(d) == v
  {
    TwoDigits(d);
  }

  /** The first finish time of the worked example, in seconds. */
  lemma FirstTimeExample()
    ensures ParseTime("52:09") == Some(3129)
  {
    ExampleDigits("52", 52);
    ExampleDigits("09", 9);
    assert "52" + ":" + "09" == "52:09";
    MinutesSeconds("52", "09");
  }

  /** The second finish time of the worked example, in seconds. */
  lemma SecondTimeExample()
    ensures ParseTime("41:02") == Some(2462)
  {
    ExampleDigits("41", 41);
    ExampleDigits("02", 2);
    assert "41" + ":" + "02" == "41:02";
    MinutesSeconds("41", "02");
  }

  /** "10,0" reads as ten kilometres. */
  lemma DistanceExample()
    ensures ParseDistance("10,0") == Some(10.0)
  {
    var ip, fp := "10", "0";
    assert ip + "," + fp == "10,0";
    ParseDistanceComma(ip, fp);
    TenValue();
  }

  lemma TenValue()
    ensures DecimalValue("10", "0") == 10.0
  {
    assert Pow10(0) == 1;
    assert Pow10(1) == 10;
    assert DigitsValue("10") == 10 && DigitsValue("0") == 0;
  }

  /** The two races of the worked example are compared. */
  lemma ExampleComparable(date: string)
    ensures Comparable(Race(date, "52:09", "10,0", "Smiltene", "2023-2024", Some("Tautas")),
                       Race(date, "41:02", "10,0", "Smiltene", "2023-2024", Some("Tautas")))
  {
    FirstTimeExample();
    SecondTimeExample();
    DistanceExample();
  }

  /** The worked example of the comparison view: on any date, 52:09 against 41:02 over
      10,0 km at the same venue gives paces of 312.9 and 246.2 seconds per kilometre, 66.7
      apart. */
  lemma PaceExample(date: string)
    ensures var r1 := Race(date, "52:09", "10,0", "Smiltene", "2023-2024", Some("Tautas"));
            var r2 := Race(date, "41:02", "10,0", "Smiltene", "2023-2024", Some("Tautas"));
            Comparable(r1, r2) && MakeRow(r1, r2).pace1 == 312.9 && MakeRow(r1, r2).pace2 == 246.2 &&
            MakeRow(r1, r2).diff == 66.7
  {
    ExampleComparable(date);
    FirstTimeExample();
    SecondTimeExample();
    DistanceExample();
  }

  /** A distance written with a decimal comma reads as the same number written with a point. */
  lemma ParseDistanceComma(ip: string, fp: string)
    requires |ip| > 0 && AllDigits(ip) && AllDigits(fp)
    ensures ParseDistance(ip + "," + fp) == ParseDistance(ip + "." + fp) == Some(DecimalValue(ip, fp))
  {
    var comma, point := ip + "," + fp, ip + "." + fp;
    DigitsExclude(ip, ',');
    DigitsExclude(ip, '.');
    SeparatorText(ip, fp);
    ReplaceFirstAfter(ip, ',', '.', fp);
    NoCommaAfterPoint(ip, fp);
    ReplaceFirstNone(point, ',', '.');
    ParseFloatDecimal(ip, fp);
    assert ReplaceFirst(comma, ',', '.') == point;
  }

  lemma SeparatorText(ip: string, fp: string)
    ensures ip + "," + fp == ip + [','] + fp
    ensures ip + "." + fp == ip + ['.'] + fp
  {
  }

  lemma NoCommaAfterPoint(ip: string, fp: string)
    requires AllDigits(ip) && AllDigits(fp)
    ensures ',' !in ip + "." + fp
  {
    var t := ip + "." + fp;
    forall k | 0 <= k < |t| ensures t[k] != ',' {
      if k < |ip| {
        assert t[k] == ip[k];
      } else if k > |ip| {
        assert t[k] == fp[k - |ip| - 1];
      }
    }
  }

  // ---------------------------------------------------------------------------
  // Seasons and dates

  /** The season label names the year the date is written with: as the first year of the
      season for a November or December date, as the second year for any other month; the
      other year is the adjacent one. A year written without a leading zero appears in the
      label exactly as the date writes it. */
  lemma SeasonNamesDateYear(date: string)
    requires ParseIsoDate(date).Some?
    ensures var d := ParseIsoDate(date).value;
            d.year == DigitsValue(date[..4]) && d.month == DigitsValue(date[5..7]) &&
            DeriveSeason(date) == if d.month >= 11 then IntToString(d.year) + "-" + IntToString(d.year + 1)
                                  else IntToString(d.year - 1) + "-" + IntToString(d.year)
    ensures date[0] != '0' ==> IntToString(ParseIsoDate(date).value.year) == date[..4]
  {
    var y := date[..4];
    if date[0] != '0' {
      assert y[0] == date[0];
      NatToStringOfDigits(y);
    }
  }

  /** The sort key orders valid dates chronologically, and two valid dates share a key
      only when they are the same date. */
  lemma DateKeyChronological(a: string, b: string)
    requires ParseIsoDate(a).Some? && ParseIsoDate(b).Some?
    ensures var x := ParseIsoDate(a).value;
            var y := ParseIsoDate(b).value;
            (DateKey(a) < DateKey(b) <==>
              x.year < y.year || (x.year == y.year && x.month < y.month) ||
              (x.year == y.year && x.month == y.month && x.day < y.day)) &&
            (DateKey(a) == DateKey(b) <==> x == y)
  {
  }

  // ---------------------------------------------------------------------------
  // The rows

  /** Each row comes from one race of the list. */
  lemma {:induction false} MatchedSound(races: seq<Race>, p2: map<RaceKey, Race>, category: string, k: int)
    requires 0 <= k < |Matched(races, p2, category)|
    ensures exists i :: 0 <= i < |races| && Match(races[i], p2, category) == Some(Matched(races, p2, category)[k])
    decreases |races|
  {
    var n := |races| - 1;
    var prefix := races[..n];
    if k < |Matched(prefix, p2, category)| {
      MatchedSound(prefix, p2, category, k);
      var i :| 0 <= i < |prefix| && Match(prefix[i], p2, category) == Some(Matched(prefix, p2, category)[k]);
      assert races[i] == prefix[i];
    } else {
      assert Match(races[n], p2, category) == Some(Matched(races, p2, category)[k]);
    }
  }

  /** Each race that yields a row has its row in the list. */
  lemma {:induction false} MatchedComplete(races: seq<Race>, p2: map<RaceKey, Race>, category: string, i: int)
    requires 0 <= i < |races| && Match(races[i], p2, category).Some?
    ensures Match(races[i], p2, category).value in Matched(races, p2, category)
    decreases |races|
  {
    var n := |races| - 1;
    if i < n {
      MatchedComplete(races[..n], p2, category, i);
      assert races[..n][i] == races[i];
    }
  }

  /** Match against one index and category, as a function of the race. */
  function Matcher(p2: map<RaceKey, Race>, category: string): Race -> Option<Row> {
    r => Match(r, p2, category)
  }

  /** The positions of the races that yield a row, in order. */
  function Yielding(races: seq<Race>, p2: map<RaceKey, Race>, category: string): seq<int> {
    PresentAt(races, Matcher(p2, category))
  }

  /** The collected rows are the rows the races yield. */
  lemma {:induction false} MatchedPresent(races: seq<Race>, p2: map<RaceKey, Race>, category: string)
    ensures Matched(races, p2, category) == Present(races, Matcher(p2, category))
    decreases |races|
  {
    if races != [] {
      MatchedPresent(races[..|races| - 1], p2, category);
    }
  }

  /** One row per race that yields one, in race order: row k comes from race src[k], the
      positions strictly increase, and a race has a position exactly when it yields a row. */
  lemma MatchedOnePerRace(races: seq<Race>, p2: map<RaceKey, Race>, category: string)
    ensures var rows := Matched(races, p2, category);
            var src := Yielding(races, p2, category);
            |src| == |rows| <= |races| &&
            (forall k :: 0 <= k < |src| ==>
               0 <= src[k] < |races| && Match(races[src[k]], p2, category) == Some(rows[k])) &&
            (forall k, l :: 0 <= k < l < |src| ==> src[k] < src[l]) &&
            (forall i :: 0 <= i < |races| ==> (Match(races[i], p2, category).Some? <==> i in src))
  {
    var f := Matcher(p2, category);
    MatchedPresent(races, p2, category);
    PresentAtShape(races, f);
    forall k | 0 <= k < |PresentAt(races, f)|
      ensures Match(races[PresentAt(races, f)[k]], p2, category) == Some(Present(races, f)[k])
    {
      PresentAtValue(races, f, k);
    }
    forall i | 0 <= i < |races|
      ensures Match(races[i], p2, category).Some? <==> i in PresentAt(races, f)
    {
      PresentAtComplete(races, f, i);
    }
  }

  // ---------------------------------------------------------------------------
  // compareRaces

  /** Race i of the first history and race j of the second are compared: race i is in the
      requested category, race j is the last race of the second history with the same date,
      trimmed venue and category, and their distances and times qualify. */
  predicate ComparedPair(hist1: History, hist2: History, category: string, i: int, j: int) {
    0 <= i < |hist1.races| && LastWithKey(hist2.races, KeyOf, j) &&
    EffectiveCategory(hist1.races[i].category) == category &&
    KeyOf(hist1.races[i]) == KeyOf(hist2.races[j]) &&
    Comparable(hist1.races[i], hist2.races[j])
  }

  /** What a row from Match says about the race and the index. */
  lemma MatchSome(r1: Race, p2: map<RaceKey, Race>, category: string)
    requires Match(r1, p2, category).Some?
    ensures KeyOf(r1) in p2 && KeyOf(r1).category == category
    ensures Comparable(r1, p2[KeyOf(r1)])
    ensures Match(r1, p2, category).value == MakeRow(r1, p2[KeyOf(r1)])
  {
  }

  /** Every row of compareRaces is the row Match gives one race of the first history. */
  lemma RowOfSomeRace(hist1: History, hist2: History, category: string, row: Row)
    requires row in CommonRaces(hist1, hist2, category)
    ensures exists i :: 0 <= i < |hist1.races| && Match(hist1.races[i], IndexOf(hist2.races), category) == Some(row)
  {
    var p2 := IndexOf(hist2.races);
    var matched := Matched(hist1.races, p2, category);
    SortBySortsAndPermutes(matched, RowDateKey);
    assert row in multiset(matched);
    var k :| 0 <= k < |matched| && matched[k] == row;
    MatchedSound(hist1.races, p2, category, k);
  }

  /** The race of the second history a matched race of the first one was compared with. */
  lemma PartnerOf(hist1: History, hist2: History, category: string, i: int)
    requires 0 <= i < |hist1.races| && Match(hist1.races[i], IndexOf(hist2.races), category).Some?
    ensures exists j :: ComparedPair(hist1, hist2, category, i, j) &&
                        Match(hist1.races[i], IndexOf(hist2.races), category).value ==
                        MakeRow(hist1.races[i], hist2.races[j])
  {
    var r1 := hist1.races[i];
    var p2 := IndexOf(hist2.races);
    MatchSome(r1, p2, category);
    var key := KeyOf(r1);
    IndexByKeys(hist2.races, KeyOf, key);
    var j :| LastWithKey(hist2.races, KeyOf, j) && KeyOf(hist2.races[j]) == key;
    IndexByLast(hist2.races, KeyOf, j);
    assert ComparedPair(hist1, hist2, category, i, j);
  }

  /** Every row of compareRaces is the row of a compared pair. */
  lemma ComparisonSound(hist1: History, hist2: History, category: string, row: Row)
    requires row in CommonRaces(hist1, hist2, category)
    ensures exists i, j :: ComparedPair(hist1, hist2, category, i, j) &&
                           row == MakeRow(hist1.races[i], hist2.races[j])
  {
    RowOfSomeRace(hist1, hist2, category, row);
    var i :| 0 <= i < |hist1.races| && Match(hist1.races[i], IndexOf(hist2.races), category) == Some(row);
    PartnerOf(hist1, hist2, category, i);
  }

  /** Every compared pair has its row among the rows of compareRaces. */
  lemma ComparisonComplete(hist1: History, hist2: History, category: string, i: int, j: int)
    requires ComparedPair(hist1, hist2, category, i, j)
    ensures MakeRow(hist1.races[i], hist2.races[j]) in CommonRaces(hist1, hist2, category)
  {
    var p2 := IndexOf(hist2.races);
    IndexByLast(hist2.races, KeyOf, j);
    assert Match(hist1.races[i], p2, category) == Some(MakeRow(hist1.races[i], hist2.races[j]));
    MatchedComplete(hist1.races, p2, category, i);
    var matched := Matched(hist1.races, p2, category);
    SortBySortsAndPermutes(matched, RowDateKey);
    assert MakeRow(hist1.races[i], hist2.races[j]) in multiset(matched);
  }

  /** compareRaces returns the rows of the races of the first history that yield one, one
      row per such race, sorted by date; rows of the same date keep the order of their
      races. */
  lemma ComparisonShape(hist1: History, hist2: History, category: string)
    ensures multiset(CommonRaces(hist1, hist2, category)) ==
            multiset(Matched(hist1.races, IndexOf(hist2.races), category))
    ensures |CommonRaces(hist1, hist2, category)| ==
            |Yielding(hist1.races, IndexOf(hist2.races), category)| <= |hist1.races|
    ensures SortedBy(CommonRaces(hist1, hist2, category), RowDateKey)
    ensures forall v :: WithKey(CommonRaces(hist1, hist2, category), RowDateKey, v) ==
                        WithKey(Matched(hist1.races, IndexOf(hist2.races), category), RowDateKey, v)
  {
    var matched := Matched(hist1.races, IndexOf(hist2.races), category);
    forall v ensures WithKey(SortByDate(matched), RowDateKey, v) == WithKey(matched, RowDateKey, v) {
      SortByStable(matched, RowDateKey, v);
    }
    MatchedPresent(hist1.races, IndexOf(hist2.races), category);
    PresentAtShape(hist1.races, Matcher(IndexOf(hist2.races), category));
    SortBySortsAndPermutes(matched, RowDateKey);
    assert |SortByDate(matched)| == |multiset(SortByDate(matched))|;
  }
}
