/** The head-to-head race comparator (src/utils/comparison.ts): finish-time parsing,
    pace, the season a date falls in, and compareRaces, which pairs the races two
    participants ran on the same date, at the same venue, in the same category. */
module Comparison {
  import opened Common
  import opened Text
  import opened Collections

  /** One race of a participant's history. `category` is absent for older records. */
  datatype Race = Race(date: string, result: string, km: string, location: string,
                       season: string, category: Option<string>)

  datatype History = History(name: string, races: seq<Race>)

  /** One row of the comparison: the venue (`race`), the paces in seconds per
      kilometre, their difference, the original time texts and the first distance text. */
  datatype Row = Row(date: string, race: string, season: string, pace1: real, pace2: real,
                     diff: real, p1Time: string, p2Time: string, distance: string)

  // ---------------------------------------------------------------------------
  // parseTime, calculatePace

  /** parseTime: "M:SS" or "H:MM:SS" to seconds; null for an empty or placeholder text,
      for any other number of ':'-separated parts, and when a part does not parse. */
  function ParseTime(timeStr: string): Option<int> {
    if timeStr == "" then None
    else
      var clean := Trim(timeStr);
      if clean == "" || clean == "0" || clean == "x" || clean == "-" then None
      else
        TimeOfParts(Split(clean, ':'))
  }

  /** The seconds of the ':'-separated parts of a time: two parts are minutes and
      seconds, three are hours, minutes and seconds; null otherwise. */
  function TimeOfParts(parts: seq<string>): Option<int> {
    if |parts| == 2 then
      var m := ParseInt(parts[0]);
      var s := ParseInt(parts[1]);
      if m.Some? && s.Some? then Some(m.value * 60 + s.value) else None
    else if |parts| == 3 then
      var h := ParseInt(parts[0]);
      var m := ParseInt(parts[1]);
      var s := ParseInt(parts[2]);
      if h.Some? && m.Some? && s.Some? then Some(h.value * 3600 + m.value * 60 + s.value) else None
    else None
  }

  /** calculatePace: seconds per kilometre, null for a zero distance. */
  function CalculatePace(timeSeconds: int, km: real): (r: Option<real>)
    ensures r.None? <==> km == 0.0
  {
    if km == 0.0 then None else Some(timeSeconds as real / km)
  }

  /** The distance text as compareRaces reads it: the first ',' becomes '.', then parseFloat. */
  function ParseDistance(km: string): Option<real> {
    ParseFloat(ReplaceFirst(km, ',', '.'))
  }

  function Abs(x: real): real { if x < 0.0 then -x else x }

  // ---------------------------------------------------------------------------
  // Dates and seasons

  datatype IsoDate = IsoDate(year: nat, month: nat, day: nat)

  predicate AllDigits(s: string) {
    forall k :: 0 <= k < |s| ==> IsDigit(s[k])
  }

  /** The calendar date in a `YYYY-MM-DD` text (ISO 8601 extended calendar date), read
      straight from its digits; None when the text is not such a date. */
  function ParseIsoDate(date: string): (r: Option<IsoDate>)
    ensures r.Some? ==> 1 <= r.value.month <= 12 && 1 <= r.value.day <= 31
  {
    if |date| == 10 && date[4] == '-' && date[7] == '-' &&
       AllDigits(date[..4]) && AllDigits(date[5..7]) && AllDigits(date[8..])
    then
      var m := DigitsValue(date[5..7]);
      var d := DigitsValue(date[8..]);
      if 1 <= m <= 12 && 1 <= d <= 31 then Some(IsoDate(DigitsValue(date[..4]), m, d)) else None
    else None
  }

  /** The label of the season that starts in the autumn of `startYear`. */
  function SeasonLabel(startYear: int): string {
    IntToString(startYear) + "-" + IntToString(startYear + 1)
  }

  /** deriveSeasonFromDate: November and December open the season of their year; January
      to October close the season that began the year before. A text that is not a date
      gives the label JavaScript prints for NaN years. */
  function DeriveSeason(date: string): string {
    match ParseIsoDate(date)
    case None => "NaN-NaN"
    case Some(d) => if d.month >= 11 then SeasonLabel(d.year) else SeasonLabel(d.year - 1)
  }

  /** The key the output is sorted by: chronological for valid dates. */
  function DateKey(date: string): int {
    match ParseIsoDate(date)
    case None => 0
    case Some(d) => d.year * 10000 + d.month * 100 + d.day
  }

  // ---------------------------------------------------------------------------
  // compareRaces

  /** The category a race is compared under: its own, trimmed, or 'Tautas' when absent. */
  function EffectiveCategory(category: Option<string>): string {
    if category.None? || category.value == "" then "Tautas" else Trim(category.value)
  }

  /** The composite key `date|trimmedLocation|category`, as a tuple. */
  datatype RaceKey = RaceKey(date: string, location: string, category: string)

  function KeyOf(r: Race): RaceKey {
    RaceKey(r.date, Trim(r.location), EffectiveCategory(r.category))
  }

  /** p2RacesMap: every race of the second history under its key; a later race with the
      same key replaces an earlier one. */
  function IndexOf(races: seq<Race>): map<RaceKey, Race> {
    IndexBy(races, KeyOf)
  }

  /** The checks compareRaces makes on a pair of races that share a key: the trimmed
      venues agree, both distances parse to positive numbers less than 0.5 km apart, and
      both finish times parse. */
  predicate Comparable(r1: Race, r2: Race) {
    var dist1 := ParseDistance(r1.km);
    var dist2 := ParseDistance(r2.km);
    Trim(r1.location) == Trim(r2.location) &&
    dist1.Some? && dist2.Some? && dist1.value > 0.0 && dist2.value > 0.0 &&
    Abs(dist1.value - dist2.value) < 0.5 &&
    ParseTime(r1.result).Some? && ParseTime(r2.result).Some?
  }

  /** The row pushed for a comparable pair. */
  function MakeRow(r1: Race, r2: Race): Row
    requires Comparable(r1, r2)
  {
    var pace1 := CalculatePace(ParseTime(r1.result).value, ParseDistance(r1.km).value).value;
    var pace2 := CalculatePace(ParseTime(r2.result).value, ParseDistance(r2.km).value).value;
    Row(r1.date, r1.location, DeriveSeason(r1.date), pace1, pace2, pace1 - pace2,
        r1.result, r2.result, r1.km)
  }

  /** The row one race of the first history yields against the index, if any. */
  function Match(r1: Race, p2: map<RaceKey, Race>, category: string): Option<Row> {
    var key := KeyOf(r1);
    if key.category != category || key !in p2 || !Comparable(r1, p2[key]) then None
    else Some(MakeRow(r1, p2[key]))
  }

  /** The rows of the first history's races, in their order, before sorting. */
  function Matched(races: seq<Race>, p2: map<RaceKey, Race>, category: string): seq<Row>
    decreases |races|
  {
    if races == [] then []
    else
      Matched(races[..|races| - 1], p2, category) +
      match Match(races[|races| - 1], p2, category)
      case Some(row) => [row]
      case None => []
  }

  lemma MatchedStep(races: seq<Race>, j: nat, p2: map<RaceKey, Race>, category: string)
    requires j < |races|
    ensures Matched(races[..j + 1], p2, category) ==
            Matched(races[..j], p2, category) +
            (if Match(races[j], p2, category).Some? then [Match(races[j], p2, category).value] else [])
  {
    assert races[..j + 1][..j] == races[..j];
  }

  /** The sort key of a row: the chronological key of its date. */
  function RowDateKey(row: Row): int {
    DateKey(row.date)
  }

  /** Array.prototype.sort by date, a stable sort. */
  function SortByDate(rows: seq<Row>): seq<Row> {
    SortBy(rows, RowDateKey)
  }

  /** The result of compareRaces, as a function of the two histories. */
  function CommonRaces(hist1: History, hist2: History, category: string): seq<Row> {
    SortByDate(Matched(hist1.races, IndexOf(hist2.races), category))
  }

  /** The forEach over the second history that fills p2RacesMap. */
  method IndexRaces(races: seq<Race>) returns (p2RacesMap: map<RaceKey, Race>)
    ensures p2RacesMap == IndexOf(races)
  {
    p2RacesMap := map[];
    var i := 0;
    while i < |races|
      invariant 0 <= i <= |races|
      invariant p2RacesMap == IndexOf(races[..i])
    {
      var r := races[i];
      var key := RaceKey(r.date, Trim(r.location), EffectiveCategory(r.category));
      p2RacesMap := p2RacesMap[key := r];
      assert races[..i + 1][..i] == races[..i];
      i := i + 1;
    }
    assert races[..i] == races;
  }

  /** The loop over the first history that collects commonRaces. */
  method CollectRows(races: seq<Race>, p2RacesMap: map<RaceKey, Race>, category: string)
    returns (commonRaces: seq<Row>)
    ensures commonRaces == Matched(races, p2RacesMap, category)
  {
    commonRaces := [];
    var j := 0;
    while j < |races|
      invariant 0 <= j <= |races|
      invariant commonRaces == Matched(races[..j], p2RacesMap, category)
    {
      var r1 := races[j];
      MatchedStep(races, j, p2RacesMap, category);
      j := j + 1;
      var cat1 := EffectiveCategory(r1.category);
      var loc1 := Trim(r1.location);
      var key := RaceKey(r1.date, loc1, cat1);
      if cat1 == category && key in p2RacesMap {
        var r2 := p2RacesMap[key];
        var loc2 := Trim(r2.location);
        var time1 := ParseTime(r1.result);
        var time2 := ParseTime(r2.result);
        var dist1 := ParseDistance(r1.km);
        var dist2 := ParseDistance(r2.km);
        if loc1 == loc2 && dist1.Some? && dist2.Some? && dist1.value > 0.0 && dist2.value > 0.0 &&
           Abs(dist1.value - dist2.value) < 0.5 && time1.Some? && time2.Some?
        {
          commonRaces := commonRaces + [MakeRow(r1, r2)];
        }
      }
    }
    assert races[..j] == races;
  }

  /** compareRaces: index the second history, collect the rows of the first one, sort
      them by date. */
  method CompareRaces(hist1: History, hist2: History, category: string) returns (rows: seq<Row>)
    ensures rows == CommonRaces(hist1, hist2, category)
  {
    var p2RacesMap := IndexRaces(hist2.races);
    var commonRaces := CollectRows(hist1.races, p2RacesMap, category);
    rows := SortByDate(commonRaces);
  }
}
