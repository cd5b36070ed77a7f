/** Field extraction from the scraped result pages (src/utils/extract_results.ts), over
    text the HTML matching has already cut out: the participant links of a list page, the
    rows and cells of a participant's result table, and the page title. */
module Extract {
  import opened Common
  import opened Text
  import opened Latvian
  import opened Records
  import Comparison
  import opened Collections

  // ---------------------------------------------------------------------------
  // parseDate

  /** MONTH_MAP's keys, the Latvian month names in lowercase, in the order of the months. */
  const MonthNames: seq<string> :=
    ["janvāris", "februāris", "marts", "aprīlis", "maijs", "jūnijs", "jūlijs",
     "augusts", "septembris", "oktobris", "novembris", "decembris"]

  /** The position of name among names, counted from 1, if it is there. */
  function PositionOf(names: seq<string>, name: string): (m: Option<nat>)
    ensures m.Some? ==> 1 <= m.value <= |names| && names[m.value - 1] == name
    ensures m.None? ==> name !in names
    decreases |names|
  {
    if names == [] then None
    else if names[0] == name then Some(1)
    else
      var r := PositionOf(names[1..], name);
      if r.None? then None else Some(r.value + 1)
  }

  /** MONTH_MAP[name]: the number of the month the name names. */
  function MonthNumber(name: string): (m: Option<nat>)
    ensures m.Some? ==> 1 <= m.value <= 12 && MonthNames[m.value - 1] == name
    ensures m.None? ==> name !in MonthNames
  {
    PositionOf(MonthNames, name)
  }

  /** The name MONTH_MAP gives month m. */
  function MonthName(m: nat): string
    requires 1 <= m <= 12
  {
    MonthNames[m - 1]
  }

  /** `${year}-${pad(month)}-${pad(day)}`. */
  function IsoText(year: int, month: nat, day: string): string {
    IntToString(year) + "-" + PadStart2(NatToString(month)) + "-" + PadStart2(day)
  }

  /** parseDate: "<day>.<month name>" to `YYYY-MM-DD`, where July to December take the
      start year of the season and January to June its end year; any other text is
      returned as it is. */
  function ParseDate(dateStr: string, startYear: int, endYear: int): string {
    var parts := Split(Trim(dateStr), '.');
    if |parts| < 2 then dateStr
    else
      var day := Trim(parts[0]);
      var month := MonthNumber(Lower(Trim(parts[1])));
      if month.None? then dateStr
      else IsoText(if month.value >= 7 then startYear else endYear, month.value, day)
  }

  // ---------------------------------------------------------------------------
  // extractRaces

  /** `.replace(/&nbsp;?/g, ' ')`: each "&nbsp;" or "&nbsp" becomes one space. */
  function ReplaceNbsp(s: string): string
    decreases |s|
  {
    if |s| >= 5 && s[..5] == "&nbsp" then
      " " + ReplaceNbsp(if |s| >= 6 && s[5] == ';' then s[6..] else s[5..])
    else if s == [] then []
    else [s[0]] + ReplaceNbsp(s[1..])
  }

  /** The position of the first c in s. */
  function IndexOf(s: string, c: char): (r: Option<nat>)
    ensures r.Some? ==> r.value < |s| && s[r.value] == c && c !in s[..r.value]
    ensures r.None? ==> c !in s
  {
    if s == [] then None
    else if s[0] == c then Some(0)
    else
      var r := IndexOf(s[1..], c);
      if r.None? then None
      else
        assert s[..r.value + 1] == [s[0]] + s[1..][..r.value];
        Some(r.value + 1)
  }

  /** `.replace(/<[^>]+>/g, '')`: from left to right, a '<' followed by at least one
      character other than '>' and then a '>' is removed with them. */
  function StripTags(s: string): string
    decreases |s|
  {
    if s == [] then []
    else
      var close := IndexOf(s[1..], '>');
      if s[0] == '<' && close.Some? && close.value >= 1 then StripTags(s[close.value + 2..])
      else [s[0]] + StripTags(s[1..])
  }

  /** The text of one table cell. */
  function CleanCell(raw: string): string {
    Trim(StripTags(ReplaceNbsp(raw)))
  }

  /** The cells of one row. */
  function CleanRow(raw: seq<string>): seq<string> {
    MapSeq(raw, CleanCell)
  }

  /** A data row: ten cells or more, and a first cell parseInt reads as a number. */
  predicate Accepts(cells: seq<string>) {
    |cells| >= 10 && ParseInt(cells[0]).Some?
  }

  /** The race of an accepted row: cells 1, 5, 8 (as a date) and 9. */
  function RowRace(cells: seq<string>, startYear: int, endYear: int): RaceResult
    requires |cells| >= 10
  {
    RaceResult(ParseDate(cells[8], startYear, endYear), cells[1], cells[5], cells[9], None)
  }

  /** What one row yields: its race when it is accepted, else nothing. */
  function RowYield(row: seq<string>, startYear: int, endYear: int): seq<RaceResult> {
    var cells := CleanRow(row);
    if Accepts(cells) then [RowRace(cells, startYear, endYear)] else []
  }

  /** RowYield for the season's years, as a function of the row. */
  function Yield(startYear: int, endYear: int): seq<string> -> seq<RaceResult> {
    row => RowYield(row, startYear, endYear)
  }

  /** The races of the accepted rows among the given ones, in row order. */
  function RowsRaces(rows: seq<seq<string>>, startYear: int, endYear: int): seq<RaceResult> {
    FlatMap(rows, Yield(startYear, endYear))
  }

  /** extractRaces over the raw cells of the table's rows: the first row is skipped. */
  function ExtractRaces(rows: seq<seq<string>>, startYear: int, endYear: int): seq<RaceResult> {
    if rows == [] then [] else RowsRaces(rows[1..], startYear, endYear)
  }

  // ---------------------------------------------------------------------------
  // extractLinks, extractName

  /** A href starting with "../" becomes baseUrl followed by the rest of the href. */
  function RewriteHref(href: string, baseUrl: string): string {
    if StartsWith(href, "../") then baseUrl + href[3..] else href
  }

  /** How many links a limit lets through out of n; None is the default, Infinity. */
  function LinkCount(limit: Option<int>, n: nat): nat {
    if limit.Some? && limit.value < n then (if limit.value < 0 then 0 else limit.value) else n
  }

  /** A line terminator, the characters `.` does not match. */
  predicate IsLineTerminator(c: char) {
    c == '\n' || c == '\r' || c == '\U{2028}' || c == '\U{2029}'
  }

  /** The tag, written in lowercase, occurs in s at i, ignoring the case of ASCII letters
      as the `i` flag does. */
  predicate TagAt(s: string, i: int, tag: string) {
    0 <= i && i + |tag| <= |s| && forall k :: 0 <= k < |tag| ==> LowerChar(s[i + k]) == tag[k]
  }

  /** No line terminator lies in s[a..b]. */
  predicate NoLineBreak(s: string, a: int, b: int) {
    forall k :: a <= k < b && 0 <= k < |s| ==> !IsLineTerminator(s[k])
  }

  /** `/<title>(.*?)<\/title>/i` matches with the opening tag at i and the closing tag at j. */
  predicate TitleAt(s: string, i: int, j: int) {
    TagAt(s, i, "<title>") && i + 7 <= j && TagAt(s, j, "</title>") && NoLineBreak(s, i + 7, j)
  }

  /** The match `String.prototype.match` returns: the leftmost opening tag, and the nearest
      closing tag after it, since `*?` is lazy. */
  ghost predicate FirstTitle(s: string, i: int, j: int) {
    TitleAt(s, i, j) && forall a, b :: TitleAt(s, a, b) ==> i < a || (i == a && j <= b)
  }

  /** The first closing tag from j on that no line terminator precedes. */
  function CloseFrom(s: string, j: nat): (r: Option<nat>)
    requires j <= |s|
    ensures r.Some? ==> j <= r.value && TagAt(s, r.value, "</title>") && NoLineBreak(s, j, r.value)
    ensures r.Some? ==> forall m :: j <= m < r.value ==> !TagAt(s, m, "</title>")
    ensures r.None? ==> forall m :: j <= m && NoLineBreak(s, j, m) ==> !TagAt(s, m, "</title>")
    decreases |s| - j
  {
    if TagAt(s, j, "</title>") then Some(j)
    else if j == |s| || IsLineTerminator(s[j]) then None
    else CloseFrom(s, j + 1)
  }

  /** The leftmost title match whose opening tag is at i or later. */
  function TitleFrom(s: string, i: nat): (r: Option<(nat, nat)>)
    requires i <= |s|
    ensures r.Some? ==> i <= r.value.0 && TitleAt(s, r.value.0, r.value.1)
    ensures r.Some? ==> forall a, b :: i <= a && TitleAt(s, a, b) ==>
                          r.value.0 < a || (r.value.0 == a && r.value.1 <= b)
    ensures r.None? ==> forall a, b :: i <= a ==> !TitleAt(s, a, b)
    decreases |s| - i
  {
    var close := if i + 7 <= |s| then CloseFrom(s, i + 7) else None;
    if TagAt(s, i, "<title>") && close.Some? then Some((i, close.value))
    else if i == |s| then None
    else TitleFrom(s, i + 1)
  }

  /** extractName: the text between the first `<title>` and the nearest `</title>` after
      it on the same line, or 'Unknown' when the page has no such pair. */
  function ExtractName(html: string): (name: string)
    ensures (forall i, j :: !TitleAt(html, i, j)) ==> name == "Unknown"
    ensures forall i, j :: FirstTitle(html, i, j) ==> name == html[i + 7..j]
  {
    match TitleFrom(html, 0)
    case None => "Unknown"
    case Some((i, j)) =>
      assert FirstTitle(html, i, j);
      html[i + 7..j]
  }

  /** extractLinks over the matched hrefs, in document order: the loop stops at the end
      of the matches or once `limit` links are collected. */
  method ExtractLinks(hrefs: seq<string>, baseUrl: string, limit: Option<int>)
    returns (links: seq<string>)
    ensures |links| == LinkCount(limit, |hrefs|)
    ensures |links| <= |hrefs| && (limit.Some? && limit.value >= 0 ==> |links| <= limit.value)
    ensures forall i :: 0 <= i < |links| && StartsWith(hrefs[i], "../") ==>
              links[i] == baseUrl + hrefs[i][3..]
    ensures forall i :: 0 <= i < |links| && !StartsWith(hrefs[i], "../") ==> links[i] == hrefs[i]
  {
    links := [];
    var i := 0;
    while i < |hrefs| && (limit.None? || |links| < limit.value)
      invariant 0 <= i <= |hrefs| && |links| == i
      invariant i <= LinkCount(limit, |hrefs|)
      invariant forall k :: 0 <= k < i ==> links[k] == RewriteHref(hrefs[k], baseUrl)
    {
      var href := hrefs[i];
      if StartsWith(href, "../") {
        href := href[3..];
        links := links + [baseUrl + href];
      } else {
        links := links + [href];
      }
      i := i + 1;
    }
  }

  /** extractRaces as its loop: the row counter skips the first row, and every other row
      adds the race it yields, if any. */
  method ExtractRacesLoop(rows: seq<seq<string>>, startYear: int, endYear: int)
    returns (participantResults: seq<RaceResult>)
    ensures participantResults == ExtractRaces(rows, startYear, endYear)
  {
    participantResults := [];
    var rowIndex := 0;
    while rowIndex < |rows|
      invariant 0 <= rowIndex <= |rows|
      invariant participantResults == ExtractRaces(rows[..rowIndex], startYear, endYear)
    {
      if rowIndex == 0 {
        ExtractRacesHeader(rows, startYear, endYear);
        rowIndex := rowIndex + 1;
        continue;
      }
      var more := RowRaces(rows[rowIndex], startYear, endYear);
      ExtractRacesStep(rows, rowIndex, startYear, endYear);
      participantResults := participantResults + more;
      rowIndex := rowIndex + 1;
    }
    assert rows[..rowIndex] == rows;
  }

  /** The body for one row after the first: its cells, and the race when the row is
      accepted. */
  method RowRaces(rowHtml: seq<string>, startYear: int, endYear: int)
    returns (more: seq<RaceResult>)
    ensures more == RowYield(rowHtml, startYear, endYear)
  {
    var cells := CellsLoop(rowHtml);
    more := [];
    if |cells| >= 10 && ParseInt(cells[0]).Some? {
      var rawDate := cells[8];
      var formattedDate := ParseDate(rawDate, startYear, endYear);
      more := [RaceResult(formattedDate, cells[1], cells[5], cells[9], None)];
    }
  }

  /** The header row alone yields nothing. */
  lemma ExtractRacesHeader(rows: seq<seq<string>>, startYear: int, endYear: int)
    requires |rows| > 0
    ensures ExtractRaces(rows[..1], startYear, endYear) == []
  {
    assert rows[..1][1..] == [];
  }

  /** One more row after the header adds its race, if it yields one, at the end. */
  lemma ExtractRacesStep(rows: seq<seq<string>>, i: int, startYear: int, endYear: int)
    requires 1 <= i < |rows|
    ensures ExtractRaces(rows[..i + 1], startYear, endYear) ==
            ExtractRaces(rows[..i], startYear, endYear) + RowYield(rows[i], startYear, endYear)
  {
    assert rows[..i + 1][1..] == rows[..i][1..] + [rows[i]];
    FlatMapAppend(rows[..i][1..], rows[i], Yield(startYear, endYear));
  }

  /** The cell loop of one row. */
  method CellsLoop(rowHtml: seq<string>) returns (cells: seq<string>)
    ensures cells == CleanRow(rowHtml)
  {
    cells := [];
    var j := 0;
    while j < |rowHtml|
      invariant 0 <= j <= |rowHtml|
      invariant cells == MapSeq(rowHtml[..j], CleanCell)
    {
      assert rowHtml[..j + 1][..j] == rowHtml[..j];
      var text := CleanCell(rowHtml[j]);
      cells := cells + [text];
      j := j + 1;
    }
    assert rowHtml[..j] == rowHtml;
  }
}
