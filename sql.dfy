/** The SQL generator (scripts/pipeline/3-generate-sql.ts): every normalized results file
    becomes an idempotent script of participant upserts and guarded race inserts. The
    statements are kept as values, with their text and their effect on the two tables. */
module Sql {
  import opened Common
  import opened Text
  import opened Records
  import opened Collections

  // ---------------------------------------------------------------------------
  // escapeSQLString

  /** escapeSQLString: every apostrophe doubled, the quote-doubling of a character string
      literal (section 5.3 of ISO/IEC 9075-2). */
  function Escape(s: string): string
    decreases |s|
  {
    if s == [] then [] else (if s[0] == '\'' then "''" else [s[0]]) + Escape(s[1..])
  }

  /** The value a literal body stands for: each doubled apostrophe is one apostrophe. */
  function Unescape(s: string): string
    decreases |s|
  {
    if s == [] then []
    else if |s| >= 2 && s[0] == '\'' && s[1] == '\'' then "'" + Unescape(s[2..])
    else [s[0]] + Unescape(s[1..])
  }

  /** Apostrophes come in adjacent pairs, as inside a quoted literal. */
  predicate Paired(s: string)
    decreases |s|
  {
    s == [] ||
    (s[0] != '\'' && Paired(s[1..])) ||
    (|s| >= 2 && s[0] == '\'' && s[1] == '\'' && Paired(s[2..]))
  }

  /** A literal: the escaped text between apostrophes. */
  function Quote(s: string): string {
    "'" + Escape(s) + "'"
  }

  // ---------------------------------------------------------------------------
  // Statements

  /** A string field that JavaScript finds truthy: present and not empty. */
  predicate HasText(v: Option<string>) {
    v.Some? && v.value != ""
  }

  /** The unique key of the participants table: normalized_name, distance, gender. */
  datatype PKey = PKey(normalizedName: string, distance: string, gender: string)

  /** The two statements the script is made of. */
  datatype Statement =
    | Upsert(name: string, key: PKey)
    | InsertRace(key: PKey, date: string, result: string, km: string, location: string,
                 season: string)

  /** The insert of a race for the participant with the key. */
  function InsertOf(key: PKey): RaceResult -> Statement {
    (race: RaceResult) => InsertRace(key, race.datums, race.result, race.km, race.vieta,
                       if race.season.Some? then race.season.value else "")
  }

  /** The insert for one race of the participant with the key; none without a season. */
  function RaceStatements(key: PKey, race: RaceResult): seq<Statement> {
    if HasText(race.season) then [InsertOf(key)(race)] else []
  }

  function RaceStatementsOf(key: PKey): RaceResult -> seq<Statement> {
    (race: RaceResult) => RaceStatements(key, race)
  }

  /** The statements for one participant: none without a normalized name, else the upsert
      and then the inserts of its races. */
  function ParticipantStatements(distance: string, gender: string, p: Participant): seq<Statement> {
    if !HasText(p.normalizedName) then []
    else
      var key := PKey(p.normalizedName.value, distance, gender);
      [Upsert(p.name, key)] + FlatMap(p.races, RaceStatementsOf(key))
  }

  function ParticipantStatementsOf(distance: string, gender: string): Participant -> seq<Statement> {
    (p: Participant) => ParticipantStatements(distance, gender, p)
  }

  /** The statements for one results file, under its distance directory and the gender its
      name gives. */
  function FileStatements(f: SourceFile): seq<Statement> {
    FlatMap(f.participants, ParticipantStatementsOf(f.distance, GenderOfFile(f.fileName)))
  }

  /** The statements for all files, in the order of the directory walk. */
  function Statements(files: seq<SourceFile>): seq<Statement> {
    FlatMap(files, FileStatements)
  }

  predicate IsUpsert(st: Statement) { st.Upsert? }

  predicate IsInsert(st: Statement) { st.InsertRace? }

  /** participantCount: the number of upserts. */
  function Upserts(stmts: seq<Statement>): nat {
    CountWhere(stmts, IsUpsert)
  }

  /** raceCount: the number of race inserts. */
  function Inserts(stmts: seq<Statement>): nat {
    CountWhere(stmts, IsInsert)
  }

  /** The participants with a normalized name. */
  function KeptOne(p: Participant): seq<Participant> {
    if HasText(p.normalizedName) then [p] else []
  }

  function KeptParticipants(f: SourceFile): seq<Participant> {
    FlatMap(f.participants, KeptOne)
  }

  /** The races with a season. */
  function SeasonedOne(race: RaceResult): seq<RaceResult> {
    if HasText(race.season) then [race] else []
  }

  function SeasonedRaces(p: Participant): seq<RaceResult> {
    FlatMap(p.races, SeasonedOne)
  }

  /** The races with a season of a participant with a normalized name. */
  function KeptRacesOf(p: Participant): seq<RaceResult> {
    if HasText(p.normalizedName) then SeasonedRaces(p) else []
  }

  function KeptRaces(f: SourceFile): seq<RaceResult> {
    FlatMap(f.participants, KeptRacesOf)
  }

  // ---------------------------------------------------------------------------
  // The script text

  /** The text of one statement; distance and gender go in unescaped. */
  function Render(st: Statement): string {
    match st
    case Upsert(name, key) =>
      "INSERT INTO participants (name, distance, gender, normalized_name)\n" +
      "VALUES (" + Quote(name) + ", '" + key.distance + "', '" + key.gender + "', " +
      Quote(key.normalizedName) + ")\n" +
      "ON CONFLICT(normalized_name, distance, gender)\n" +
      "DO UPDATE SET name = excluded.name;\n\n"
    case InsertRace(key, date, result, km, location, season) =>
      "INSERT INTO races (participant_id, date, result, km, location, season)\n" +
      "SELECT p.id, " + Quote(date) + ", " + Quote(result) + ", " + Quote(km) + ", " +
      Quote(location) + ", " + Quote(season) + "\n" +
      "FROM participants p\n" +
      "WHERE p.normalized_name = " + Quote(key.normalizedName) + "\n" +
      "  AND p.distance = '" + key.distance + "'\n" +
      "  AND p.gender = '" + key.gender + "'\n" +
      "AND NOT EXISTS (\n" +
      "  SELECT 1 FROM races r\n" +
      "  WHERE r.participant_id = p.id\n" +
      "    AND r.date = " + Quote(date) + "\n" +
      "    AND r.location = " + Quote(location) + "\n" +
      ");\n\n"
  }

  /** The script: the statements' texts one after another. */
  function Script(stmts: seq<Statement>): string {
    FlatMap(stmts, Render)
  }

  // ---------------------------------------------------------------------------
  // What the statements do

  /** A row of the races table; the participant is named by its unique key. */
  datatype RaceRow = RaceRow(key: PKey, date: string, result: string, km: string,
                             location: string, season: string)

  /** The two tables: the name of each participant under its unique key, and the races in
      insertion order. */
  datatype Db = Db(participants: map<PKey, string>, races: seq<RaceRow>)

  /** Some race of the participant has that date and location. */
  predicate HasRace(races: seq<RaceRow>, key: PKey, date: string, location: string) {
    exists i :: 0 <= i < |races| && races[i].key == key && races[i].date == date &&
                races[i].location == location
  }

  /** One statement: the upsert inserts the participant or, on a conflict of its key,
      updates the name; the race insert selects the participant of the key and adds the
      race unless the participant already has a race with that date and location. */
  function Exec(db: Db, st: Statement): Db {
    match st
    case Upsert(name, key) => Db(db.participants[key := name], db.races)
    case InsertRace(key, date, result, km, location, season) =>
      if key in db.participants && !HasRace(db.races, key, date, location) then
        Db(db.participants, db.races + [RaceRow(key, date, result, km, location, season)])
      else db
  }

  /** The script run statement by statement. */
  function Run(db: Db, stmts: seq<Statement>): Db
    decreases |stmts|
  {
    if stmts == [] then db else Exec(Run(db, stmts[..|stmts| - 1]), stmts[|stmts| - 1])
  }

  /** The name each upsert leaves under its key, the last one winning. */
  function UpsertMap(stmts: seq<Statement>): map<PKey, string>
    decreases |stmts|
  {
    if stmts == [] then map[]
    else
      var m := UpsertMap(stmts[..|stmts| - 1]);
      var st := stmts[|stmts| - 1];
      if st.Upsert? then m[st.key := st.name] else m
  }

  /** Two races of the same participant on the same date at the same location. */
  predicate SameSlot(a: RaceRow, b: RaceRow) {
    a.key == b.key && a.date == b.date && a.location == b.location
  }

  /** No two races of a participant share a date and a location. */
  predicate NoDuplicateRaces(races: seq<RaceRow>) {
    forall i, j :: 0 <= i < |races| && 0 <= j < |races| && SameSlot(races[i], races[j]) ==> i == j
  }

  /** Every race insert names a participant that exists before it runs: one in the table
      already or one an earlier statement upserts. */
  predicate UpsertedBefore(db: Db, stmts: seq<Statement>) {
    forall i :: 0 <= i < |stmts| && stmts[i].InsertRace? ==>
      stmts[i].key in db.participants ||
      exists j :: 0 <= j < i && stmts[j].Upsert? && stmts[j].key == stmts[i].key
  }
}
