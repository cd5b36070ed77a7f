/** generateSQL (scripts/pipeline/3-generate-sql.ts) as the nested loops it is written with:
    the `sql` text and the two counters grow statement by statement. */
module SqlRun {
  import opened Common
  import opened Records
  import opened Collections
  import opened Sql

  /** The text and the two counters after items, starting from sql0, pc0 and rc0: each item
      appends its text and counts under the predicates it satisfies. */
  predicate TalliedBy<S>(text: S -> string, counted: S -> bool, raced: S -> bool,
                         sql0: string, pc0: nat, rc0: nat, items: seq<S>,
                         sql: string, participantCount: nat, raceCount: nat) {
    sql == sql0 + FlatMap(items, text) &&
    participantCount == pc0 + CountWhere(items, counted) &&
    raceCount == rc0 + CountWhere(items, raced)
  }

  /** The script text and the two counters of generateSQL after stmts. */
  predicate Tallied(sql0: string, pc0: nat, rc0: nat, stmts: seq<Statement>,
                    sql: string, participantCount: nat, raceCount: nat) {
    TalliedBy(Render, IsUpsert, IsInsert, sql0, pc0, rc0, stmts, sql, participantCount, raceCount)
  }

  /** Tallying a and then b from where a ended tallies a + b. */
  lemma TalliedConcat<S>(text: S -> string, counted: S -> bool, raced: S -> bool,
                         sql0: string, pc0: nat, rc0: nat, a: seq<S>,
                         sql1: string, pc1: nat, rc1: nat, b: seq<S>,
                         sql2: string, pc2: nat, rc2: nat)
    requires TalliedBy(text, counted, raced, sql0, pc0, rc0, a, sql1, pc1, rc1)
    requires TalliedBy(text, counted, raced, sql1, pc1, rc1, b, sql2, pc2, rc2)
    ensures TalliedBy(text, counted, raced, sql0, pc0, rc0, a + b, sql2, pc2, rc2)
  {
    FlatMapConcat(a, b, text);
    CountWhereConcat(a, b, counted);
    CountWhereConcat(a, b, raced);
  }

  /** One item adds its text and counts once. */
  lemma TalliedOne<S>(text: S -> string, counted: S -> bool, raced: S -> bool,
                      sql0: string, pc0: nat, rc0: nat, st: S)
    ensures TalliedBy(text, counted, raced, sql0, pc0, rc0, [st], sql0 + text(st),
                      pc0 + (if counted(st) then 1 else 0), rc0 + (if raced(st) then 1 else 0))
  {
    FlatMapOne(st, text);
    CountWhereOne(st, counted);
    CountWhereOne(st, raced);
  }

  /** Nothing tallied leaves everything as it was. */
  lemma TalliedNone<S>(text: S -> string, counted: S -> bool, raced: S -> bool,
                       sql0: string, pc0: nat, rc0: nat)
    ensures TalliedBy(text, counted, raced, sql0, pc0, rc0, [], sql0, pc0, rc0)
  {
  }

  /** A loop over items that tallies f of each item in turn: tallying f of item k after the
      first k items tallies the first k + 1. */
  lemma TalliedStep<A, S>(text: S -> string, counted: S -> bool, raced: S -> bool,
                          sql0: string, pc0: nat, rc0: nat, items: seq<A>, k: nat,
                          f: A -> seq<S>, sql1: string, pc1: nat, rc1: nat,
                          sql2: string, pc2: nat, rc2: nat)
    requires k < |items|
    requires TalliedBy(text, counted, raced, sql0, pc0, rc0, FlatMap(items[..k], f), sql1, pc1, rc1)
    requires TalliedBy(text, counted, raced, sql1, pc1, rc1, f(items[k]), sql2, pc2, rc2)
    ensures TalliedBy(text, counted, raced, sql0, pc0, rc0, FlatMap(items[..k + 1], f), sql2, pc2, rc2)
  {
    TalliedConcat(text, counted, raced, sql0, pc0, rc0, FlatMap(items[..k], f), sql1, pc1, rc1,
                  f(items[k]), sql2, pc2, rc2);
    assert items[..k + 1] == items[..k] + [items[k]];
    FlatMapAppend(items[..k], items[k], f);
  }

  /** generateSQL over the files the directory walk finds: the text of all statements, the
      number of upserts and the number of race inserts. */
  method GenerateSql(files: seq<SourceFile>)
    returns (sql: string, participantCount: nat, raceCount: nat)
    ensures sql == Script(Statements(files))
    ensures participantCount == Upserts(Statements(files))
    ensures raceCount == Inserts(Statements(files))
  {
    sql := "";
    participantCount := 0;
    raceCount := 0;
    TalliedNone(Render, IsUpsert, IsInsert, "", 0, 0);
    var i := 0;
    while i < |files|
      invariant 0 <= i <= |files|
      invariant Tallied("", 0, 0, FlatMap(files[..i], FileStatements), sql, participantCount, raceCount)
    {
      var f := files[i];
      var gender := GenderOfFile(f.fileName);
      ghost var sql1, pc1, rc1 := sql, participantCount, raceCount;
      sql, participantCount, raceCount :=
        EmitParticipants(sql, participantCount, raceCount, f.distance, gender, f.participants);
      TalliedStep(Render, IsUpsert, IsInsert, "", 0, 0, files, i, FileStatements, sql1, pc1, rc1, sql, participantCount, raceCount);
      i := i + 1;
    }
    assert files[..i] == files;
  }

  /** `for (const p of participants)` of one file. */
  method EmitParticipants(sql0: string, pc0: nat, rc0: nat, distance: string, gender: string,
                          participants: seq<Participant>)
    returns (sql: string, participantCount: nat, raceCount: nat)
    ensures Tallied(sql0, pc0, rc0, FlatMap(participants, ParticipantStatementsOf(distance, gender)),
                    sql, participantCount, raceCount)
  {
    sql, participantCount, raceCount := sql0, pc0, rc0;
    var emit := ParticipantStatementsOf(distance, gender);
    TalliedNone(Render, IsUpsert, IsInsert, sql0, pc0, rc0);
    var j := 0;
    while j < |participants|
      invariant 0 <= j <= |participants|
      invariant Tallied(sql0, pc0, rc0, FlatMap(participants[..j], emit), sql, participantCount, raceCount)
    {
      ghost var sql1, pc1, rc1 := sql, participantCount, raceCount;
      sql, participantCount, raceCount :=
        EmitParticipant(sql, participantCount, raceCount, distance, gender, participants[j]);
      TalliedStep(Render, IsUpsert, IsInsert, sql0, pc0, rc0, participants, j, emit, sql1, pc1, rc1, sql, participantCount, raceCount);
      j := j + 1;
    }
    assert participants[..j] == participants;
  }

  /** The body for one participant: skipped without a normalized name, else its upsert and
      then the inserts of its races. */
  method EmitParticipant(sql0: string, pc0: nat, rc0: nat, distance: string, gender: string,
                         p: Participant)
    returns (sql: string, participantCount: nat, raceCount: nat)
    ensures Tallied(sql0, pc0, rc0, ParticipantStatements(distance, gender, p),
                    sql, participantCount, raceCount)
  {
    if !HasText(p.normalizedName) {
      sql, participantCount, raceCount := sql0, pc0, rc0;
      TalliedNone(Render, IsUpsert, IsInsert, sql0, pc0, rc0);
      return;
    }
    var key := PKey(p.normalizedName.value, distance, gender);
    var upsert := Upsert(p.name, key);
    TalliedOne(Render, IsUpsert, IsInsert, sql0, pc0, rc0, upsert);
    var sql1 := sql0 + Render(upsert);
    var pc1 := pc0 + 1;
    sql, participantCount, raceCount := EmitRaces(sql1, pc1, rc0, key, p.races);
    TalliedConcat(Render, IsUpsert, IsInsert, sql0, pc0, rc0, [upsert], sql1, pc1, rc0, FlatMap(p.races, RaceStatementsOf(key)),
                  sql, participantCount, raceCount);
  }

  /** `for (const race of p.races)`: an insert for each race with a season. */
  method EmitRaces(sql0: string, pc0: nat, rc0: nat, key: PKey, races: seq<RaceResult>)
    returns (sql: string, participantCount: nat, raceCount: nat)
    ensures Tallied(sql0, pc0, rc0, FlatMap(races, RaceStatementsOf(key)),
                    sql, participantCount, raceCount)
  {
    sql, participantCount, raceCount := sql0, pc0, rc0;
    TalliedNone(Render, IsUpsert, IsInsert, sql0, pc0, rc0);
    var k := 0;
    while k < |races|
      invariant 0 <= k <= |races|
      invariant Tallied(sql0, pc0, rc0, FlatMap(races[..k], RaceStatementsOf(key)),
                        sql, participantCount, raceCount)
    {
      ghost var sql1, pc1, rc1 := sql, participantCount, raceCount;
      sql, participantCount, raceCount := EmitRace(sql, participantCount, raceCount, key, races[k]);
      TalliedStep(Render, IsUpsert, IsInsert, sql0, pc0, rc0, races, k, RaceStatementsOf(key),
                  sql1, pc1, rc1, sql, participantCount, raceCount);
      k := k + 1;
    }
    assert races[..k] == races;
  }

  /** The body for one race: the guarded insert when the race has a season (the races
      normalizeData wrote all have one). */
  method EmitRace(sql0: string, pc0: nat, rc0: nat, key: PKey, race: RaceResult)
    returns (sql: string, participantCount: nat, raceCount: nat)
    ensures Tallied(sql0, pc0, rc0, RaceStatementsOf(key)(race), sql, participantCount, raceCount)
  {
    sql, participantCount, raceCount := sql0, pc0, rc0;
    if HasText(race.season) {
      var insert := InsertRace(key, race.datums, race.result, race.km, race.vieta, race.season.value);
      TalliedOne(Render, IsUpsert, IsInsert, sql, participantCount, raceCount, insert);
      sql := sql + Render(insert);
      raceCount := raceCount + 1;
      assert RaceStatementsOf(key)(race) == [insert];
    } else {
      TalliedNone(Render, IsUpsert, IsInsert, sql, participantCount, raceCount);
      assert RaceStatementsOf(key)(race) == [];
    }
  }
}
