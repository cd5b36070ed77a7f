/** Properties of the SQL generator: the escaping is a bijection onto the well-formed
    literal bodies, each participant gives one upsert followed by one insert per race with a
    season, and the script can be run again without changing anything or creating
    duplicate races. */
module SqlFacts {
  import opened Common
  import opened Text
  import opened Records
  import opened Collections
  import opened Sql

  // ---------------------------------------------------------------------------
  // escapeSQLString

  /** The escaped text is longer by the number of apostrophes. */
  lemma {:induction false} EscapeLength(s: string)
    ensures |Escape(s)| == |s| + Occurrences(s, '\'')
    decreases |s|
  {
    if s != [] {
      EscapeLength(s[1..]);
    }
  }

  /** Text without apostrophes is left as it is. */
  lemma {:induction false} EscapeNoQuote(s: string)
    requires '\'' !in s
    ensures Escape(s) == s
    decreases |s|
  {
    if s != [] {
      assert s[0] != '\'';
      EscapeNoQuote(s[1..]);
      assert s == [s[0]] + s[1..];
    }
  }

  /** Reading each doubled apostrophe back as one gives the original text. */
  lemma {:induction false} EscapeRoundTrip(s: string)
    ensures Unescape(Escape(s)) == s
    decreases |s|
  {
    if s != [] {
      EscapeRoundTrip(s[1..]);
      var e := Escape(s);
      if s[0] == '\'' {
        assert e == "''" + Escape(s[1..]);
        assert e[2..] == Escape(s[1..]);
      } else {
        assert e == [s[0]] + Escape(s[1..]);
        assert e[1..] == Escape(s[1..]);
      }
      assert s == [s[0]] + s[1..];
    }
  }

  /** The escaped text has no unpaired apostrophe. */
  lemma {:induction false} EscapePaired(s: string)
    ensures Paired(Escape(s))
    decreases |s|
  {
    if s != [] {
      EscapePaired(s[1..]);
      var e := Escape(s);
      if s[0] == '\'' {
        assert e == "''" + Escape(s[1..]);
        assert e[2..] == Escape(s[1..]);
      } else {
        assert e == [s[0]] + Escape(s[1..]);
        assert e[1..] == Escape(s[1..]);
      }
    }
  }

  /** Every text whose apostrophes are paired is the escaping of its unescaped value. */
  lemma {:induction false} PairedIsEscaped(r: string)
    requires Paired(r)
    ensures Escape(Unescape(r)) == r
    decreases |r|
  {
    if r != [] {
      if r[0] != '\'' {
        PairedIsEscaped(r[1..]);
        var u := Unescape(r[1..]);
        assert Unescape(r) == [r[0]] + u;
        assert ([r[0]] + u)[1..] == u;
        assert r == [r[0]] + r[1..];
      } else {
        PairedIsEscaped(r[2..]);
        var u := Unescape(r[2..]);
        assert Unescape(r) == "'" + u;
        assert ("'" + u)[1..] == u;
        assert r == "''" + r[2..];
      }
    }
  }

  /** The escaped texts are exactly the texts whose apostrophes are paired. */
  lemma EscapeImage(r: string)
    ensures Paired(r) <==> exists s :: Escape(s) == r
  {
    if Paired(r) {
      PairedIsEscaped(r);
    }
    if exists s :: Escape(s) == r {
      var s :| Escape(s) == r;
      EscapePaired(s);
    }
  }

  // ---------------------------------------------------------------------------
  // Statements and counts

  /** A participant without a normalized name gives no statement; one with it gives its
      upsert and then, in order, one insert for each of its races that has a season. */
  lemma ParticipantStatementsShape(distance: string, gender: string, p: Participant)
    ensures !HasText(p.normalizedName) ==> ParticipantStatements(distance, gender, p) == []
    ensures HasText(p.normalizedName) ==>
              ParticipantStatements(distance, gender, p) ==
              [Upsert(p.name, PKey(p.normalizedName.value, distance, gender))] +
              MapSeq(SeasonedRaces(p), InsertOf(PKey(p.normalizedName.value, distance, gender)))
  {
    if HasText(p.normalizedName) {
      var key := PKey(p.normalizedName.value, distance, gender);
      forall i | 0 <= i < |p.races|
        ensures RaceStatementsOf(key)(p.races[i]) == MapSeq(SeasonedOne(p.races[i]), InsertOf(key))
      {
        var r := p.races[i];
        if HasText(r.season) {
          assert MapSeq([r], InsertOf(key))[0] == InsertOf(key)(r);
        }
      }
      FlatMapAsMap(p.races, RaceStatementsOf(key), SeasonedOne, InsertOf(key));
    }
  }

  /** The upserts and the inserts of one participant. */
  lemma ParticipantCounts(distance: string, gender: string, p: Participant)
    ensures Upserts(ParticipantStatements(distance, gender, p)) == |KeptOne(p)|
    ensures Inserts(ParticipantStatements(distance, gender, p)) == |KeptRacesOf(p)|
  {
    ParticipantStatementsShape(distance, gender, p);
    if HasText(p.normalizedName) {
      var key := PKey(p.normalizedName.value, distance, gender);
      var head := [Upsert(p.name, key)];
      var inserts := MapSeq(SeasonedRaces(p), InsertOf(key));
      CountWhereConcat(head, inserts, IsUpsert);
      CountWhereConcat(head, inserts, IsInsert);
      CountWhereAllNone(head, IsUpsert);
      CountWhereAllNone(head, IsInsert);
      CountWhereAllNone(inserts, IsUpsert);
      CountWhereAllNone(inserts, IsInsert);
    }
  }

  /** participantCount is the number of participants with a normalized name, and raceCount
      the number of their races with a season. */
  lemma StatementCounts(files: seq<SourceFile>)
    ensures Upserts(Statements(files)) == |FlatMap(files, KeptParticipants)|
    ensures Inserts(Statements(files)) == |FlatMap(files, KeptRaces)|
  {
    forall i | 0 <= i < |files|
      ensures Upserts(FileStatements(files[i])) == |KeptParticipants(files[i])|
      ensures Inserts(FileStatements(files[i])) == |KeptRaces(files[i])|
    {
      var f := files[i];
      var emit := ParticipantStatementsOf(f.distance, GenderOfFile(f.fileName));
      forall j | 0 <= j < |f.participants|
        ensures CountWhere(emit(f.participants[j]), IsUpsert) == |KeptOne(f.participants[j])|
        ensures CountWhere(emit(f.participants[j]), IsInsert) == |KeptRacesOf(f.participants[j])|
      {
        ParticipantCounts(f.distance, GenderOfFile(f.fileName), f.participants[j]);
      }
      CountWhereFlatMap(f.participants, emit, KeptOne, IsUpsert);
      CountWhereFlatMap(f.participants, emit, KeptRacesOf, IsInsert);
    }
    CountWhereFlatMap(files, FileStatements, KeptParticipants, IsUpsert);
    CountWhereFlatMap(files, FileStatements, KeptRaces, IsInsert);
  }

  // ---------------------------------------------------------------------------
  // Running the script

  /** The statement is a race insert whose participant exists and has a race with its date
      and location. */
  predicate Covered(db: Db, st: Statement) {
    st.InsertRace? ==> st.key in db.participants && HasRace(db.races, st.key, st.date, st.location)
  }

  /** Every upserted key is in the map of upserts. */
  lemma {:induction false} UpsertMapHas(stmts: seq<Statement>, j: int)
    requires 0 <= j < |stmts| && stmts[j].Upsert?
    ensures stmts[j].key in UpsertMap(stmts)
    decreases |stmts|
  {
    var n := |stmts| - 1;
    if j < n {
      UpsertMapHas(stmts[..n], j);
    }
  }

  /** After a run, each participant has the name of its last upsert, or its old name. */
  lemma {:induction false} RunParticipants(db: Db, stmts: seq<Statement>)
    ensures Run(db, stmts).participants == db.participants + UpsertMap(stmts)
    decreases |stmts|
  {
    if stmts == [] {
      assert db.participants + map[] == db.participants;
    } else {
      var n := |stmts| - 1;
      RunParticipants(db, stmts[..n]);
    }
  }

  /** A run only adds races at the end. */
  lemma {:induction false} RunRacesGrow(db: Db, stmts: seq<Statement>)
    ensures db.races <= Run(db, stmts).races
    decreases |stmts|
  {
    if stmts != [] {
      var n := |stmts| - 1;
      RunRacesGrow(db, stmts[..n]);
    }
  }

  /** A covered insert stays covered when participants and races are only added. */
  lemma CoveredGrows(d: Db, e: Db, st: Statement)
    requires Covered(d, st)
    requires d.participants.Keys <= e.participants.Keys && d.races <= e.races
    ensures Covered(e, st)
  {
    if st.InsertRace? {
      var i :| 0 <= i < |d.races| && d.races[i].key == st.key && d.races[i].date == st.date &&
               d.races[i].location == st.location;
      assert e.races[i] == d.races[i];
    }
  }

  /** One statement only adds participants and races, and covers itself once its
      participant exists. */
  lemma ExecGrows(d: Db, st: Statement)
    ensures d.participants.Keys <= Exec(d, st).participants.Keys
    ensures d.races <= Exec(d, st).races
    ensures st.InsertRace? && st.key in d.participants ==> Covered(Exec(d, st), st)
  {
    if st.InsertRace? && st.key in d.participants && !HasRace(d.races, st.key, st.date, st.location) {
      var e := Exec(d, st);
      assert e.races[|d.races|] == RaceRow(st.key, st.date, st.result, st.km, st.location, st.season);
    }
  }

  /** UpsertedBefore holds for every prefix. */
  lemma UpsertedBeforePrefix(db: Db, stmts: seq<Statement>, n: int)
    requires UpsertedBefore(db, stmts) && 0 <= n <= |stmts|
    ensures UpsertedBefore(db, stmts[..n])
  {
    var pre := stmts[..n];
    forall i | 0 <= i < n && pre[i].InsertRace?
      ensures pre[i].key in db.participants ||
              exists j :: 0 <= j < i && pre[j].Upsert? && pre[j].key == pre[i].key
    {
      assert pre[i] == stmts[i];
      if pre[i].key !in db.participants {
        var j :| 0 <= j < i && stmts[j].Upsert? && stmts[j].key == stmts[i].key;
        assert pre[j] == stmts[j];
      }
    }
  }

  /** The participant of the last insert exists when that insert runs. */
  lemma LastParticipantExists(db: Db, stmts: seq<Statement>)
    requires UpsertedBefore(db, stmts) && |stmts| > 0 && stmts[|stmts| - 1].InsertRace?
    ensures stmts[|stmts| - 1].key in Run(db, stmts[..|stmts| - 1]).participants
  {
    var n := |stmts| - 1;
    var pre := stmts[..n];
    RunParticipants(db, pre);
    if stmts[n].key !in db.participants {
      var j :| 0 <= j < n && stmts[j].Upsert? && stmts[j].key == stmts[n].key;
      assert pre[j] == stmts[j];
      UpsertMapHas(pre, j);
    }
  }

  /** After a run whose inserts name participants that exist by then, every insert of it
      has its race in the table. */
  lemma {:induction false} RunCovers(db: Db, stmts: seq<Statement>)
    requires UpsertedBefore(db, stmts)
    ensures forall i :: 0 <= i < |stmts| ==> Covered(Run(db, stmts), stmts[i])
    decreases |stmts|
  {
    if stmts != [] {
      var n := |stmts| - 1;
      var pre := stmts[..n];
      UpsertedBeforePrefix(db, stmts, n);
      RunCovers(db, pre);
      var d := Run(db, pre);
      var e := Run(db, stmts);
      ExecGrows(d, stmts[n]);
      forall i | 0 <= i < n ensures Covered(e, stmts[i]) {
        assert stmts[i] == pre[i];
        CoveredGrows(d, e, pre[i]);
      }
      if stmts[n].InsertRace? {
        LastParticipantExists(db, stmts);
      }
    }
  }

  /** Inserts that are all covered change no race. */
  lemma {:induction false} RunCoveredKeepsRaces(d: Db, stmts: seq<Statement>)
    requires forall i :: 0 <= i < |stmts| ==> Covered(d, stmts[i])
    ensures Run(d, stmts).races == d.races
    decreases |stmts|
  {
    if stmts != [] {
      var n := |stmts| - 1;
      var pre := stmts[..n];
      forall i | 0 <= i < n ensures Covered(d, pre[i]) {
        assert pre[i] == stmts[i];
      }
      RunCoveredKeepsRaces(d, pre);
      RunParticipants(d, pre);
      assert Covered(d, stmts[n]);
    }
  }

  /** Running the statements a second time changes nothing, when every insert names a
      participant that exists by the time it runs. */
  lemma RunIdempotent(db: Db, stmts: seq<Statement>)
    requires UpsertedBefore(db, stmts)
    ensures Run(Run(db, stmts), stmts) == Run(db, stmts)
  {
    var d := Run(db, stmts);
    RunCovers(db, stmts);
    RunCoveredKeepsRaces(d, stmts);
    RunParticipants(db, stmts);
    RunParticipants(d, stmts);
    assert d.participants + UpsertMap(stmts) == d.participants;
  }

  /** A race insert adds a race only when no race of that participant has its date and
      location. */
  lemma ExecNoDuplicates(d: Db, st: Statement)
    requires NoDuplicateRaces(d.races)
    ensures NoDuplicateRaces(Exec(d, st).races)
  {
    if st.InsertRace? && st.key in d.participants && !HasRace(d.races, st.key, st.date, st.location) {
      var r := Exec(d, st).races;
      var n := |d.races|;
      assert r[..n] == d.races;
      forall i, j | 0 <= i < |r| && 0 <= j < |r| && SameSlot(r[i], r[j]) ensures i == j {
        assert i < n ==> r[i] == d.races[i];
        assert j < n ==> r[j] == d.races[j];
      }
    }
  }

  /** A run never gives a participant two races with the same date and location. */
  lemma {:induction false} RunNoDuplicates(db: Db, stmts: seq<Statement>)
    requires NoDuplicateRaces(db.races)
    ensures NoDuplicateRaces(Run(db, stmts).races)
    decreases |stmts|
  {
    if stmts != [] {
      var n := |stmts| - 1;
      RunNoDuplicates(db, stmts[..n]);
      ExecNoDuplicates(Run(db, stmts[..n]), stmts[n]);
    }
  }

  // ---------------------------------------------------------------------------
  // The generated script

  /** UpsertedBefore holds for a concatenation when it holds for both parts. */
  lemma UpsertedBeforeConcat(db: Db, a: seq<Statement>, b: seq<Statement>)
    requires UpsertedBefore(db, a) && UpsertedBefore(db, b)
    ensures UpsertedBefore(db, a + b)
  {
    var s := a + b;
    forall i | 0 <= i < |s| && s[i].InsertRace?
      ensures s[i].key in db.participants ||
              exists j :: 0 <= j < i && s[j].Upsert? && s[j].key == s[i].key
    {
      if i < |a| {
        assert s[i] == a[i];
        if a[i].key !in db.participants {
          var j :| 0 <= j < i && a[j].Upsert? && a[j].key == a[i].key;
          assert s[j] == a[j];
        }
      } else {
        var k := i - |a|;
        assert s[i] == b[k];
        if b[k].key !in db.participants {
          var j :| 0 <= j < k && b[j].Upsert? && b[j].key == b[k].key;
          assert s[j + |a|] == b[j];
        }
      }
    }
  }

  /** UpsertedBefore holds for a concatenation of lists that each satisfy it. */
  lemma {:induction false} FlatMapUpsertedBefore<A>(db: Db, s: seq<A>, f: A -> seq<Statement>)
    requires forall i :: 0 <= i < |s| ==> UpsertedBefore(db, f(s[i]))
    ensures UpsertedBefore(db, FlatMap(s, f))
    decreases |s|
  {
    if s != [] {
      var n := |s| - 1;
      assert forall i :: 0 <= i < n ==> s[..n][i] == s[i];
      FlatMapUpsertedBefore(db, s[..n], f);
      UpsertedBeforeConcat(db, FlatMap(s[..n], f), f(s[n]));
    }
  }

  /** The inserts of a participant follow its upsert. */
  lemma ParticipantUpsertedBefore(db: Db, distance: string, gender: string, p: Participant)
    ensures UpsertedBefore(db, ParticipantStatements(distance, gender, p))
  {
    ParticipantStatementsShape(distance, gender, p);
    var s := ParticipantStatements(distance, gender, p);
    forall i | 0 <= i < |s| && s[i].InsertRace?
      ensures s[i].key in db.participants ||
              exists j :: 0 <= j < i && s[j].Upsert? && s[j].key == s[i].key
    {
      assert s[0].Upsert? && s[0].key == s[i].key;
    }
  }

  /** In the generated script every insert follows the upsert of its participant. */
  lemma GeneratedUpsertedBefore(db: Db, files: seq<SourceFile>)
    ensures UpsertedBefore(db, Statements(files))
  {
    forall i | 0 <= i < |files| ensures UpsertedBefore(db, FileStatements(files[i])) {
      var f := files[i];
      var emit := ParticipantStatementsOf(f.distance, GenderOfFile(f.fileName));
      forall j | 0 <= j < |f.participants| ensures UpsertedBefore(db, emit(f.participants[j])) {
        ParticipantUpsertedBefore(db, f.distance, GenderOfFile(f.fileName), f.participants[j]);
      }
      FlatMapUpsertedBefore(db, f.participants, emit);
    }
    FlatMapUpsertedBefore(db, files, FileStatements);
  }

  /** The generated script is safe to run several times: after one run every race insert
      has its race in the table, a second run changes nothing, and no participant ends up
      with two races of the same date and location. */
  lemma ScriptIdempotent(db: Db, files: seq<SourceFile>)
    ensures forall i :: 0 <= i < |Statements(files)| ==>
              Covered(Run(db, Statements(files)), Statements(files)[i])
    ensures Run(Run(db, Statements(files)), Statements(files)) == Run(db, Statements(files))
    ensures NoDuplicateRaces(db.races) ==> NoDuplicateRaces(Run(db, Statements(files)).races)
  {
    GeneratedUpsertedBefore(db, files);
    RunCovers(db, Statements(files));
    RunIdempotent(db, Statements(files));
    if NoDuplicateRaces(db.races) {
      RunNoDuplicates(db, Statements(files));
    }
  }
}
