/** The duplicate detector (scripts/check_duplicates.ts): every participant of every
    results file is grouped across seasons by lowered search-folded name, distance and
    gender, and the groups with more than one member and more than one distinct spelling
    are reported. */
module Duplicates {
  import opened Common
  import opened Text
  import opened Latvian
  import opened LatvianVariants
  import opened OrderedMaps
  import opened Records

  /** A ParticipantRecord of the script. */
  datatype DupRecord = DupRecord(name: string, season: string, distance: string,
                                 gender: string, link: string)

  /** The group key `normalized|distance|gender`, as a tuple. */
  datatype DupKey = DupKey(normalized: string, distance: string, gender: string)

  type DupGroups = OrderedMap<DupKey, DupRecord>

  /** The gender rule as the script writes it: 'men' is checked before 'women', so the
      'women' branch is never taken. */
  function GenderAsWritten(fileName: string): string {
    if Includes(fileName, "men") then "V" else if Includes(fileName, "women") then "S" else "U"
  }

  /** Which gender rule the load uses: the script's own, or the corrected one the other
      scripts use, which checks 'women' first. */
  datatype GenderRule = MenFirst | WomenFirst

  function FileGender(rule: GenderRule, fileName: string): string {
    match rule
    case MenFirst => GenderAsWritten(fileName)
    case WomenFirst => GenderOfFile(fileName)
  }

  /** The records one file contributes, with the gender the rule reads from its name. */
  function FileRecords(f: SourceFile, rule: GenderRule): (r: seq<DupRecord>)
    ensures |r| == |f.participants|
    ensures forall i :: 0 <= i < |r| ==>
              r[i] == DupRecord(f.participants[i].name, f.season, f.distance,
                                FileGender(rule, f.fileName), f.participants[i].link)
    decreases |f.participants|
  {
    if f.participants == [] then []
    else
      var n := |f.participants| - 1;
      var p := f.participants[n];
      FileRecords(SourceFile(f.season, f.distance, f.fileName, f.participants[..n]), rule) +
      [DupRecord(p.name, f.season, f.distance, FileGender(rule, f.fileName), p.link)]
  }

  /** The participants array after the directory walk. */
  function LoadedRecords(files: seq<SourceFile>, rule: GenderRule): seq<DupRecord>
    decreases |files|
  {
    if files == [] then []
    else LoadedRecords(files[..|files| - 1], rule) + FileRecords(files[|files| - 1], rule)
  }

  function DupKeyOf(p: DupRecord): DupKey {
    DupKey(Lower(SearchFold(p.name)), p.distance, p.gender)
  }

  /** The groups Map. */
  function GroupRecords(recs: seq<DupRecord>): DupGroups {
    GroupBy(recs, DupKeyOf)
  }

  /** `new Set(group.map(p => p.name))`. */
  function NameSet(group: seq<DupRecord>): set<string> {
    set p | p in group :: p.name
  }

  /** A group is reported: more than one member and more than one distinct spelling. */
  predicate IsDuplicate(group: seq<DupRecord>) {
    |group| > 1 && |NameSet(group)| > 1
  }

  /** The duplicates Map over the given keys of the groups, in key order. */
  function DuplicatesOf(g: DupGroups, ks: seq<DupKey>): DupGroups
    decreases |ks|
  {
    if ks == [] then Empty()
    else
      var rest := DuplicatesOf(g, ks[..|ks| - 1]);
      var k := ks[|ks| - 1];
      if k in g.entries && IsDuplicate(g.entries[k]) then Extend(rest, k, g.entries[k]) else rest
  }

  /** The duplicates Map of the script. */
  function DuplicateGroups(recs: seq<DupRecord>): DupGroups {
    DuplicatesOf(GroupRecords(recs), GroupRecords(recs).keys)
  }

  // ---------------------------------------------------------------------------
  // Properties

  /** The rule as written classifies no file as women's, and the women's results file as
      men's. */
  lemma GenderAsWrittenNeverWomen(fileName: string)
    ensures GenderAsWritten(fileName) != "S"
    ensures GenderAsWritten("results_women.json") == "V"
  {
    if Includes(fileName, "women") {
      WomenContainsMen(fileName);
    }
    assert OccursAt("results_women.json", "men", 10);
  }

  /** The groups partition the loaded participants: their sizes add up to the number of
      participants. */
  lemma GroupsPartition(recs: seq<DupRecord>)
    ensures Total(GroupRecords(recs)) == |recs|
    ensures Valid(GroupRecords(recs))
  {
    GroupByTotal(recs, DupKeyOf);
    CollectByValid(recs, DupKeyOf, Singleton);
  }

  /** Two records share a key exactly when their names agree after folding and lowering and
      their distance and gender agree; the season plays no part. The key agrees with the
      key of the normalization pass, lower(normalizeLatvian(name)). */
  lemma SameKeyIff(p: DupRecord, q: DupRecord)
    ensures DupKeyOf(p) == DupKeyOf(q) <==>
              Lower(Fold(p.name)) == Lower(Fold(q.name)) && p.distance == q.distance &&
              p.gender == q.gender
  {
    LowerOfSearchFold(p.name);
    LowerOfSearchFold(q.name);
  }

  /** A group holds exactly the records of its key: records from different seasons with the
      same folded name, distance and gender share a group, and records of different
      distances never do. */
  lemma GroupsByKey(recs: seq<DupRecord>, k: DupKey, p: DupRecord)
    requires k in GroupRecords(recs).entries
    ensures p in GroupRecords(recs).entries[k] <==> p in recs && DupKeyOf(p) == k
    ensures forall q :: q in GroupRecords(recs).entries[k] ==> q.distance == k.distance
  {
    InGroup(recs, DupKeyOf, k, p);
    forall q | q in GroupRecords(recs).entries[k] ensures q.distance == k.distance {
      InGroup(recs, DupKeyOf, k, q);
    }
  }

  /** The duplicates Map holds exactly the groups that are duplicates, each unchanged. */
  lemma {:induction false} DuplicatesOfIff(g: DupGroups, ks: seq<DupKey>)
    requires Distinct(ks)
    ensures Valid(DuplicatesOf(g, ks))
    ensures forall k :: k in DuplicatesOf(g, ks).entries <==>
              k in ks && k in g.entries && IsDuplicate(g.entries[k])
    ensures forall k :: k in DuplicatesOf(g, ks).entries ==> DuplicatesOf(g, ks).entries[k] == g.entries[k]
    decreases |ks|
  {
    if ks != [] {
      var n := |ks| - 1;
      assert Distinct(ks[..n]);
      DuplicatesOfIff(g, ks[..n]);
      assert ks[n] !in ks[..n];
      ExtendValid(DuplicatesOf(g, ks[..n]), ks[n], if ks[n] in g.entries then g.entries[ks[n]] else []);
      assert ks == ks[..n] + [ks[n]];
    }
  }

  /** A group is reported exactly when it has more than one member and more than one
      distinct spelling. */
  lemma DuplicateGroupsIff(recs: seq<DupRecord>)
    ensures Valid(DuplicateGroups(recs))
    ensures forall k :: k in DuplicateGroups(recs).entries <==>
              k in GroupRecords(recs).entries && IsDuplicate(GroupRecords(recs).entries[k])
    ensures forall k :: k in DuplicateGroups(recs).entries ==>
              DuplicateGroups(recs).entries[k] == GroupRecords(recs).entries[k]
  {
    CollectByValid(recs, DupKeyOf, Singleton);
    DuplicatesOfIff(GroupRecords(recs), GroupRecords(recs).keys);
  }

  /** Records that all spell the name alike are never reported. */
  lemma IdenticalNamesNotReported(group: seq<DupRecord>, name: string)
    requires forall p :: p in group ==> p.name == name
    ensures !IsDuplicate(group)
  {
    if |group| > 1 {
      assert group[0] in group;
      assert NameSet(group) == {name};
    }
  }

  /** Every participant of every file is among the loaded records. */
  lemma {:induction false} InLoaded(files: seq<SourceFile>, rule: GenderRule, x: int, i: int)
    requires 0 <= x < |files| && 0 <= i < |files[x].participants|
    ensures FileRecords(files[x], rule)[i] in LoadedRecords(files, rule)
    decreases |files|
  {
    var n := |files| - 1;
    if x < n {
      InLoaded(files[..n], rule, x, i);
      assert files[..n][x] == files[x];
    }
  }

  /** Two distinct spellings in one group make it a duplicate group. */
  lemma TwoSpellingsDuplicate(group: seq<DupRecord>, p: DupRecord, q: DupRecord)
    requires p in group && q in group && p.name != q.name
    ensures IsDuplicate(group)
  {
    var names := NameSet(group);
    var rest := names - {q.name};
    assert p.name in rest;
    assert names == rest + {q.name} && rest * {q.name} == {};
  }

  /** With the rule as written, a women's results file and a men's results file of the
      same distance, holding names that agree after folding and lowering, give records with
      one key: both are read as men's. With the corrected rule the keys differ. */
  lemma WomenShareMenKey(w: SourceFile, m: SourceFile, i: int, j: int)
    requires Includes(w.fileName, "women")
    requires Includes(m.fileName, "men") && !Includes(m.fileName, "women")
    requires w.distance == m.distance
    requires 0 <= i < |w.participants| && 0 <= j < |m.participants|
    requires Lower(Fold(w.participants[i].name)) == Lower(Fold(m.participants[j].name))
    ensures DupKeyOf(FileRecords(w, MenFirst)[i]) == DupKeyOf(FileRecords(m, MenFirst)[j])
    ensures DupKeyOf(FileRecords(w, WomenFirst)[i]) != DupKeyOf(FileRecords(m, WomenFirst)[j])
  {
    WomenContainsMen(w.fileName);
    SameKeyIff(FileRecords(w, MenFirst)[i], FileRecords(m, MenFirst)[j]);
  }

  /** The consequence of the rule as written: a woman's record and a man's record of the
      same distance whose names differ only in diacritics or case are reported together
      as one duplicate group. */
  lemma WomenReportedWithMen(files: seq<SourceFile>, x: int, i: int, y: int, j: int)
    requires 0 <= x < |files| && 0 <= y < |files|
    requires Includes(files[x].fileName, "women")
    requires Includes(files[y].fileName, "men") && !Includes(files[y].fileName, "women")
    requires files[x].distance == files[y].distance
    requires 0 <= i < |files[x].participants| && 0 <= j < |files[y].participants|
    requires files[x].participants[i].name != files[y].participants[j].name
    requires Lower(Fold(files[x].participants[i].name)) == Lower(Fold(files[y].participants[j].name))
    ensures var recs := LoadedRecords(files, MenFirst);
            var k := DupKeyOf(FileRecords(files[x], MenFirst)[i]);
            k in DuplicateGroups(recs).entries &&
            FileRecords(files[x], MenFirst)[i] in DuplicateGroups(recs).entries[k] &&
            FileRecords(files[y], MenFirst)[j] in DuplicateGroups(recs).entries[k]
  {
    var recs := LoadedRecords(files, MenFirst);
    var p := FileRecords(files[x], MenFirst)[i];
    var q := FileRecords(files[y], MenFirst)[j];
    WomenShareMenKey(files[x], files[y], i, j);
    InLoaded(files, MenFirst, x, i);
    InLoaded(files, MenFirst, y, j);
    var k := DupKeyOf(p);
    GroupByMembers(recs, DupKeyOf);
    assert k in GroupRecords(recs).entries;
    InGroup(recs, DupKeyOf, k, p);
    InGroup(recs, DupKeyOf, k, q);
    TwoSpellingsDuplicate(GroupRecords(recs).entries[k], p, q);
    DuplicateGroupsIff(recs);
  }
}

/** The script's main as the loops it is written with. */
module DuplicatesRun {
  import opened Common
  import opened OrderedMaps
  import opened Records
  import opened Duplicates
  import opened Text

  /** The load loop, the grouping loop and the duplicate filter of main. */
  method CheckDuplicates(files: seq<SourceFile>)
    returns (participants: seq<DupRecord>, groups: DupGroups, duplicates: DupGroups)
    ensures participants == LoadedRecords(files, MenFirst)
    ensures groups == GroupRecords(participants)
    ensures duplicates == DuplicateGroups(participants)
  {
    participants := LoadAll(files);
    groups := GroupByLoop(participants, DupKeyOf);
    CollectByValid(participants, DupKeyOf, Singleton);
    duplicates := FilterDuplicates(groups);
  }

  /** `for (const [key, group] of groups.entries())`: the groups with more than one member
      and more than one distinct spelling, in key order. */
  method FilterDuplicates(groups: DupGroups) returns (duplicates: DupGroups)
    requires Valid(groups)
    ensures duplicates == DuplicatesOf(groups, groups.keys)
  {
    duplicates := Empty();
    var k := 0;
    while k < |groups.keys|
      invariant 0 <= k <= |groups.keys|
      invariant duplicates == DuplicatesOf(groups, groups.keys[..k])
    {
      var key := groups.keys[k];
      var group := groups.entries[key];
      assert groups.keys[..k + 1][..k] == groups.keys[..k];
      if |group| > 1 {
        var uniqueNames := set p | p in group :: p.name;
        if |uniqueNames| > 1 {
          duplicates := Extend(duplicates, key, group);
        }
      }
      k := k + 1;
    }
    assert groups.keys[..k] == groups.keys;
  }

  /** The walk over seasons, distances and files, pushing one record per participant. */
  method LoadAll(files: seq<SourceFile>) returns (participants: seq<DupRecord>)
    ensures participants == LoadedRecords(files, MenFirst)
  {
    participants := [];
    var i := 0;
    while i < |files|
      invariant 0 <= i <= |files|
      invariant participants == LoadedRecords(files[..i], MenFirst)
    {
      var f := files[i];
      var gender := if Includes(f.fileName, "men") then "V"
                    else if Includes(f.fileName, "women") then "S" else "U";
      ghost var before := participants;
      var j := 0;
      while j < |f.participants|
        invariant 0 <= j <= |f.participants|
        invariant participants == before + FileRecords(f, MenFirst)[..j]
      {
        var p := f.participants[j];
        participants := participants + [DupRecord(p.name, f.season, f.distance, gender, p.link)];
        assert FileRecords(f, MenFirst)[..j + 1] == FileRecords(f, MenFirst)[..j] + [FileRecords(f, MenFirst)[j]];
        j := j + 1;
      }
      assert FileRecords(f, MenFirst)[..j] == FileRecords(f, MenFirst);
      assert files[..i + 1][..i] == files[..i];
      i := i + 1;
    }
    assert files[..i] == files;
  }
}
