/** normalizeData (scripts/pipeline/2-normalize-data.ts) as the loops it is written with:
    loading, cross-gender repair and write-back, each proved to compute the functions of
    module Normalize. */
module NormalizePass {
  import opened Common
  import opened Latvian
  import opened Records
  import opened OrderedMaps
  import opened Normalize
  import opened NormalizeFacts

  // ---------------------------------------------------------------------------
  // The pass

  /** Step 1: every participant of every file goes into the registry under its key. */
  method LoadRegistry(files: seq<SourceFile>) returns (registry: Registry, totalParticipants: nat)
    ensures registry == Loaded(files)
    ensures totalParticipants == |LoadedRecords(files)|
  {
    registry := Empty();
    totalParticipants := 0;
    var i := 0;
    while i < |files|
      invariant 0 <= i <= |files|
      invariant registry == GroupBy(LoadedRecords(files[..i]), RecordKey)
      invariant totalParticipants == |LoadedRecords(files[..i])|
    {
      registry, totalParticipants :=
        LoadFile(registry, totalParticipants, LoadedRecords(files[..i]), files[i]);
      LoadedStep(files, i);
      i := i + 1;
    }
    assert files[..i] == files;
  }

  /** The inner loop of step 1 over the participants of one file. */
  method LoadFile(registry0: Registry, total0: nat, ghost loaded: seq<ParticipantRecord>, f: SourceFile)
    returns (registry: Registry, totalParticipants: nat)
    requires registry0 == GroupBy(loaded, RecordKey)
    ensures registry == GroupBy(loaded + FileRecords(f), RecordKey)
    ensures totalParticipants == total0 + |FileRecords(f)|
  {
    registry, totalParticipants := registry0, total0;
    var gender := GenderOfFile(f.fileName);
    assert loaded + FileRecords(f)[..0] == loaded;
    var j := 0;
    while j < |f.participants|
      invariant 0 <= j <= |f.participants|
      invariant registry == GroupBy(loaded + FileRecords(f)[..j], RecordKey)
      invariant totalParticipants == total0 + j
    {
      var p := f.participants[j];
      totalParticipants := totalParticipants + 1;
      var key := RegKey(NormalizedName(p.name), f.distance, gender);
      var rec := ParticipantRecord(p.name, p.link, p.races, f.season, f.distance, gender);
      registry := Extend(registry, key, [rec]);
      LoadParticipantStep(loaded, f, j);
      j := j + 1;
    }
    assert FileRecords(f)[..j] == FileRecords(f);
  }

  /** Step 1.5, the loop over the registry: each men's group whose women's key exists is
      appended to the women's group with gender 'S', and its key is noted for removal. */
  method MoveMenToWomen(registry0: Registry)
    returns (registry: Registry, keysToRemove: seq<RegKey>, crossGenderMerges: nat)
    requires Valid(registry0)
    ensures registry == MergeMen(registry0, registry0.keys)
    ensures keysToRemove == KeysToRemove(registry0, registry0.keys)
    ensures crossGenderMerges == CrossGenderMerges(registry0, registry0.keys)
  {
    registry := registry0;
    crossGenderMerges := 0;
    keysToRemove := [];
    var i := 0;
    while i < |registry0.keys|
      invariant 0 <= i <= |registry0.keys|
      invariant registry == MergeMen(registry0, registry0.keys[..i])
      invariant registry.entries.Keys == registry0.entries.Keys
      invariant keysToRemove == KeysToRemove(registry0, registry0.keys[..i])
      invariant crossGenderMerges == CrossGenderMerges(registry0, registry0.keys[..i])
    {
      var key := registry0.keys[i];
      assert registry0.keys[..i + 1] == registry0.keys[..i] + [key];
      RepairStep(registry0, registry0.keys[..i], key);
      MergeMenKeeps(registry0, registry0.keys[..i]);
      var group := registry.entries[key];
      if key.gender == "V" {
        var womenKey := RegKey(key.normalized, key.distance, "S");
        if womenKey in registry.entries {
          registry := Extend(registry, womenKey, AsWomen(group));
          keysToRemove := keysToRemove + [key];
          crossGenderMerges := crossGenderMerges + |group|;
        }
      }
      i := i + 1;
    }
    assert registry0.keys[..i] == registry0.keys;
  }

  /** Step 1.5, the removal loop. */
  method RemoveKeys(registry0: Registry, keysToRemove: seq<RegKey>) returns (registry: Registry)
    ensures registry == DeleteAll(registry0, keysToRemove)
  {
    registry := registry0;
    var r := 0;
    while r < |keysToRemove|
      invariant 0 <= r <= |keysToRemove|
      invariant registry == DeleteAll(registry0, keysToRemove[..r])
    {
      registry := Delete(registry, keysToRemove[r]);
      assert keysToRemove[..r + 1] == keysToRemove[..r] + [keysToRemove[r]];
      DeleteStep(registry0, keysToRemove[..r], keysToRemove[r]);
      r := r + 1;
    }
    assert keysToRemove[..r] == keysToRemove;
  }

  /** Step 1.5: the cross-gender repair. */
  method RepairCrossGender(registry0: Registry) returns (registry: Registry, crossGenderMerges: nat)
    requires Valid(registry0)
    ensures registry == Repaired(registry0)
    ensures crossGenderMerges == CrossGenderMerges(registry0, registry0.keys)
  {
    var merged, keysToRemove;
    merged, keysToRemove, crossGenderMerges := MoveMenToWomen(registry0);
    registry := RemoveKeys(merged, keysToRemove);
  }

  /** racesByFile: each record's races, with their season, pushed to its file's array. */
  method GroupRacesByFile(group: seq<ParticipantRecord>) returns (racesByFile: OrderedMap<FilePath, RaceResult>)
    ensures racesByFile == RacesByFile(group)
  {
    racesByFile := Empty();
    var j := 0;
    while j < |group|
      invariant 0 <= j <= |group|
      invariant racesByFile == CollectBy(group[..j], FileOf, SeasonedRaces)
    {
      var participant := group[j];
      var fileName := if participant.gender == "V" then "results_men.json" else "results_women.json";
      var filePath := FilePath(participant.season, participant.distance, fileName);
      racesByFile := Extend(racesByFile, filePath, SeasonedRaces(participant));
      CollectByStep(group[..j], participant, FileOf, SeasonedRaces);
      assert group[..j + 1] == group[..j] + [participant];
      j := j + 1;
    }
    assert group[..j] == group;
  }

  /** One participant entry per file of racesByFile, under the canonical name, with the
      link of the group's first record. */
  method PushEntries(processed: OrderedMap<FilePath, Participant>, group: seq<ParticipantRecord>,
                     canonicalName: string, racesByFile: OrderedMap<FilePath, RaceResult>)
    returns (processedFiles: OrderedMap<FilePath, Participant>)
    requires |group| > 0 && racesByFile == RacesByFile(group)
    ensures processedFiles == EmitGroup(processed, group[0].link, canonicalName, racesByFile.entries,
                                        racesByFile.keys)
  {
    CollectByValid(group, FileOf, SeasonedRaces);
    var normalized := NormalizedName(canonicalName);
    var firstOccurrence := group[0];
    processedFiles := processed;
    var t := 0;
    while t < |racesByFile.keys|
      invariant 0 <= t <= |racesByFile.keys|
      invariant processedFiles == EmitGroup(processed, firstOccurrence.link, canonicalName, racesByFile.entries,
                                            racesByFile.keys[..t])
    {
      var filePath := racesByFile.keys[t];
      var races := racesByFile.entries[filePath];
      var participantForFile := Participant(canonicalName, firstOccurrence.link, races, Some(normalized));
      processedFiles := Extend(processedFiles, filePath, [participantForFile]);
      EmitStepAt(processed, firstOccurrence.link, canonicalName, racesByFile.entries, racesByFile.keys, t);
      t := t + 1;
    }
    assert racesByFile.keys[..t] == racesByFile.keys;
  }

  /** Step 2: count the merges, and write every group's races to their files under the
      group's canonical name. */
  method WriteBack(registry: Registry) returns (mergedCount: nat,
                                               processedFiles: OrderedMap<FilePath, Participant>)
    requires Valid(registry) && NonEmptyGroups(registry)
    ensures mergedCount == MergedCount(registry, registry.keys)
    ensures processedFiles == Processed(registry, registry.keys)
  {
    mergedCount := 0;
    processedFiles := Empty();
    var i := 0;
    while i < |registry.keys|
      invariant 0 <= i <= |registry.keys|
      invariant WrittenBack(registry, i, mergedCount, processedFiles)
    {
      var key := registry.keys[i];
      var group := registry.entries[key];
      ghost var mergedCount0, processed := mergedCount, processedFiles;
      mergedCount, processedFiles := WriteBackGroup(mergedCount, processedFiles, group);
      WriteBackAdvance(registry, i, mergedCount0, processed, mergedCount, processedFiles);
      i := i + 1;
    }
    assert registry.keys[..i] == registry.keys;
  }

  /** The body of the write-back loop for one group: its merges are counted and its races
      pushed under its canonical name. */
  method WriteBackGroup(mergedCount0: nat, processed: OrderedMap<FilePath, Participant>,
                        group: seq<ParticipantRecord>)
    returns (mergedCount: nat, processedFiles: OrderedMap<FilePath, Participant>)
    requires group != []
    ensures mergedCount == mergedCount0 + GroupMerges(group)
    ensures processedFiles == EmitGroup(processed, group[0].link, First(Names(group)),
                                        RacesByFile(group).entries, RacesByFile(group).keys)
  {
    mergedCount := mergedCount0;
    if |group| > 1 {
      var uniqueNames := NameSet(group);
      if |uniqueNames| > 1 {
        mergedCount := mergedCount + |group| - 1;
      }
    }
    var canonicalName := SelectCanonicalName(Names(group)).value;
    var racesByFile := GroupRacesByFile(group);
    processedFiles := PushEntries(processed, group, canonicalName, racesByFile);
  }

  /** normalizeData: load, repair, then count and write back; uniqueParticipants is the
      number of registry keys after the repair. */
  method NormalizeData(files: seq<SourceFile>) returns (outcome: Outcome)
    ensures outcome == NormalizeResult(files)
  {
    var registry, totalParticipants := LoadRegistry(files);
    LoadedShape(files);
    var repaired, crossGenderMerges := RepairCrossGender(registry);
    RepairedShape(registry);
    var mergedCount, processedFiles := WriteBack(repaired);
    var uniqueCount := |repaired.keys|;
    outcome := Outcome(uniqueCount, mergedCount, processedFiles);
  }
}
