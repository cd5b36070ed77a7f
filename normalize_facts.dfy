/** What the normalization pass guarantees: the canonical name is the comparator's first
    name, loading groups records across seasons, the cross-gender repair moves records
    without losing any, and the write-back places each group's races in their files. */
module NormalizeFacts {
  import opened Common
  import opened Latvian
  import opened Records
  import opened OrderedMaps
  import opened Normalize

  // ---------------------------------------------------------------------------
  // selectCanonicalName

  lemma {:induction false} CodePointLessIrreflexive(a: string)
    ensures !CodePointLess(a, a)
    decreases |a|
  {
    if a != [] {
      CodePointLessIrreflexive(a[1..]);
    }
  }

  lemma {:induction false} CodePointLessTotal(a: string, b: string)
    requires a != b
    ensures CodePointLess(a, b) || CodePointLess(b, a)
    decreases |a|
  {
    if a != [] && b != [] && a[0] == b[0] {
      assert a == [a[0]] + a[1..] && b == [b[0]] + b[1..];
      CodePointLessTotal(a[1..], b[1..]);
    }
  }

  lemma {:induction false} CodePointLessAsymmetric(a: string, b: string)
    requires CodePointLess(a, b)
    ensures !CodePointLess(b, a)
    decreases |a|
  {
    if a != [] && b != [] && a[0] == b[0] {
      CodePointLessAsymmetric(a[1..], b[1..]);
    }
  }

  lemma {:induction false} CodePointLessTransitive(a: string, b: string, c: string)
    requires CodePointLess(a, b) && CodePointLess(b, c)
    ensures CodePointLess(a, c)
    decreases |a|
  {
    if a != [] && b != [] && c != [] && a[0] == b[0] && b[0] == c[0] {
      CodePointLessTransitive(a[1..], b[1..], c[1..]);
    }
  }

  lemma PrecedesTransitive(a: string, b: string, c: string)
    requires Precedes(a, b) && Precedes(b, c)
    ensures Precedes(a, c)
  {
    if CountLatvianChars(a) == CountLatvianChars(b) == CountLatvianChars(c) &&
       HasNaturalCasing(a) == HasNaturalCasing(b) == HasNaturalCasing(c) {
      CodePointLessTransitive(a, b, c);
    }
  }

  /** No name of the list comes before the chosen one. */
  lemma {:induction false} FirstIsFirst(names: seq<string>)
    requires |names| > 0
    ensures First(names) in names
    ensures forall n :: n in names ==> !Precedes(n, First(names))
    decreases |names|
  {
    if |names| > 1 {
      var prefix := names[..|names| - 1];
      var last := names[|names| - 1];
      FirstIsFirst(prefix);
      var best := First(prefix);
      assert names == prefix + [last];
      if Precedes(last, best) {
        assert First(names) == last;
        forall n | n in names ensures !Precedes(n, last) {
          if n in prefix && Precedes(n, last) {
            PrecedesTransitive(n, last, best);
          }
          if n == last {
            CodePointLessIrreflexive(n);
          }
        }
      } else {
        assert First(names) == best;
        forall n | n in names ensures !Precedes(n, best) {
          if n != last {
            assert n in prefix;
          }
        }
      }
    } else {
      CodePointLessIrreflexive(names[0]);
    }
  }

  /** selectCanonicalName returns a name of the list with the most Latvian letters; among
      those it prefers natural casing, and among those the smallest in code-point order. It
      is undefined only for an empty list. */
  lemma CanonicalNameChoice(names: seq<string>)
    ensures SelectCanonicalName(names).None? <==> names == []
    ensures SelectCanonicalName(names).Some? ==>
      var c := SelectCanonicalName(names).value;
      c in names &&
      (forall n :: n in names ==> CountLatvianChars(n) <= CountLatvianChars(c)) &&
      (forall n :: n in names && CountLatvianChars(n) == CountLatvianChars(c) && HasNaturalCasing(n) ==>
         HasNaturalCasing(c)) &&
      (forall n :: (n in names && CountLatvianChars(n) == CountLatvianChars(c) &&
                    HasNaturalCasing(n) == HasNaturalCasing(c)) ==> n == c || CodePointLess(c, n))
  {
    if names != [] {
      FirstIsFirst(names);
      var c := First(names);
      forall n | n in names && CountLatvianChars(n) == CountLatvianChars(c) &&
                 HasNaturalCasing(n) == HasNaturalCasing(c)
        ensures n == c || CodePointLess(c, n)
      {
        if n != c {
          CodePointLessTotal(n, c);
        }
      }
    }
  }

  // ---------------------------------------------------------------------------
  // Loading

  /** The loaded registry is a valid map whose groups are not empty. */
  lemma LoadedShape(files: seq<SourceFile>)
    ensures Valid(Loaded(files)) && NonEmptyGroups(Loaded(files))
  {
    var items := LoadedRecords(files);
    CollectByEntries(items, RecordKey, Singleton);
    forall k | k in Loaded(files).entries ensures Loaded(files).entries[k] != [] {
      var i :| 0 <= i < |items| && RecordKey(items[i]) == k;
      GroupMembers(items, RecordKey, k, items[i]);
    }
  }

  /** A group holds exactly the loaded records with its key, whatever their season; no
      record is lost. */
  lemma LoadedGroups(files: seq<SourceFile>)
    ensures Total(Loaded(files)) == |LoadedRecords(files)|
    ensures forall k, r :: k in Loaded(files).entries ==>
              (r in Loaded(files).entries[k] <==> r in LoadedRecords(files) && RecordKey(r) == k)
  {
    GroupByTotal(LoadedRecords(files), RecordKey);
    GroupByMembers(LoadedRecords(files), RecordKey);
  }

  /** Two loaded records whose names fold to the same lowercase text, with the same distance
      and gender, share a group even when they come from different seasons. */
  lemma SameNameSameGroup(files: seq<SourceFile>, r1: ParticipantRecord, r2: ParticipantRecord)
    requires r1 in LoadedRecords(files) && r2 in LoadedRecords(files)
    requires NormalizedName(r1.name) == NormalizedName(r2.name)
    requires r1.distance == r2.distance && r1.gender == r2.gender
    ensures RecordKey(r1) in Loaded(files).entries
    ensures r1 in Loaded(files).entries[RecordKey(r1)] && r2 in Loaded(files).entries[RecordKey(r1)]
  {
    GroupByMembers(LoadedRecords(files), RecordKey);
  }

  // ---------------------------------------------------------------------------
  // Cross-gender repair

  /** The repair loop keeps the keys and leaves every group but the women's untouched. */
  lemma {:induction false} MergeMenKeeps(m: Registry, ks: seq<RegKey>)
    requires Valid(m)
    ensures MergeMen(m, ks).keys == m.keys
    ensures MergeMen(m, ks).entries.Keys == m.entries.Keys
    ensures forall k :: k in m.entries && k.gender != "S" ==> MergeMen(m, ks).entries[k] == m.entries[k]
    decreases |ks|
  {
    if ks != [] {
      MergeMenKeeps(m, ks[..|ks| - 1]);
    }
  }

  /** Once the loop has visited a men's key, the women's group of the same name and distance
      ends with the relabelled men's group. */
  lemma {:induction false} MergeMenWomen(m: Registry, ks: seq<RegKey>, k: RegKey)
    requires Valid(m) && Distinct(ks)
    requires k in m.entries && k.gender == "S"
    ensures k in MergeMen(m, ks).entries && MergeMen(m, ks).entries[k] ==
            m.entries[k] + (if MenKey(k) in ks && MenKey(k) in m.entries then AsWomen(m.entries[MenKey(k)]) else [])
    decreases |ks|
  {
    if ks != [] {
      var n := |ks| - 1;
      var prefix := ks[..n];
      var last := ks[n];
      MergeMenWomen(m, prefix, k);
      MergeMenKeeps(m, prefix);
      assert last !in prefix;
      assert MenKey(k) in ks <==> MenKey(k) in prefix || MenKey(k) == last;
      if MovesToWomen(m, last) && WomenKey(last) == k {
        assert MenKey(k) == last;
      }
    }
  }

  /** Each moved men's group adds its size to the total and to crossGenderMerges. */
  lemma {:induction false} MergeMenTotal(m: Registry, ks: seq<RegKey>)
    requires Valid(m)
    ensures Total(MergeMen(m, ks)) == Total(m) + CrossGenderMerges(m, ks)
    decreases |ks|
  {
    if ks != [] {
      var n := |ks| - 1;
      var prefix := ks[..n];
      var last := ks[n];
      MergeMenTotal(m, prefix);
      MergeMenKeeps(m, prefix);
      var prev := MergeMen(m, prefix);
      if MovesToWomen(m, last) {
        assert Valid(prev);
        ExtendTotal(prev, WomenKey(last), AsWomen(GroupAt(prev, last)));
        assert |GroupAt(prev, last)| == |GroupAt(m, last)|;
      }
    }
  }

  /** keysToRemove lists, once each, the visited men's keys that move. */
  lemma {:induction false} KeysToRemoveFacts(m: Registry, ks: seq<RegKey>)
    requires Distinct(ks)
    ensures Distinct(KeysToRemove(m, ks))
    ensures forall k :: k in KeysToRemove(m, ks) <==> k in ks && MovesToWomen(m, k)
    ensures CrossGenderMerges(m, ks) == SumSizes(KeysToRemove(m, ks), m.entries)
    decreases |ks|
  {
    if ks != [] {
      var n := |ks| - 1;
      var prefix := ks[..n];
      assert forall k :: k in prefix ==> k in ks;
      KeysToRemoveFacts(m, prefix);
      var r := KeysToRemove(m, ks);
      if MovesToWomen(m, ks[n]) {
        assert r == KeysToRemove(m, prefix) + [ks[n]];
        assert r[..|r| - 1] == KeysToRemove(m, prefix);
        assert SumSizes(r, m.entries) == SumSizes(KeysToRemove(m, prefix), m.entries) + SizeOf(m.entries, ks[n]);
      } else {
        assert r == KeysToRemove(m, prefix);
      }
    }
  }

  /** Deleting keys one by one removes exactly their groups and keeps the rest. */
  lemma {:induction false} DeleteAllEntries(x: Registry, ks: seq<RegKey>)
    ensures forall k :: k in DeleteAll(x, ks).entries <==> k in x.entries && k !in ks
    ensures forall k :: k in DeleteAll(x, ks).entries ==> DeleteAll(x, ks).entries[k] == x.entries[k]
    decreases |ks|
  {
    if ks != [] {
      var n := |ks| - 1;
      DeleteAllEntries(x, ks[..n]);
      assert forall k :: k in ks <==> k in ks[..n] || k == ks[n];
    }
  }

  /** Deleting distinct keys one by one keeps the map valid and removes their records from
      the total. */
  lemma {:induction false} DeleteAllTotal(x: Registry, ks: seq<RegKey>)
    requires Valid(x) && Distinct(ks)
    ensures Valid(DeleteAll(x, ks))
    ensures Total(DeleteAll(x, ks)) + SumSizes(ks, x.entries) == Total(x)
    decreases |ks|
  {
    if ks != [] {
      var n := |ks| - 1;
      var prefix := ks[..n];
      DeleteAllTotal(x, prefix);
      DeleteAllEntries(x, prefix);
      var y := DeleteAll(x, prefix);
      DeleteValid(y, ks[n]);
      DeleteTotal(y, ks[n]);
      assert ks[n] !in prefix;
      assert SizeOf(y.entries, ks[n]) == SizeOf(x.entries, ks[n]);
    }
  }

  /** The repaired registry is still a valid map with non-empty groups. */
  lemma RepairedShape(m: Registry)
    requires Valid(m) && NonEmptyGroups(m)
    ensures Valid(Repaired(m)) && NonEmptyGroups(Repaired(m))
  {
    var merged := MergeMen(m, m.keys);
    var removed := KeysToRemove(m, m.keys);
    KeysToRemoveFacts(m, m.keys);
    MergeMenKeeps(m, m.keys);
    DeleteAllTotal(merged, removed);
    DeleteAllEntries(merged, removed);
    forall k | k in Repaired(m).entries ensures Repaired(m).entries[k] != [] {
      if k.gender == "S" {
        MergeMenWomen(m, m.keys, k);
      }
    }
  }

  /** The repair loses no record: the total is the same before and after. */
  lemma RepairKeepsTotal(m: Registry)
    requires Valid(m)
    ensures Total(Repaired(m)) == Total(m)
  {
    var merged := MergeMen(m, m.keys);
    var removed := KeysToRemove(m, m.keys);
    KeysToRemoveFacts(m, m.keys);
    MergeMenKeeps(m, m.keys);
    MergeMenTotal(m, m.keys);
    DeleteAllTotal(merged, removed);
    SumSizesAgree(removed, merged.entries, m.entries);
  }

  /** After the repair no men's key remains whose women's key exists. */
  lemma RepairLeavesNoPairs(m: Registry)
    requires Valid(m)
    ensures forall k :: k in Repaired(m).entries && k.gender == "V" ==> WomenKey(k) !in Repaired(m).entries
  {
    var merged := MergeMen(m, m.keys);
    var removed := KeysToRemove(m, m.keys);
    KeysToRemoveFacts(m, m.keys);
    MergeMenKeeps(m, m.keys);
    DeleteAllEntries(merged, removed);
  }

  /** A women's group ends with the relabelled men's group of the same name and distance,
      when there is one. */
  lemma RepairWomenGroups(m: Registry, k: RegKey)
    requires Valid(m) && k in m.entries && k.gender == "S"
    ensures k in Repaired(m).entries
    ensures Repaired(m).entries[k] ==
            m.entries[k] + (if MenKey(k) in m.entries then AsWomen(m.entries[MenKey(k)]) else [])
  {
    var merged := MergeMen(m, m.keys);
    var removed := KeysToRemove(m, m.keys);
    KeysToRemoveFacts(m, m.keys);
    MergeMenKeeps(m, m.keys);
    MergeMenWomen(m, m.keys, k);
    DeleteAllEntries(merged, removed);
  }

  /** Any other group stays as it was, and is deleted exactly when it is a men's group whose
      women's key exists. */
  lemma RepairKeepsOthers(m: Registry, k: RegKey)
    requires Valid(m) && k in m.entries && k.gender != "S"
    ensures k in Repaired(m).entries <==> !MovesToWomen(m, k)
    ensures k in Repaired(m).entries ==> Repaired(m).entries[k] == m.entries[k]
  {
    var merged := MergeMen(m, m.keys);
    var removed := KeysToRemove(m, m.keys);
    KeysToRemoveFacts(m, m.keys);
    MergeMenKeeps(m, m.keys);
    DeleteAllEntries(merged, removed);
  }

  // ---------------------------------------------------------------------------
  // One step of each loop

  lemma LoadedStep(files: seq<SourceFile>, i: nat)
    requires i < |files|
    ensures LoadedRecords(files[..i + 1]) == LoadedRecords(files[..i]) + FileRecords(files[i])
  {
    assert files[..i + 1][..i] == files[..i];
  }

  lemma RepairStep(m: Registry, ks: seq<RegKey>, k: RegKey)
    ensures MergeMen(m, ks + [k]) ==
            if MovesToWomen(m, k) then Extend(MergeMen(m, ks), WomenKey(k), AsWomen(GroupAt(MergeMen(m, ks), k)))
            else MergeMen(m, ks)
    ensures KeysToRemove(m, ks + [k]) == KeysToRemove(m, ks) + (if MovesToWomen(m, k) then [k] else [])
    ensures CrossGenderMerges(m, ks + [k]) ==
            CrossGenderMerges(m, ks) + (if MovesToWomen(m, k) then |GroupAt(m, k)| else 0)
  {
    assert (ks + [k])[..|ks|] == ks;
  }

  lemma DeleteStep(m: Registry, ks: seq<RegKey>, k: RegKey)
    ensures DeleteAll(m, ks + [k]) == Delete(DeleteAll(m, ks), k)
  {
    assert (ks + [k])[..|ks|] == ks;
  }

  lemma WriteBackStep(m: Registry, ks: seq<RegKey>, k: RegKey)
    requires k in m.entries && m.entries[k] != []
    ensures MergedCount(m, ks + [k]) == MergedCount(m, ks) + GroupMerges(m.entries[k])
    ensures Processed(m, ks + [k]) ==
            EmitGroup(Processed(m, ks), m.entries[k][0].link, First(Names(m.entries[k])),
                      RacesByFile(m.entries[k]).entries, RacesByFile(m.entries[k]).keys)
  {
    assert (ks + [k])[..|ks|] == ks;
  }

  /** The write-back loop at key i of the registry: the group's merges are added and its
      entries pushed. */
  lemma WriteBackStepAt(m: Registry, i: nat)
    requires i < |m.keys| && m.keys[i] in m.entries && m.entries[m.keys[i]] != []
    ensures MergedCount(m, m.keys[..i + 1]) == MergedCount(m, m.keys[..i]) + GroupMerges(m.entries[m.keys[i]])
    ensures Processed(m, m.keys[..i + 1]) ==
            EmitGroup(Processed(m, m.keys[..i]), m.entries[m.keys[i]][0].link, First(Names(m.entries[m.keys[i]])),
                      RacesByFile(m.entries[m.keys[i]]).entries, RacesByFile(m.entries[m.keys[i]]).keys)
  {
    assert m.keys[..i + 1] == m.keys[..i] + [m.keys[i]];
    WriteBackStep(m, m.keys[..i], m.keys[i]);
  }

  /** mergedCount and processedFiles once the write-back loop has visited the first i keys. */
  predicate WrittenBack(m: Registry, i: nat, mergedCount: nat, processedFiles: OrderedMap<FilePath, Participant>)
    requires i <= |m.keys|
  {
    mergedCount == MergedCount(m, m.keys[..i]) && processedFiles == Processed(m, m.keys[..i])
  }

  /** Writing back the group of key i moves the loop on by one key. */
  lemma WriteBackAdvance(m: Registry, i: nat, mergedCount: nat, processedFiles: OrderedMap<FilePath, Participant>,
                         mergedCount': nat, processedFiles': OrderedMap<FilePath, Participant>)
    requires i < |m.keys| && m.keys[i] in m.entries && m.entries[m.keys[i]] != []
    requires WrittenBack(m, i, mergedCount, processedFiles)
    requires mergedCount' == mergedCount + GroupMerges(m.entries[m.keys[i]])
    requires processedFiles' ==
             EmitGroup(processedFiles, m.entries[m.keys[i]][0].link, First(Names(m.entries[m.keys[i]])),
                       RacesByFile(m.entries[m.keys[i]]).entries, RacesByFile(m.entries[m.keys[i]]).keys)
    ensures WrittenBack(m, i + 1, mergedCount', processedFiles')
  {
    WriteBackStepAt(m, i);
  }

  /** The push loop at file t: one entry for that file. */
  lemma EmitStepAt(out: OrderedMap<FilePath, Participant>, link: string, canonicalName: string,
                   byFile: map<FilePath, seq<RaceResult>>, fps: seq<FilePath>, t: nat)
    requires t < |fps| && fps[t] in byFile
    ensures EmitGroup(out, link, canonicalName, byFile, fps[..t + 1]) ==
            Extend(EmitGroup(out, link, canonicalName, byFile, fps[..t]), fps[t],
                   [EntryFor(canonicalName, link, byFile[fps[t]])])
  {
    assert fps[..t + 1][..t] == fps[..t];
  }

  /** One participant of file f joins the registry under its key. */
  lemma LoadParticipantStep(loaded: seq<ParticipantRecord>, f: SourceFile, j: nat)
    requires j < |f.participants|
    ensures GroupBy(loaded + FileRecords(f)[..j + 1], RecordKey) ==
            Extend(GroupBy(loaded + FileRecords(f)[..j], RecordKey),
                   RegKey(NormalizedName(f.participants[j].name), f.distance, GenderOfFile(f.fileName)),
                   [ParticipantRecord(f.participants[j].name, f.participants[j].link, f.participants[j].races,
                                      f.season, f.distance, GenderOfFile(f.fileName))])
  {
    var rec := FileRecords(f)[j];
    assert loaded + FileRecords(f)[..j + 1] == (loaded + FileRecords(f)[..j]) + [rec];
    CollectByStep(loaded + FileRecords(f)[..j], rec, RecordKey, Singleton);
  }

  // ---------------------------------------------------------------------------
  // Merge count and write-back

  /** A group counts as merged, with all its records but one, exactly when two of its
      records are spelled differently. */
  lemma GroupMergesMeans(group: seq<ParticipantRecord>)
    ensures GroupMerges(group) ==
            if exists i, j :: 0 <= i < |group| && 0 <= j < |group| && group[i].name != group[j].name
            then |group| - 1 else 0
  {
    var names := NameSet(group);
    if exists i, j :: 0 <= i < |group| && 0 <= j < |group| && group[i].name != group[j].name {
      var i, j :| 0 <= i < |group| && 0 <= j < |group| && group[i].name != group[j].name;
      assert group[j].name in names - {group[i].name};
      assert |names| == |names - {group[i].name}| + 1;
    } else if |group| > 0 {
      assert names == {group[0].name};
    }
  }

  /** At most all records but one per group are counted as merged. */
  lemma {:induction false} MergedBound(m: Registry, ks: seq<RegKey>)
    requires NonEmptyGroups(m) && forall k :: k in ks ==> k in m.entries
    ensures MergedCount(m, ks) + |ks| <= SumSizes(ks, m.entries)
    decreases |ks|
  {
    if ks != [] {
      var n := |ks| - 1;
      assert forall k :: k in ks[..n] ==> k in ks;
      MergedBound(m, ks[..n]);
    }
  }

  /** A group's races go, each exactly once and in record order, to the file of their
      record: results_men.json for gender 'V', results_women.json otherwise. */
  lemma RacesWrittenOnce(group: seq<ParticipantRecord>)
    ensures Valid(RacesByFile(group))
    ensures forall fp :: fp in RacesByFile(group).entries <==> exists r :: r in group && FileOf(r) == fp
    ensures forall fp :: fp in RacesByFile(group).entries ==>
              RacesByFile(group).entries[fp] == CollectOf(group, FileOf, SeasonedRaces, fp)
    ensures Total(RacesByFile(group)) == SumVals(group, SeasonedRaces)
    ensures forall r :: r in group ==>
              (FileOf(r).fileName == "results_men.json" <==> r.gender == "V")
  {
    CollectByEntries(group, FileOf, SeasonedRaces);
    CollectByTotal(group, FileOf, SeasonedRaces);
    forall fp | fp in RacesByFile(group).entries ensures exists r :: r in group && FileOf(r) == fp {
      var i :| 0 <= i < |group| && FileOf(group[i]) == fp;
    }
  }

  /** Writing a race back changes only its season, which becomes the season of its date. */
  lemma SeasonedRacesKeepFields(rec: ParticipantRecord, i: nat)
    requires i < |rec.races|
    ensures SeasonedRaces(rec)[i].season == Some(Comparison.DeriveSeason(rec.races[i].datums))
    ensures SeasonedRaces(rec)[i].(season := rec.races[i].season) == rec.races[i]
  {
  }

  /** The participant entry a visited group wrote: its canonical name and first link. */
  predicate WrittenFor(m: Registry, ks: seq<RegKey>, e: Participant) {
    exists k :: k in ks && k in m.entries && m.entries[k] != [] &&
                e.name == First(Names(m.entries[k])) && e.link == m.entries[k][0].link
  }

  /** Every entry of res was in out already or is the entry of the group with canonical
      name c and link. */
  predicate EntriesFrom(out: OrderedMap<FilePath, Participant>, res: OrderedMap<FilePath, Participant>,
                        link: string, c: string) {
    forall fp, e :: fp in res.entries && e in res.entries[fp] ==>
      (fp in out.entries && e in out.entries[fp]) ||
      (e.name == c && e.link == link && e.normalizedName == Some(NormalizedName(c)))
  }

  /** Adding the group's entry to a file keeps every entry accounted for. */
  lemma EntriesFromExtend(out: OrderedMap<FilePath, Participant>, prev: OrderedMap<FilePath, Participant>,
                          fp: FilePath, link: string, c: string, races: seq<RaceResult>)
    requires EntriesFrom(out, prev, link, c)
    ensures EntriesFrom(out, Extend(prev, fp, [EntryFor(c, link, races)]), link, c)
  {
    var vs := [EntryFor(c, link, races)];
    forall key, e | key in Extend(prev, fp, vs).entries && e in Extend(prev, fp, vs).entries[key]
      ensures (key in out.entries && e in out.entries[key]) ||
              (e.name == c && e.link == link && e.normalizedName == Some(NormalizedName(c)))
    {
      ExtendFrom(prev, fp, vs, key, e);
    }
  }

  /** The last file of fps adds its entry last. */
  lemma EmitGroupLast(out: OrderedMap<FilePath, Participant>, link: string, c: string,
                      byFile: map<FilePath, seq<RaceResult>>, fps: seq<FilePath>)
    requires fps != []
    ensures EmitGroup(out, link, c, byFile, fps) ==
            Extend(EmitGroup(out, link, c, byFile, fps[..|fps| - 1]), fps[|fps| - 1],
                   [EntryFor(c, link, if fps[|fps| - 1] in byFile then byFile[fps[|fps| - 1]] else [])])
  {
  }

  /** A group's pushes keep the map valid and add only entries carrying its canonical name,
      its normalized name and its first link. */
  lemma {:induction false} EmitGroupEntries(out: OrderedMap<FilePath, Participant>, link: string,
                                            c: string, byFile: map<FilePath, seq<RaceResult>>,
                                            fps: seq<FilePath>)
    requires Valid(out)
    ensures Valid(EmitGroup(out, link, c, byFile, fps))
    ensures EntriesFrom(out, EmitGroup(out, link, c, byFile, fps), link, c)
    decreases |fps|
  {
    if fps != [] {
      var n := |fps| - 1;
      EmitGroupEntries(out, link, c, byFile, fps[..n]);
      var prev := EmitGroup(out, link, c, byFile, fps[..n]);
      var races := if fps[n] in byFile then byFile[fps[n]] else [];
      var vs := [EntryFor(c, link, races)];
      EmitGroupLast(out, link, c, byFile, fps);
      ExtendValid(prev, fps[n], vs);
      EntriesFromExtend(out, prev, fps[n], link, c, races);
    }
  }

  /** An entry as a visited group writes it. */
  predicate GoodEntry(m: Registry, ks: seq<RegKey>, e: Participant) {
    e.normalizedName == Some(NormalizedName(e.name)) && WrittenFor(m, ks, e)
  }

  /** Every entry of every file is good. */
  predicate AllGood(m: Registry, ks: seq<RegKey>, out: OrderedMap<FilePath, Participant>) {
    forall fp, e :: fp in out.entries && e in out.entries[fp] ==> GoodEntry(m, ks, e)
  }

  /** Visiting one more key keeps every earlier entry good. */
  lemma GoodEntryMore(m: Registry, ks: seq<RegKey>, k: RegKey, out: OrderedMap<FilePath, Participant>)
    requires AllGood(m, ks, out)
    ensures AllGood(m, ks + [k], out)
  {
    forall fp, e | fp in out.entries && e in out.entries[fp] ensures GoodEntry(m, ks + [k], e) {
      assert GoodEntry(m, ks, e);
      var k' :| k' in ks && k' in m.entries && m.entries[k'] != [] &&
                e.name == First(Names(m.entries[k'])) && e.link == m.entries[k'][0].link;
      assert k' in ks + [k];
    }
  }

  lemma ProcessedEntriesStep(m: Registry, ks: seq<RegKey>, k: RegKey)
    requires Valid(Processed(m, ks)) && AllGood(m, ks, Processed(m, ks))
    ensures Valid(Processed(m, ks + [k])) && AllGood(m, ks + [k], Processed(m, ks + [k]))
  {
    var prev := Processed(m, ks);
    assert (ks + [k])[..|ks|] == ks;
    GoodEntryMore(m, ks, k, prev);
    if k in m.entries && m.entries[k] != [] {
      var group := m.entries[k];
      var c := First(Names(group));
      var byFile := RacesByFile(group);
      EmitGroupEntries(prev, group[0].link, c, byFile.entries, byFile.keys);
      var out := Processed(m, ks + [k]);
      assert out == EmitGroup(prev, group[0].link, c, byFile.entries, byFile.keys);
      forall fp, e | fp in out.entries && e in out.entries[fp] ensures GoodEntry(m, ks + [k], e) {
        if !(fp in prev.entries && e in prev.entries[fp]) {
          assert k in ks + [k];
          assert WrittenFor(m, ks + [k], e);
        }
      }
    }
  }

  /** Every participant written carries normalized_name, the folded lowercase form of its
      name, and is the entry of a group of the registry: its canonical name and the link of
      its first record. */
  lemma {:induction false} ProcessedEntries(m: Registry, ks: seq<RegKey>)
    ensures Valid(Processed(m, ks)) && AllGood(m, ks, Processed(m, ks))
    decreases |ks|
  {
    if ks != [] {
      var n := |ks| - 1;
      ProcessedEntries(m, ks[..n]);
      ProcessedEntriesStep(m, ks[..n], ks[n]);
      assert ks[..n] + [ks[n]] == ks;
    }
  }

  /** normalizeData reports as unique participants the number of groups after the repair,
      which together still hold every loaded record; the merges it counts never exceed the
      records that do not head a group. */
  lemma NormalizeOutcome(files: seq<SourceFile>)
    ensures Total(Repaired(Loaded(files))) == |LoadedRecords(files)|
    ensures NormalizeResult(files).uniqueParticipants == |Repaired(Loaded(files)).entries|
    ensures NormalizeResult(files).mergedDuplicates + NormalizeResult(files).uniqueParticipants <=
            |LoadedRecords(files)|
  {
    var loaded := Loaded(files);
    LoadedShape(files);
    LoadedGroups(files);
    RepairKeepsTotal(loaded);
    RepairedShape(loaded);
    var registry := Repaired(loaded);
    KeysCount(registry);
    MergedBound(registry, registry.keys);
  }
}
