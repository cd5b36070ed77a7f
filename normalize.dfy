/** The normalization pass (scripts/pipeline/2-normalize-data.ts): participants of every
    results file are gathered in a registry keyed by folded lowercase name, distance and
    gender; men's groups whose name also appears among the women of the same distance move
    to the women's group; each group gets a canonical name, and its races are written back,
    file by file, with a season derived from the race date. */
module Normalize {
  import opened Common
  import opened Latvian
  import opened Records
  import opened OrderedMaps
  import Comparison

  // ---------------------------------------------------------------------------
  // selectCanonicalName

  /** String order by code points, standing for localeCompare. */
  predicate CodePointLess(a: string, b: string) {
    if a == [] then b != []
    else if b == [] then false
    else a[0] < b[0] || (a[0] == b[0] && CodePointLess(a[1..], b[1..]))
  }

  /** The comparator of selectCanonicalName puts a before b: more Latvian letters first,
      then natural casing before all-uppercase, then code-point order. */
  predicate Precedes(a: string, b: string) {
    CountLatvianChars(a) > CountLatvianChars(b) ||
    (CountLatvianChars(a) == CountLatvianChars(b) &&
     ((HasNaturalCasing(a) && !HasNaturalCasing(b)) ||
      (HasNaturalCasing(a) == HasNaturalCasing(b) && CodePointLess(a, b))))
  }

  /** The first name under the comparator among a non-empty list. */
  function First(names: seq<string>): string
    requires |names| > 0
    decreases |names|
  {
    if |names| == 1 then names[0]
    else
      var best := First(names[..|names| - 1]);
      if Precedes(names[|names| - 1], best) then names[|names| - 1] else best
  }

  /** selectCanonicalName: the element the sort puts first; undefined for no names. */
  function SelectCanonicalName(names: seq<string>): Option<string> {
    if names == [] then None else Some(First(names))
  }

  // ---------------------------------------------------------------------------
  // Loading

  /** A participant as the registry holds it: where it was read from is kept. */
  datatype ParticipantRecord = ParticipantRecord(name: string, link: string,
                                                 races: seq<RaceResult>, season: string,
                                                 distance: string, gender: string)

  /** The registry key `normalized|distance|gender`, as a tuple. */
  datatype RegKey = RegKey(normalized: string, distance: string, gender: string)

  type Registry = OrderedMap<RegKey, ParticipantRecord>

  /** The folded, lowercased name the registry groups by. */
  function NormalizedName(name: string): string {
    Lower(Fold(name))
  }

  function RecordOf(f: SourceFile, p: Participant): ParticipantRecord {
    ParticipantRecord(p.name, p.link, p.races, f.season, f.distance, GenderOfFile(f.fileName))
  }

  function RecordKey(rec: ParticipantRecord): RegKey {
    RegKey(NormalizedName(rec.name), rec.distance, rec.gender)
  }

  /** The records of one file, in file order. */
  function FileRecords(f: SourceFile): seq<ParticipantRecord> {
    seq(|f.participants|, j requires 0 <= j < |f.participants| => RecordOf(f, f.participants[j]))
  }

  /** The records of all files, file after file. */
  function LoadedRecords(files: seq<SourceFile>): seq<ParticipantRecord>
    decreases |files|
  {
    if files == [] then [] else LoadedRecords(files[..|files| - 1]) + FileRecords(files[|files| - 1])
  }

  /** The registry after loading. */
  function Loaded(files: seq<SourceFile>): Registry {
    GroupBy(LoadedRecords(files), RecordKey)
  }

  // ---------------------------------------------------------------------------
  // Cross-gender repair

  function WomenKey(k: RegKey): RegKey { RegKey(k.normalized, k.distance, "S") }

  function MenKey(k: RegKey): RegKey { RegKey(k.normalized, k.distance, "V") }

  /** A men's key whose women's key is also in the registry. */
  predicate MovesToWomen(m: Registry, k: RegKey) {
    k.gender == "V" && WomenKey(k) in m.entries
  }

  function GroupAt(m: Registry, k: RegKey): seq<ParticipantRecord> {
    if k in m.entries then m.entries[k] else []
  }

  /** The records with their gender changed to 'S'. */
  function AsWomen(group: seq<ParticipantRecord>): (r: seq<ParticipantRecord>)
    ensures |r| == |group|
  {
    seq(|group|, i requires 0 <= i < |group| => group[i].(gender := "S"))
  }

  /** The registry after the repair loop has visited the keys ks: the group of each men's key
      that moves is appended to its women's group. */
  function MergeMen(m: Registry, ks: seq<RegKey>): Registry
    decreases |ks|
  {
    if ks == [] then m
    else
      var prev := MergeMen(m, ks[..|ks| - 1]);
      var k := ks[|ks| - 1];
      if MovesToWomen(m, k) then Extend(prev, WomenKey(k), AsWomen(GroupAt(prev, k))) else prev
  }

  /** keysToRemove after the repair loop has visited ks. */
  function KeysToRemove(m: Registry, ks: seq<RegKey>): seq<RegKey>
    decreases |ks|
  {
    if ks == [] then []
    else KeysToRemove(m, ks[..|ks| - 1]) + (if MovesToWomen(m, ks[|ks| - 1]) then [ks[|ks| - 1]] else [])
  }

  /** crossGenderMerges after the repair loop has visited ks. */
  function CrossGenderMerges(m: Registry, ks: seq<RegKey>): nat
    decreases |ks|
  {
    if ks == [] then 0
    else
      var k := ks[|ks| - 1];
      CrossGenderMerges(m, ks[..|ks| - 1]) + (if MovesToWomen(m, k) then |GroupAt(m, k)| else 0)
  }

  function DeleteAll(m: Registry, ks: seq<RegKey>): Registry
    decreases |ks|
  {
    if ks == [] then m else Delete(DeleteAll(m, ks[..|ks| - 1]), ks[|ks| - 1])
  }

  /** The registry after the repair: merged, then the moved men's keys deleted. */
  function Repaired(m: Registry): Registry {
    DeleteAll(MergeMen(m, m.keys), KeysToRemove(m, m.keys))
  }

  // ---------------------------------------------------------------------------
  // Merge count and write-back

  function Names(group: seq<ParticipantRecord>): (r: seq<string>)
    ensures |r| == |group|
  {
    seq(|group|, i requires 0 <= i < |group| => group[i].name)
  }

  function NameSet(group: seq<ParticipantRecord>): set<string> {
    set i | 0 <= i < |group| :: group[i].name
  }

  /** What a group adds to mergedCount: all but one record, when it has more than one
      record and more than one spelling. */
  function GroupMerges(group: seq<ParticipantRecord>): nat {
    if |group| > 1 && |NameSet(group)| > 1 then |group| - 1 else 0
  }

  /** mergedCount after the write-back loop has visited ks. */
  function MergedCount(m: Registry, ks: seq<RegKey>): nat
    decreases |ks|
  {
    if ks == [] then 0 else MergedCount(m, ks[..|ks| - 1]) + GroupMerges(GroupAt(m, ks[|ks| - 1]))
  }

  /** The file path `<season>/<distance>/<fileName>` a record's races go to. */
  datatype FilePath = FilePath(season: string, distance: string, fileName: string)

  function FileOf(rec: ParticipantRecord): FilePath {
    FilePath(rec.season, rec.distance,
             if rec.gender == "V" then "results_men.json" else "results_women.json")
  }

  /** A record's races, each with the season derived from its date. */
  function SeasonedRaces(rec: ParticipantRecord): (r: seq<RaceResult>)
    ensures |r| == |rec.races|
  {
    seq(|rec.races|, i requires 0 <= i < |rec.races| =>
        rec.races[i].(season := Some(Comparison.DeriveSeason(rec.races[i].datums))))
  }

  /** racesByFile: the seasoned races of the group's records, by file. */
  function RacesByFile(group: seq<ParticipantRecord>): OrderedMap<FilePath, RaceResult> {
    CollectBy(group, FileOf, SeasonedRaces)
  }

  /** The participant written to a file for a group. */
  function EntryFor(canonicalName: string, link: string, races: seq<RaceResult>): Participant {
    Participant(canonicalName, link, races, Some(NormalizedName(canonicalName)))
  }

  /** processedFiles after a group's entries for the files fps have been pushed: for each
      file, the group's canonical name, the link of its first record and the races byFile
      holds for the file. */
  function EmitGroup(out: OrderedMap<FilePath, Participant>, link: string, canonicalName: string,
                     byFile: map<FilePath, seq<RaceResult>>, fps: seq<FilePath>): OrderedMap<FilePath, Participant>
    decreases |fps|
  {
    if fps == [] then out
    else
      var fp := fps[|fps| - 1];
      var races := if fp in byFile then byFile[fp] else [];
      Extend(EmitGroup(out, link, canonicalName, byFile, fps[..|fps| - 1]), fp,
             [EntryFor(canonicalName, link, races)])
  }

  /** processedFiles after the write-back loop has visited ks. */
  function Processed(m: Registry, ks: seq<RegKey>): OrderedMap<FilePath, Participant>
    decreases |ks|
  {
    if ks == [] then Empty()
    else
      var k := ks[|ks| - 1];
      var prev := Processed(m, ks[..|ks| - 1]);
      if k !in m.entries || m.entries[k] == [] then prev
      else
        var group := m.entries[k];
        var byFile := RacesByFile(group);
        EmitGroup(prev, group[0].link, First(Names(group)), byFile.entries, byFile.keys)
  }

  /** Every group of the registry holds at least one record. */
  predicate NonEmptyGroups(m: Registry) {
    forall k :: k in m.entries ==> m.entries[k] != []
  }

  /** What normalizeData returns, and the files it writes. */
  datatype Outcome = Outcome(uniqueParticipants: nat, mergedDuplicates: nat,
                             processedFiles: OrderedMap<FilePath, Participant>)

  /** normalizeData over the given files. */
  function NormalizeResult(files: seq<SourceFile>): Outcome {
    var registry := Repaired(Loaded(files));
    Outcome(|registry.keys|, MergedCount(registry, registry.keys), Processed(registry, registry.keys))
  }
}
