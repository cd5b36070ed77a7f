/** The DB merge migration (migrations/merge-latvian-duplicates.js): participants that
    differ only in case or in Latvian diacritics, within one season, distance and gender,
    are merged into one, preferring the spelling with Latvian letters. The merge plan is
    computed from the participant rows; the database is two tables, participants by id and
    the participant id of each race. */
module Migration {
  import opened Common
  import opened OrderedMaps
  import opened LatvianVariants

  /** A row of `SELECT id, name, season, distance, gender FROM participants`. */
  datatype Row = Row(id: int, name: string, season: string, distance: string, gender: string)

  /** The group key `normalizeName(name)|season|distance|gender`, as a tuple. */
  datatype GroupKey = GroupKey(normalized: string, season: string, distance: string, gender: string)

  /** One entry of mergeOperations. */
  datatype MergeOp = MergeOp(oldId: int, oldName: string, newId: int, newName: string)

  type Groups = OrderedMap<GroupKey, Row>

  function KeyOf(p: Row): GroupKey {
    GroupKey(NormalizeName(p.name), p.season, p.distance, p.gender)
  }

  /** The groups Map, filled in row order. */
  function GroupRows(rows: seq<Row>): Groups {
    GroupBy(rows, KeyOf)
  }

  /** `group.find(p => hasLatvianChars(p.name))`: the first member with a Latvian letter. */
  function FindLatvian(group: seq<Row>): (r: Option<Row>)
    ensures r.Some? ==> exists i :: 0 <= i < |group| && group[i] == r.value &&
                          HasLatvianChars(group[i].name) &&
                          forall j :: 0 <= j < i ==> !HasLatvianChars(group[j].name)
    ensures r.None? ==> forall i :: 0 <= i < |group| ==> !HasLatvianChars(group[i].name)
  {
    if group == [] then None
    else if HasLatvianChars(group[0].name) then Some(group[0])
    else
      var rest := FindLatvian(group[1..]);
      assert forall i :: 0 <= i < |group| - 1 ==> group[1..][i] == group[i + 1];
      rest
  }

  /** The member kept: the first with a Latvian letter, else the first. */
  function Keeper(group: seq<Row>): (keep: Row)
    requires |group| > 0
    ensures keep in group
    ensures HasLatvianChars(keep.name) || keep == group[0]
    ensures (exists i :: 0 <= i < |group| && HasLatvianChars(group[i].name)) ==>
              HasLatvianChars(keep.name)
  {
    match FindLatvian(group)
    case Some(p) => p
    case None => group[0]
  }

  /** The operation that merges p into keep. */
  function OpTo(p: Row, keep: Row): MergeOp {
    MergeOp(p.id, p.name, keep.id, keep.name)
  }

  /** The operations of one group: every member whose id is not the keeper's, in order. */
  function GroupOps(group: seq<Row>, keep: Row): seq<MergeOp>
    decreases |group|
  {
    if group == [] then []
    else
      var p := group[|group| - 1];
      GroupOps(group[..|group| - 1], keep) + (if p.id != keep.id then [OpTo(p, keep)] else [])
  }

  /** The operations of the group under key k, when it has more than one member. */
  function GroupPlan(g: Groups, k: GroupKey): seq<MergeOp> {
    if k in g.entries && |g.entries[k]| > 1 then
      GroupOps(g.entries[k], Keeper(g.entries[k]))
    else []
  }

  /** The operations of the groups under the given keys, in key order. */
  function PlanOps(g: Groups, ks: seq<GroupKey>): seq<MergeOp>
    decreases |ks|
  {
    if ks == [] then [] else PlanOps(g, ks[..|ks| - 1]) + GroupPlan(g, ks[|ks| - 1])
  }

  /** mergeOperations: the groups are visited in first-insertion order. */
  function MergeOperations(rows: seq<Row>): seq<MergeOp> {
    PlanOps(GroupRows(rows), GroupRows(rows).keys)
  }

  // ---------------------------------------------------------------------------
  // The database

  /** The two tables the migration touches: participants by id, and for each race id the
      participant id it belongs to. */
  datatype DbState = DbState(participants: map<int, Row>, races: map<int, int>)

  /** `UPDATE races SET participant_id = newId WHERE participant_id = oldId`. */
  function Reassign(races: map<int, int>, oldId: int, newId: int): map<int, int> {
    map r | r in races :: if races[r] == oldId then newId else races[r]
  }

  /** One operation: reassign the races, then `DELETE FROM participants WHERE id = oldId`. */
  function ApplyOp(s: DbState, op: MergeOp): DbState {
    DbState(s.participants - {op.oldId}, Reassign(s.races, op.oldId, op.newId))
  }

  /** The operations applied one after another. */
  function Execute(s: DbState, ops: seq<MergeOp>): DbState
    decreases |ops|
  {
    if ops == [] then s else ApplyOp(Execute(s, ops[..|ops| - 1]), ops[|ops| - 1])
  }

  /** The ids the operations delete. */
  function OldIds(ops: seq<MergeOp>): set<int> {
    set op | op in ops :: op.oldId
  }

  /** No two operations delete the same id. */
  predicate DistinctOld(ops: seq<MergeOp>) {
    forall i, j :: 0 <= i < |ops| && 0 <= j < |ops| && ops[i].oldId == ops[j].oldId ==> i == j
  }

  /** No operation merges into an id that some operation deletes. */
  predicate NoChain(ops: seq<MergeOp>) {
    forall a, b :: a in ops && b in ops ==> a.newId != b.oldId
  }

  /** The rows have pairwise distinct ids, as the primary key makes them. */
  predicate UniqueIds(rows: seq<Row>) {
    forall i, j :: 0 <= i < |rows| && 0 <= j < |rows| && rows[i].id == rows[j].id ==> i == j
  }

  /** The group of p's key among the rows. */
  function GroupOf(rows: seq<Row>, p: Row): seq<Row> {
    var g := GroupRows(rows);
    if KeyOf(p) in g.entries then g.entries[KeyOf(p)] else []
  }

  /** p is one of the rows and not the keeper of its group. */
  predicate ToMerge(rows: seq<Row>, p: Row) {
    p in rows && |GroupOf(rows, p)| > 0 && p.id != Keeper(GroupOf(rows, p)).id
  }
}
