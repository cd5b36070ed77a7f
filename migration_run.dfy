/** mergeDuplicates (migrations/merge-latvian-duplicates.js) as the loops it is written
    with: the groups Map and the mergeOperations array are filled in loops, then the
    database is changed operation by operation. */
module MigrationRun {
  import opened Common
  import opened OrderedMaps
  import opened Migration

  /** The grouping loop and the operation loop: the plan of module Migration. */
  method PlanMerges(rows: seq<Row>) returns (ops: seq<MergeOp>)
    ensures ops == MergeOperations(rows)
  {
    var groups := GroupByLoop(rows, KeyOf);
    CollectByValid(rows, KeyOf, Singleton);
    ops := PlanLoop(groups);
  }

  /** `for (const [key, group] of groups.entries())`. */
  method PlanLoop(groups: Groups) returns (ops: seq<MergeOp>)
    requires Valid(groups)
    ensures ops == PlanOps(groups, groups.keys)
  {
    ops := [];
    var k := 0;
    while k < |groups.keys|
      invariant 0 <= k <= |groups.keys|
      invariant ops == PlanOps(groups, groups.keys[..k])
    {
      var key := groups.keys[k];
      assert groups.keys[..k + 1] == groups.keys[..k] + [key];
      var more := GroupPlanOf(groups.entries[key]);
      ops := ops + more;
      k := k + 1;
    }
    assert groups.keys[..k] == groups.keys;
  }

  /** The body for one group: nothing for a single member, else the keeper chosen by
      `group.find` and one operation per other member. */
  method GroupPlanOf(group: seq<Row>) returns (ops: seq<MergeOp>)
    ensures ops == (if |group| > 1 then GroupOps(group, Keeper(group)) else [])
  {
    ops := [];
    if |group| > 1 {
      var latvian := FindLatvian(group);
      var keep := if latvian.Some? then latvian.value else group[0];
      ops := GroupOpsLoop(group, keep);
    }
  }

  /** `for (const p of group) if (p.id !== keepId) mergeOperations.push(...)`. */
  method GroupOpsLoop(group: seq<Row>, keep: Row) returns (ops: seq<MergeOp>)
    ensures ops == GroupOps(group, keep)
  {
    ops := [];
    var j := 0;
    while j < |group|
      invariant 0 <= j <= |group|
      invariant ops == GroupOps(group[..j], keep)
    {
      assert group[..j + 1][..j] == group[..j];
      if group[j].id != keep.id {
        ops := ops + [OpTo(group[j], keep)];
      }
      j := j + 1;
    }
    assert group[..j] == group;
  }

  /** Running one more operation extends the run by that operation. */
  lemma ExecuteStep(s: DbState, ops: seq<MergeOp>, i: nat)
    requires i < |ops|
    ensures Execute(s, ops[..i + 1]) == ApplyOp(Execute(s, ops[..i]), ops[i])
  {
    assert ops[..i + 1][..i] == ops[..i];
  }

  /** The database: the participants table by id and the participant of each race. */
  class Db {
    var participants: map<int, Row>
    var races: map<int, int>

    constructor (participants: map<int, Row>, races: map<int, int>)
      ensures this.participants == participants && this.races == races
    {
      this.participants := participants;
      this.races := races;
    }

    function State(): DbState
      reads this
    {
      DbState(participants, races)
    }

    /** `UPDATE races SET participant_id = ? WHERE participant_id = ?`. */
    method UpdateRaces(newId: int, oldId: int)
      modifies this
      ensures races == Reassign(old(races), oldId, newId)
      ensures participants == old(participants)
    {
      races := Reassign(races, oldId, newId);
    }

    /** `DELETE FROM participants WHERE id = ?`. */
    method DeleteParticipant(id: int)
      modifies this
      ensures participants == old(participants) - {id}
      ensures races == old(races)
    {
      participants := participants - {id};
    }

    /** mergeDuplicates over the rows the participants query returned: the plan, nothing
        changed when it is empty, else each operation reassigns the races and then deletes
        the old participant. */
    method MergeDuplicates(rows: seq<Row>) returns (ops: seq<MergeOp>)
      modifies this
      ensures ops == MergeOperations(rows)
      ensures State() == Execute(old(State()), ops)
      ensures ops == [] ==> participants == old(participants) && races == old(races)
    {
      ops := PlanMerges(rows);
      if |ops| == 0 {
        return;
      }
      ghost var s0 := State();
      var i := 0;
      while i < |ops|
        invariant 0 <= i <= |ops|
        invariant State() == Execute(s0, ops[..i])
      {
        ghost var before := State();
        UpdateRaces(ops[i].newId, ops[i].oldId);
        DeleteParticipant(ops[i].oldId);
        assert State() == ApplyOp(before, ops[i]);
        ExecuteStep(s0, ops, i);
        i := i + 1;
      }
      assert ops[..i] == ops;
    }
  }
}
