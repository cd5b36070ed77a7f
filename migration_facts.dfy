/** What the merge plan of the migration holds and what executing it does to the
    database. */
module MigrationFacts {
  import opened Common
  import opened OrderedMaps
  import opened LatvianVariants
  import opened Migration

  // ---------------------------------------------------------------------------
  // One group

  /** A group's operations are exactly the members that are not the keeper, each merged
      into the keeper. */
  lemma {:induction false} GroupOpsMembers(group: seq<Row>, keep: Row)
    ensures forall op :: op in GroupOps(group, keep) <==>
              exists p :: p in group && p.id != keep.id && op == OpTo(p, keep)
    decreases |group|
  {
    if group != [] {
      var n := |group| - 1;
      GroupOpsMembers(group[..n], keep);
      assert group == group[..n] + [group[n]];
    }
  }

  /** Members with distinct ids give operations with distinct old ids. */
  lemma {:induction false} GroupOpsDistinct(group: seq<Row>, keep: Row)
    requires UniqueIds(group)
    ensures DistinctOld(GroupOps(group, keep))
    decreases |group|
  {
    if group != [] {
      var n := |group| - 1;
      var prefix := group[..n];
      PrefixUnique(group, n);
      GroupOpsDistinct(prefix, keep);
      GroupOpsMembers(prefix, keep);
      var a := GroupOps(prefix, keep);
      var b: seq<MergeOp> := if group[n].id != keep.id then [OpTo(group[n], keep)] else [];
      forall x, y | x in a && y in b ensures x.oldId != y.oldId {
        var p :| p in prefix && p.id != keep.id && x == OpTo(p, keep);
        var i :| 0 <= i < n && prefix[i] == p;
        assert group[i] == p;
      }
      DistinctOldConcat(a, b);
    }
  }

  lemma DistinctOldConcat(a: seq<MergeOp>, b: seq<MergeOp>)
    requires DistinctOld(a) && DistinctOld(b)
    requires forall x, y :: x in a && y in b ==> x.oldId != y.oldId
    ensures DistinctOld(a + b)
  {
    forall i, j | 0 <= i < |a + b| && 0 <= j < |a + b| && i != j
      ensures (a + b)[i].oldId != (a + b)[j].oldId
    {
      if i < |a| && j < |a| {
        assert (a + b)[i] == a[i] && (a + b)[j] == a[j];
      } else if i < |a| || j < |a| {
        assert (a + b)[i] in a + b && (a + b)[j] in a + b;
      } else {
        assert (a + b)[i] == b[i - |a|] && (a + b)[j] == b[j - |a|];
      }
    }
  }

  /** A prefix of operations with distinct old ids has distinct old ids. */
  lemma PrefixDistinct(ops: seq<MergeOp>, n: nat)
    requires DistinctOld(ops) && n <= |ops|
    ensures DistinctOld(ops[..n])
  {
    forall i, j | 0 <= i < n && 0 <= j < n && ops[..n][i].oldId == ops[..n][j].oldId ensures i == j {
      assert ops[..n][i] == ops[i] && ops[..n][j] == ops[j];
    }
  }

  /** The last of operations with distinct old ids deletes an id no earlier one does. */
  lemma LastOldFresh(ops: seq<MergeOp>)
    requires ops != [] && DistinctOld(ops)
    ensures ops[|ops| - 1].oldId !in OldIds(ops[..|ops| - 1])
  {
    var n := |ops| - 1;
    forall op | op in ops[..n] ensures op.oldId != ops[n].oldId {
      var i :| 0 <= i < n && ops[..n][i] == op;
      assert ops[i] == op;
    }
  }

  // ---------------------------------------------------------------------------
  // Grouping

  /** Two rows with the same id are the same row, when ids are unique. */
  lemma UniqueSame(rows: seq<Row>, p: Row, q: Row)
    requires UniqueIds(rows) && p in rows && q in rows
    ensures p.id == q.id ==> p == q
  {
    var i :| 0 <= i < |rows| && rows[i] == p;
    var j :| 0 <= j < |rows| && rows[j] == q;
  }

  lemma PrefixUnique(rows: seq<Row>, n: nat)
    requires UniqueIds(rows) && n <= |rows|
    ensures UniqueIds(rows[..n])
  {
    forall i, j | 0 <= i < n && 0 <= j < n && rows[..n][i].id == rows[..n][j].id ensures i == j {
      assert rows[..n][i] == rows[i] && rows[..n][j] == rows[j];
    }
  }

  lemma UniqueAppend(c: seq<Row>, x: Row)
    requires UniqueIds(c)
    requires forall i :: 0 <= i < |c| ==> c[i].id != x.id
    ensures UniqueIds(c + [x])
  {
    forall i, j | 0 <= i < |c + [x]| && 0 <= j < |c + [x]| && i != j
      ensures (c + [x])[i].id != (c + [x])[j].id
    {
      if i < |c| && j < |c| {
        assert (c + [x])[i] == c[i] && (c + [x])[j] == c[j];
      }
    }
  }

  /** A group is a sub-list of the rows, so it keeps their ids distinct. */
  lemma {:induction false} GroupUnique<K(!new)>(rows: seq<Row>, key: Row -> K, k: K)
    requires UniqueIds(rows)
    ensures UniqueIds(CollectOf(rows, key, Singleton, k))
    decreases |rows|
  {
    if rows != [] {
      var n := |rows| - 1;
      var prefix := rows[..n];
      PrefixUnique(rows, n);
      GroupUnique(prefix, key, k);
      var c := CollectOf(prefix, key, Singleton, k);
      if key(rows[n]) == k {
        assert CollectOf(rows, key, Singleton, k) == c + [rows[n]];
        forall i | 0 <= i < |c| ensures c[i].id != rows[n].id {
          GroupMembers(prefix, key, k, c[i]);
          var j :| 0 <= j < n && prefix[j] == c[i];
          assert rows[j] == c[i];
        }
        UniqueAppend(c, rows[n]);
      }
    }
  }

  /** A row is in its own group. */
  lemma GroupOfRow(rows: seq<Row>, p: Row)
    requires p in rows
    ensures p in GroupOf(rows, p)
  {
    InOwnGroup(rows, KeyOf, p);
  }

  /** The members of a row's group are rows with its key, and have the same group. */
  lemma GroupOfMember(rows: seq<Row>, p: Row, q: Row)
    requires q in GroupOf(rows, p)
    ensures q in rows && KeyOf(q) == KeyOf(p) && GroupOf(rows, q) == GroupOf(rows, p)
  {
    InGroup(rows, KeyOf, KeyOf(p), q);
  }

  /** An operation under a list of keys comes from the group of one of the keys. */
  lemma {:induction false} PlanOpsFrom(g: Groups, ks: seq<GroupKey>, op: MergeOp)
    requires op in PlanOps(g, ks)
    ensures exists i :: 0 <= i < |ks| && op in GroupPlan(g, ks[i])
    decreases |ks|
  {
    var n := |ks| - 1;
    if op !in GroupPlan(g, ks[n]) {
      PlanOpsFrom(g, ks[..n], op);
      var i :| 0 <= i < n && op in GroupPlan(g, ks[..n][i]);
      assert ks[..n][i] == ks[i];
    }
  }

  /** Every operation of the group of a listed key is planned. */
  lemma {:induction false} PlanOpsOf(g: Groups, ks: seq<GroupKey>, i: nat, op: MergeOp)
    requires i < |ks| && op in GroupPlan(g, ks[i])
    ensures op in PlanOps(g, ks)
    decreases |ks|
  {
    var n := |ks| - 1;
    assert PlanOps(g, ks) == PlanOps(g, ks[..n]) + GroupPlan(g, ks[n]);
    if i < n {
      assert ks[..n][i] == ks[i];
      PlanOpsOf(g, ks[..n], i, op);
      assert op in PlanOps(g, ks[..n]);
    }
  }

  /** The operations under a list of keys are those of the groups of the keys. */
  lemma PlanOpsMembers(g: Groups, ks: seq<GroupKey>)
    ensures forall op :: op in PlanOps(g, ks) <==>
              exists i :: 0 <= i < |ks| && op in GroupPlan(g, ks[i])
  {
    forall op | op in PlanOps(g, ks)
      ensures exists i :: 0 <= i < |ks| && op in GroupPlan(g, ks[i])
    {
      PlanOpsFrom(g, ks, op);
    }
    forall op, i | 0 <= i < |ks| && op in GroupPlan(g, ks[i])
      ensures op in PlanOps(g, ks)
    {
      PlanOpsOf(g, ks, i, op);
    }
  }

  // ---------------------------------------------------------------------------
  // The plan

  /** An operation of the group under k merges a row with key k that is not its group's
      keeper into that keeper. */
  lemma PlanOpSound(rows: seq<Row>, k: GroupKey, op: MergeOp)
    requires op in GroupPlan(GroupRows(rows), k)
    ensures exists p :: ToMerge(rows, p) && KeyOf(p) == k && op == OpTo(p, Keeper(GroupOf(rows, p)))
  {
    var g := GroupRows(rows);
    var grp := g.entries[k];
    var keep := Keeper(grp);
    GroupOpsMembers(grp, keep);
    var p :| p in grp && p.id != keep.id && op == OpTo(p, keep);
    InGroup(rows, KeyOf, k, p);
    assert GroupOf(rows, p) == grp;
  }

  /** A row that is not its group's keeper has an operation in the plan of its group. */
  lemma PlanOpComplete(rows: seq<Row>, p: Row)
    requires ToMerge(rows, p)
    ensures OpTo(p, Keeper(GroupOf(rows, p))) in GroupPlan(GroupRows(rows), KeyOf(p))
  {
    var g := GroupRows(rows);
    var grp := GroupOf(rows, p);
    var keep := Keeper(grp);
    GroupOfRow(rows, p);
    TwoMembers(grp, p, keep);
    assert GroupPlan(g, KeyOf(p)) == GroupOps(grp, keep);
    GroupOpsMembers(grp, keep);
  }

  lemma TwoMembers(grp: seq<Row>, p: Row, q: Row)
    requires p in grp && q in grp && p != q
    ensures |grp| > 1
  {
    var i :| 0 <= i < |grp| && grp[i] == p;
    var j :| 0 <= j < |grp| && grp[j] == q;
    assert i != j;
  }

  /** Every operation merges some row that is not its group's keeper into that keeper. */
  lemma MergeSound(rows: seq<Row>)
    ensures forall op :: op in MergeOperations(rows) ==>
              exists p :: ToMerge(rows, p) && op == OpTo(p, Keeper(GroupOf(rows, p)))
  {
    var g := GroupRows(rows);
    PlanOpsMembers(g, g.keys);
    forall op | op in MergeOperations(rows)
      ensures exists p :: ToMerge(rows, p) && op == OpTo(p, Keeper(GroupOf(rows, p)))
    {
      var i :| 0 <= i < |g.keys| && op in GroupPlan(g, g.keys[i]);
      PlanOpSound(rows, g.keys[i], op);
    }
  }

  /** Every row that is not its group's keeper is merged into that keeper. */
  lemma MergeComplete(rows: seq<Row>)
    ensures forall p :: ToMerge(rows, p) ==> OpTo(p, Keeper(GroupOf(rows, p))) in MergeOperations(rows)
  {
    var g := GroupRows(rows);
    PlanOpsMembers(g, g.keys);
    CollectByValid(rows, KeyOf, Singleton);
    forall p | ToMerge(rows, p) ensures OpTo(p, Keeper(GroupOf(rows, p))) in MergeOperations(rows) {
      PlanOpComplete(rows, p);
      InOwnGroup(rows, KeyOf, p);
      var i :| 0 <= i < |g.keys| && g.keys[i] == KeyOf(p);
    }
  }

  /** No operation merges a participant into itself. */
  lemma NoSelfMerge(rows: seq<Row>)
    ensures forall op :: op in MergeOperations(rows) ==> op.oldId != op.newId
  {
    MergeSound(rows);
  }

  /** The two rows of an operation share the normalized name, the season, the distance and
      the gender: rows from different seasons are never merged. */
  lemma MergeWithinKey(rows: seq<Row>)
    ensures forall op :: op in MergeOperations(rows) ==>
              exists p, q :: p in rows && q in rows && op == OpTo(p, q) &&
                NormalizeName(p.name) == NormalizeName(q.name) && p.season == q.season &&
                p.distance == q.distance && p.gender == q.gender
  {
    MergeSound(rows);
    forall op | op in MergeOperations(rows)
      ensures exists p, q :: p in rows && q in rows && op == OpTo(p, q) &&
                NormalizeName(p.name) == NormalizeName(q.name) && p.season == q.season &&
                p.distance == q.distance && p.gender == q.gender
    {
      var p :| ToMerge(rows, p) && op == OpTo(p, Keeper(GroupOf(rows, p)));
      var q := Keeper(GroupOf(rows, p));
      GroupOfMember(rows, p, q);
    }
  }

  /** Two rows with the same key and different ids give an operation for one of them, even
      when their names are spelled identically: there is no distinct-spelling check. */
  lemma SameKeyMerges(rows: seq<Row>, p: Row, q: Row)
    requires p in rows && q in rows && p.id != q.id && KeyOf(p) == KeyOf(q)
    ensures exists op :: op in MergeOperations(rows) && (op.oldId == p.id || op.oldId == q.id)
  {
    MergeComplete(rows);
    GroupOfRow(rows, p);
    GroupOfRow(rows, q);
    assert GroupOf(rows, p) == GroupOf(rows, q);
    if p.id != Keeper(GroupOf(rows, p)).id {
      assert ToMerge(rows, p);
      assert OpTo(p, Keeper(GroupOf(rows, p))) in MergeOperations(rows);
    } else {
      assert ToMerge(rows, q);
      assert OpTo(q, Keeper(GroupOf(rows, q))) in MergeOperations(rows);
    }
  }

  /** With unique ids no keeper is itself merged away. */
  lemma MergeNoChain(rows: seq<Row>)
    requires UniqueIds(rows)
    ensures NoChain(MergeOperations(rows))
  {
    MergeSound(rows);
    forall a, b | a in MergeOperations(rows) && b in MergeOperations(rows) ensures a.newId != b.oldId {
      var p :| ToMerge(rows, p) && a == OpTo(p, Keeper(GroupOf(rows, p)));
      var q :| ToMerge(rows, q) && b == OpTo(q, Keeper(GroupOf(rows, q)));
      var keep := Keeper(GroupOf(rows, p));
      GroupOfMember(rows, p, keep);
      UniqueSame(rows, keep, q);
    }
  }

  /** With unique ids every row is merged at most once. */
  lemma MergeDistinctOld(rows: seq<Row>)
    requires UniqueIds(rows)
    ensures DistinctOld(MergeOperations(rows))
  {
    var g := GroupRows(rows);
    CollectByValid(rows, KeyOf, Singleton);
    PlanOpsDistinct(rows, g.keys);
  }

  /** Operations planned for two different groups move different rows. */
  lemma OpsOfDifferentGroups(rows: seq<Row>, k1: GroupKey, k2: GroupKey, x: MergeOp, y: MergeOp)
    requires UniqueIds(rows) && k1 != k2
    requires x in GroupPlan(GroupRows(rows), k1) && y in GroupPlan(GroupRows(rows), k2)
    ensures x.oldId != y.oldId
  {
    PlanOpSound(rows, k1, x);
    PlanOpSound(rows, k2, y);
    var p :| ToMerge(rows, p) && KeyOf(p) == k1 && x == OpTo(p, Keeper(GroupOf(rows, p)));
    var q :| ToMerge(rows, q) && KeyOf(q) == k2 && y == OpTo(q, Keeper(GroupOf(rows, q)));
    UniqueSame(rows, p, q);
  }

  /** The operations of the groups before the last key move other rows than the last
      group's operations. */
  lemma PlanOpsApart(rows: seq<Row>, ks: seq<GroupKey>, n: nat)
    requires UniqueIds(rows) && Distinct(ks) && n == |ks| - 1
    ensures forall x, y :: x in PlanOps(GroupRows(rows), ks[..n]) && y in GroupPlan(GroupRows(rows), ks[n]) ==>
              x.oldId != y.oldId
  {
    var g := GroupRows(rows);
    PlanOpsMembers(g, ks[..n]);
    forall x, y | x in PlanOps(g, ks[..n]) && y in GroupPlan(g, ks[n]) ensures x.oldId != y.oldId {
      var i :| 0 <= i < n && x in GroupPlan(g, ks[..n][i]);
      assert ks[..n][i] == ks[i] && ks[i] != ks[n];
      OpsOfDifferentGroups(rows, ks[i], ks[n], x, y);
    }
  }

  lemma {:induction false} PlanOpsDistinct(rows: seq<Row>, ks: seq<GroupKey>)
    requires UniqueIds(rows) && Distinct(ks)
    ensures DistinctOld(PlanOps(GroupRows(rows), ks))
    decreases |ks|
  {
    if ks != [] {
      var g := GroupRows(rows);
      var n := |ks| - 1;
      assert Distinct(ks[..n]);
      PlanOpsDistinct(rows, ks[..n]);
      GroupPlanDistinct(rows, ks[n]);
      PlanOpsApart(rows, ks, n);
      DistinctOldConcat(PlanOps(g, ks[..n]), GroupPlan(g, ks[n]));
      assert PlanOps(g, ks) == PlanOps(g, ks[..n]) + GroupPlan(g, ks[n]);
    }
  }

  /** The operations of one group have distinct old ids. */
  lemma GroupPlanDistinct(rows: seq<Row>, k: GroupKey)
    requires UniqueIds(rows)
    ensures DistinctOld(GroupPlan(GroupRows(rows), k))
  {
    var g := GroupRows(rows);
    if k in g.entries && |g.entries[k]| > 1 {
      CollectByEntries(rows, KeyOf, Singleton);
      GroupUnique(rows, KeyOf, k);
      GroupOpsDistinct(g.entries[k], Keeper(g.entries[k]));
    }
  }

  // ---------------------------------------------------------------------------
  // Execution

  /** No race is added or removed. */
  lemma {:induction false} ExecuteRaceIds(s: DbState, ops: seq<MergeOp>)
    ensures Execute(s, ops).races.Keys == s.races.Keys
    decreases |ops|
  {
    if ops != [] {
      ExecuteRaceIds(s, ops[..|ops| - 1]);
    }
  }

  lemma OldIdsStep(ops: seq<MergeOp>)
    requires ops != []
    ensures OldIds(ops) == OldIds(ops[..|ops| - 1]) + {ops[|ops| - 1].oldId}
  {
    assert ops == ops[..|ops| - 1] + [ops[|ops| - 1]];
  }

  /** Exactly the old ids of the operations are deleted. */
  lemma {:induction false} ExecuteParticipants(s: DbState, ops: seq<MergeOp>)
    ensures Execute(s, ops).participants == s.participants - OldIds(ops)
    decreases |ops|
  {
    if ops != [] {
      ExecuteParticipants(s, ops[..|ops| - 1]);
      OldIdsStep(ops);
    }
  }

  /** Deleting distinct existing ids drops the participant count by the number of
      operations. */
  lemma {:induction false} ExecuteCount(s: DbState, ops: seq<MergeOp>)
    requires DistinctOld(ops)
    requires OldIds(ops) <= s.participants.Keys
    ensures |Execute(s, ops).participants| == |s.participants| - |ops|
    decreases |ops|
  {
    if ops != [] {
      var n := |ops| - 1;
      var prefix := ops[..n];
      PrefixDistinct(ops, n);
      OldIdsStep(ops);
      ExecuteCount(s, prefix);
      ExecuteParticipants(s, prefix);
      LastOldFresh(ops);
      assert ops[n].oldId in Execute(s, prefix).participants;
    }
  }

  /** Every race of a deleted participant ends at the participant it was merged into; every
      other race keeps its participant. */
  lemma {:induction false} ExecuteRedirects(s: DbState, ops: seq<MergeOp>)
    requires DistinctOld(ops) && NoChain(ops)
    ensures forall r, op :: r in s.races && op in ops && s.races[r] == op.oldId ==>
              r in Execute(s, ops).races && Execute(s, ops).races[r] == op.newId
    ensures forall r :: r in s.races && s.races[r] !in OldIds(ops) ==>
              r in Execute(s, ops).races && Execute(s, ops).races[r] == s.races[r]
    decreases |ops|
  {
    if ops != [] {
      var n := |ops| - 1;
      var prefix := ops[..n];
      var last := ops[n];
      PrefixDistinct(ops, n);
      assert NoChain(prefix);
      ExecuteRedirects(s, prefix);
      ExecuteRaceIds(s, prefix);
      OldIdsStep(ops);
      LastOldFresh(ops);
      forall r, op | r in s.races && op in ops && s.races[r] == op.oldId
        ensures r in Execute(s, ops).races && Execute(s, ops).races[r] == op.newId
      {
        if op in prefix {
          assert op.newId != last.oldId;
        } else {
          assert op == last;
        }
      }
    }
  }

  /** No race is left pointing at a deleted participant. */
  lemma NoDanglingRaces(s: DbState, ops: seq<MergeOp>)
    requires DistinctOld(ops) && NoChain(ops)
    ensures forall r :: r in Execute(s, ops).races ==> Execute(s, ops).races[r] !in OldIds(ops)
  {
    ExecuteRedirects(s, ops);
    ExecuteRaceIds(s, ops);
    forall r | r in Execute(s, ops).races ensures Execute(s, ops).races[r] !in OldIds(ops) {
      if s.races[r] in OldIds(ops) {
        var op :| op in ops && op.oldId == s.races[r];
        assert Execute(s, ops).races[r] == op.newId;
      }
    }
  }

  /** The migration as a whole, on a table whose rows all were listed with unique ids: the
      races stay, each race of a merged participant moves to its keeper, no race refers to a
      deleted participant, and the participant count drops by the number of operations. */
  lemma MigrationOutcome(rows: seq<Row>, s: DbState)
    requires UniqueIds(rows)
    requires forall p :: p in rows ==> p.id in s.participants
    ensures Execute(s, MergeOperations(rows)).races.Keys == s.races.Keys
    ensures |Execute(s, MergeOperations(rows)).participants| ==
            |s.participants| - |MergeOperations(rows)|
    ensures forall r :: r in Execute(s, MergeOperations(rows)).races ==>
              Execute(s, MergeOperations(rows)).races[r] !in OldIds(MergeOperations(rows))
    ensures forall r, p :: r in s.races && ToMerge(rows, p) && s.races[r] == p.id ==>
              r in Execute(s, MergeOperations(rows)).races &&
              Execute(s, MergeOperations(rows)).races[r] == Keeper(GroupOf(rows, p)).id
  {
    var ops := MergeOperations(rows);
    MergeNoChain(rows);
    MergeDistinctOld(rows);
    MergeSound(rows);
    MergeComplete(rows);
    ExecuteRaceIds(s, ops);
    assert OldIds(ops) <= s.participants.Keys by {
      forall x | x in OldIds(ops) ensures x in s.participants {
        var op :| op in ops && op.oldId == x;
        var p :| ToMerge(rows, p) && op == OpTo(p, Keeper(GroupOf(rows, p)));
      }
    }
    ExecuteCount(s, ops);
    NoDanglingRaces(s, ops);
    ExecuteRedirects(s, ops);
    forall r, p | r in s.races && ToMerge(rows, p) && s.races[r] == p.id
      ensures r in Execute(s, ops).races && Execute(s, ops).races[r] == Keeper(GroupOf(rows, p)).id
    {
      assert OpTo(p, Keeper(GroupOf(rows, p))) in ops;
    }
  }
}
