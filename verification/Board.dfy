/** The shared board of gyza/blackboard.py: work-item rows changed by atomic steps. Every
    BEGIN IMMEDIATE block and every guarded UPDATE is one step. Wall-clock readings and remote
    deltas are parameters. */
module Board {
  import opened Common

  const MS_IN_NS: int := 1_000_000

  /** A claim's position in the total order (l, c, node). */
  datatype Stamp = Stamp(l: int, c: int, node: string)

  const Unstamped: Stamp := Stamp(0, 0, "")

  /** Python's comparison of (l, c, node) tuples. */
  predicate StampLt(a: Stamp, b: Stamp) {
    a.l < b.l || (a.l == b.l && (a.c < b.c || (a.c == b.c && StrLt(a.node, b.node))))
  }

  lemma StampLtIsOrder()
    ensures StrictTotalOrder(StampLt)
  {
    StrLtIsOrder();
    forall a, b, c | Chain(StampLt, a, b, c) ensures StampLt(a, c) {
      assert Chain(StrLt, a.node, b.node, c.node) ==> StrLt(a.node, c.node);
    }
    forall a, b ensures Compared(StampLt, a, b) {
      assert Compared(StrLt, a.node, b.node);
    }
  }

  /** The columns a completion sets together. */
  datatype Completion = Completion(atNs: int, output: Digest, envelope: Digest, success: bool)

  /** `output_spec`: its kind, and the parent a combiner points at. */
  datatype OutputSpec = OutputSpec(kind: string, target: Option<string>)

  const COMBINE_KIND: string := "combine"

  datatype Row = Row(
    id: string, lineageRoot: string, parentId: Option<string>,
    reward: real, requiredTier: int, inputHashes: seq<Digest>, spec: OutputSpec,
    createdAtNs: int, ttlNs: int,
    claimedBy: Option<string>, claimedAtNs: Option<int>, stamp: Stamp,
    completion: Option<Completion>)

  type Rows = map<string, Row>

  datatype Op =
    | Post(item: Row)
    | Claim(id: string, agent: string, stamp: Stamp, tier: Option<int>)
    | MergeClaim(id: string, agent: string, stamp: Stamp)
    | MergeDone(id: string, done: Completion)
    | Complete(id: string, done: Completion, owner: Option<string>)
    | Release(id: string)
    | Reclaim(id: string, holder: string)

  function Target(op: Op): string {
    if op.Post? then op.item.id else op.id
  }

  /** `int(claimant_tier or 0)` */
  function TierOf(t: Option<int>): int {
    if t.Some? then t.value else 0
  }

  /** The guard of a step on an existing row. */
  predicate Fires(row: Row, op: Op) {
    match op
    case Post(_) => false
    case Claim(_, _, _, tier) => row.claimedBy.None? && row.requiredTier <= TierOf(tier)
    case MergeClaim(_, _, stamp) => row.completion.None? && StampLt(row.stamp, stamp)
    case MergeDone(_, _) => row.completion.None?
    case Complete(_, _, owner) => owner.None? || row.claimedBy == owner
    case Release(_) => row.claimedBy.Some? && row.completion.None?
    case Reclaim(_, holder) => row.claimedBy == Some(holder) && row.completion.None?
  }

  function Claimed(row: Row, agent: string, stamp: Stamp): Row {
    row.(claimedBy := Some(agent), claimedAtNs := Some(stamp.l * MS_IN_NS), stamp := stamp)
  }

  /** What a firing step leaves in the row. */
  function Written(row: Row, op: Op): Row {
    match op
    case Post(_) => row
    case Claim(_, agent, stamp, _) => Claimed(row, agent, stamp)
    case MergeClaim(_, agent, stamp) => Claimed(row, agent, stamp)
    case MergeDone(_, done) => row.(completion := Some(done))
    case Complete(_, done, _) => row.(completion := Some(done))
    case Release(_) => row.(claimedBy := None, claimedAtNs := None, stamp := Unstamped)
    case Reclaim(_, _) => row.(claimedBy := None, claimedAtNs := None)
  }

  function StepRow(row: Row, op: Op): Row {
    if Fires(row, op) then Written(row, op) else row
  }

  /** Did the step change the board? A post inserts only an absent id. */
  predicate Effective(rows: Rows, op: Op) {
    if op.Post? then op.item.id !in rows else op.id in rows && Fires(rows[op.id], op)
  }

  function Step(rows: Rows, op: Op): Rows {
    if !Effective(rows, op) then rows
    else if op.Post? then rows[op.item.id := op.item]
    else rows[op.id := Written(rows[op.id], op)]
  }

  /** Rows are filed under their own ids. */
  ghost predicate Keyed(rows: Rows) {
    forall id :: id in rows ==> rows[id].id == id
  }

  /** `not completed, claimed, and claimed before the cutoff` */
  predicate Expired(row: Row, cutoff: int) {
    row.claimedBy.Some? && row.completion.None? && row.claimedAtNs.Some? && row.claimedAtNs.value < cutoff
  }

  datatype Result = Done | ClaimLost

  class Blackboard {
    var rows: Rows

    constructor ()
      ensures rows == map[]
    {
      rows := map[];
    }

    /** `post_work_item_direct`: INSERT OR IGNORE. */
    method PostWorkItemDirect(w: Row)
      modifies this
      ensures rows == Step(old(rows), Post(w))
      ensures rows == if w.id in old(rows) then old(rows) else old(rows)[w.id := w]
    {
      if w.id !in rows {
        rows := rows[w.id := w];
      }
    }

    method TryClaimDirect(id: string, agent: string, stamp: Stamp, tier: Option<int>) returns (ok: bool)
      modifies this
      ensures ok == Effective(old(rows), Claim(id, agent, stamp, tier))
      ensures rows == Step(old(rows), Claim(id, agent, stamp, tier))
      ensures ok <==> id in old(rows) && old(rows)[id].claimedBy == None
                      && old(rows)[id].requiredTier <= if tier.Some? then tier.value else 0
      ensures rows == if !ok then old(rows)
                      else old(rows)[id := old(rows)[id].(claimedBy := Some(agent), claimedAtNs := Some(stamp.l * 1_000_000), stamp := stamp)]
    {
      var claimedAt := stamp.l * MS_IN_NS;
      if id !in rows || rows[id].claimedBy.Some? {
        return false;
      }
      if rows[id].requiredTier > TierOf(tier) {
        return false;
      }
      rows := rows[id := rows[id].(claimedBy := Some(agent), claimedAtNs := Some(claimedAt), stamp := stamp)];
      return true;
    }

    /** Last writer wins on the stamp order; a completed row is never touched. */
    method MergeClaimDirect(id: string, agent: string, stamp: Stamp) returns (ok: bool)
      modifies this
      ensures ok == Effective(old(rows), MergeClaim(id, agent, stamp))
      ensures rows == Step(old(rows), MergeClaim(id, agent, stamp))
      ensures ok <==> id in old(rows) && old(rows)[id].completion == None
                      && var cur := old(rows)[id].stamp;
                         cur.l < stamp.l || (cur.l == stamp.l && (cur.c < stamp.c || (cur.c == stamp.c && StrLt(cur.node, stamp.node))))
      ensures rows == if !ok then old(rows)
                      else old(rows)[id := old(rows)[id].(claimedBy := Some(agent), claimedAtNs := Some(stamp.l * 1_000_000), stamp := stamp)]
    {
      if id !in rows {
        return false;
      }
      var row := rows[id];
      if row.completion.Some? {
        return false;
      }
      if !StampLt(row.stamp, stamp) {
        return false;
      }
      rows := rows[id := row.(claimedBy := Some(agent), claimedAtNs := Some(stamp.l * MS_IN_NS), stamp := stamp)];
      return true;
    }

    /** First writer wins. */
    method MergeCompletionDirect(id: string, done: Completion) returns (ok: bool)
      modifies this
      ensures ok == Effective(old(rows), MergeDone(id, done))
      ensures rows == Step(old(rows), MergeDone(id, done))
      ensures ok <==> id in old(rows) && old(rows)[id].completion == None
      ensures rows == if !ok then old(rows) else old(rows)[id := old(rows)[id].(completion := Some(done))]
    {
      if id !in rows || rows[id].completion.Some? {
        return false;
      }
      rows := rows[id := rows[id].(completion := Some(done))];
      return true;
    }

    /** Overwrites any earlier completion; with `owner` it raises unless the owner holds the claim. */
    method CompleteWorkItemDirect(id: string, done: Completion, owner: Option<string>) returns (r: Result)
      modifies this
      ensures r == ClaimLost <==> owner.Some? && !Effective(old(rows), Complete(id, done, owner))
      ensures rows == Step(old(rows), Complete(id, done, owner))
      ensures r == ClaimLost <==> owner.Some? && (id !in old(rows) || old(rows)[id].claimedBy != owner)
      ensures rows == if r == ClaimLost || id !in old(rows) then old(rows) else old(rows)[id := old(rows)[id].(completion := Some(done))]
    {
      if owner.None? {
        if id in rows {
          rows := rows[id := rows[id].(completion := Some(done))];
        }
        return Done;
      }
      var matched := id in rows && rows[id].claimedBy == owner;
      if matched {
        rows := rows[id := rows[id].(completion := Some(done))];
      }
      return if matched then Done else ClaimLost;
    }

    method ReleaseClaim(id: string) returns (ok: bool)
      modifies this
      ensures ok == Effective(old(rows), Release(id))
      ensures rows == Step(old(rows), Release(id))
      ensures ok <==> id in old(rows) && old(rows)[id].claimedBy != None && old(rows)[id].completion == None
      ensures rows == if !ok then old(rows)
                      else old(rows)[id := old(rows)[id].(claimedBy := None, claimedAtNs := None, stamp := Stamp(0, 0, ""))]
    {
      ok := id in rows && rows[id].claimedBy.Some? && rows[id].completion.None?;
      if ok {
        rows := rows[id := rows[id].(claimedBy := None, claimedAtNs := None, stamp := Unstamped)];
      }
    }

    /** One guarded UPDATE of the reclaim sweep. */
    method ReclaimOne(id: string, holder: string) returns (ok: bool)
      modifies this
      ensures ok == Effective(old(rows), Reclaim(id, holder))
      ensures rows == Step(old(rows), Reclaim(id, holder))
      ensures ok <==> id in old(rows) && old(rows)[id].claimedBy == Some(holder) && old(rows)[id].completion == None
      ensures rows == if !ok then old(rows) else old(rows)[id := old(rows)[id].(claimedBy := None, claimedAtNs := None)]
    {
      ok := id in rows && rows[id].claimedBy == Some(holder) && rows[id].completion.None?;
      if ok {
        rows := rows[id := rows[id].(claimedBy := None, claimedAtNs := None)];
      }
    }

    /** `reclaim_expired_claims` run without interference: exactly the expired claims are
        cleared, their stamps stay, every other row is untouched. */
    method ReclaimExpiredClaims(leaseNs: int, nowNs: int) returns (reclaimed: seq<string>)
      modifies this
      ensures Distinct(reclaimed)
      ensures forall id :: id in reclaimed <==>
                id in old(rows) && old(rows)[id].claimedBy != None && old(rows)[id].completion == None
                && old(rows)[id].claimedAtNs.Some? && old(rows)[id].claimedAtNs.value < nowNs - leaseNs
      ensures rows.Keys == old(rows).Keys
      ensures forall id :: id in rows ==>
                rows[id] == if id in reclaimed
                            then old(rows)[id].(claimedBy := None, claimedAtNs := None)
                            else old(rows)[id]
    {
      var cutoff := nowNs - leaseNs;
      var selected := map id | id in rows && Expired(rows[id], cutoff) :: rows[id].claimedBy.value;
      var todo := selected.Keys;
      reclaimed := [];
      while todo != {}
        invariant todo <= selected.Keys && rows.Keys == old(rows).Keys
        invariant Distinct(reclaimed) && forall id :: id in reclaimed ==> id in selected && id !in todo
        invariant forall id :: id in selected.Keys - todo ==> id in reclaimed && id in rows
        invariant forall id :: id in selected.Keys - todo ==>
                    rows[id] == old(rows)[id].(claimedBy := None, claimedAtNs := None)
        invariant forall id :: id in rows && id !in selected.Keys - todo ==> rows[id] == old(rows)[id]
        decreases todo
      {
        var id :| id in todo;
        todo := todo - {id};
        var ok := ReclaimOne(id, selected[id]);
        if ok {
          reclaimed := reclaimed + [id];
        }
      }
    }
  }
}
