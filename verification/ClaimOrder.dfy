/** The clock and the board of one node together (gyza/schema.py, gyza/blackboard.py): every local
    claim is stamped by `now`, every remote claim is observed by `recv` before it is merged. */
module ClaimOrder {
  import opened Common
  import Clock
  import opened Board

  /** The wall-clock reading `pt` is taken inside the operation that carries it. */
  datatype NodeOp =
    | TryClaim(id: string, agent: string, tier: Option<int>, pt: int)
    | ReceiveClaim(id: string, agent: string, stamp: Stamp, pt: int)
    | CompleteItem(id: string, done: Completion, owner: Option<string>, pt: int)
    | BoardOnly(op: Op)

  datatype Node = Node(clock: Clock.Time, rows: Rows)

  /** Steps that touch the board without the clock: everything but claims and claim merges, and
      posts of unclaimed items. */
  predicate ClockFree(op: Op) {
    !op.Claim? && !op.MergeClaim? && (op.Post? ==> op.item.claimedBy.None? && op.item.stamp == Unstamped)
  }

  predicate WellFormed(op: NodeOp) {
    op.BoardOnly? ==> ClockFree(op.op)
  }

  function StampOf(t: Clock.Time, node: string): Stamp {
    Stamp(t.l, t.c, node)
  }

  function TimeOf(s: Stamp): Clock.Time {
    Clock.Time(s.l, s.c)
  }

  /** The clock after an operation. */
  function ClockAfter(n: Node, op: NodeOp): Clock.Time {
    match op
    case TryClaim(_, _, _, pt) => Clock.Tick(n.clock, pt)
    case ReceiveClaim(_, _, stamp, pt) => Clock.Observe(n.clock, TimeOf(stamp), pt)
    case CompleteItem(_, _, _, pt) => Clock.Tick(n.clock, pt)
    case BoardOnly(_) => n.clock
  }

  /** The board step an operation performs. */
  function BoardOp(n: Node, nodeId: string, op: NodeOp): Op {
    match op
    case TryClaim(id, agent, tier, _) => Claim(id, agent, StampOf(ClockAfter(n, op), nodeId), tier)
    case ReceiveClaim(id, agent, stamp, _) => MergeClaim(id, agent, stamp)
    case CompleteItem(id, done, owner, _) => Complete(id, done, owner)
    case BoardOnly(o) => o
  }

  function NodeStep(n: Node, nodeId: string, op: NodeOp): Node {
    Node(ClockAfter(n, op), Step(n.rows, BoardOp(n, nodeId, op)))
  }

  function NodeAfter(n: Node, nodeId: string, ops: seq<NodeOp>, k: nat): Node
    requires k <= |ops|
  {
    if k == 0 then n else NodeStep(NodeAfter(n, nodeId, ops, k - 1), nodeId, ops[k - 1])
  }

  /** A node in the source's form: one HLC instance shared by every claim and every merge. */
  class NetworkNode {
    const hlc: Clock.HLC
    const board: Blackboard

    constructor (nodeId: string)
      ensures State() == Node(Clock.Time(0, 0), map[]) && hlc.nodeId == nodeId
      ensures fresh(hlc) && fresh(board)
    {
      hlc := new Clock.HLC(nodeId);
      board := new Blackboard();
    }

    function State(): Node
      reads this, hlc, board
    {
      Node(hlc.Reading(), board.rows)
    }

    /** `try_claim` without Raft: the clock ticks even when the claim is refused. */
    method TryClaimItem(id: string, agent: string, tier: Option<int>, pt: int) returns (ok: bool)
      modifies hlc, board
      ensures State() == NodeStep(old(State()), hlc.nodeId, TryClaim(id, agent, tier, pt))
      ensures ok == GrantsAt(old(State()), hlc.nodeId, TryClaim(id, agent, tier, pt), id)
      ensures Clock.Before(old(hlc.Reading()), hlc.Reading()) && pt <= hlc.l
      ensures ok <==> id in old(board.rows) && old(board.rows)[id].claimedBy == None
                      && old(board.rows)[id].requiredTier <= if tier.Some? then tier.value else 0
      ensures board.rows == if !ok then old(board.rows)
                            else old(board.rows)[id := old(board.rows)[id].(claimedBy := Some(agent), claimedAtNs := Some(hlc.l * 1_000_000),
                                                                            stamp := Stamp(hlc.l, hlc.c, hlc.nodeId))]
    {
      var l, c, node := hlc.Now(pt);
      ok := board.TryClaimDirect(id, agent, Stamp(l, c, node), tier);
    }

    /** A gossiped claim: observe its stamp, then merge it. */
    method Receive(id: string, agent: string, stamp: Stamp, pt: int) returns (ok: bool)
      modifies hlc, board
      ensures State() == NodeStep(old(State()), hlc.nodeId, ReceiveClaim(id, agent, stamp, pt))
      ensures ok == GrantsAt(old(State()), hlc.nodeId, ReceiveClaim(id, agent, stamp, pt), id)
      ensures Clock.Before(old(hlc.Reading()), hlc.Reading()) && Clock.Before(Clock.Time(stamp.l, stamp.c), hlc.Reading())
      ensures ok <==> id in old(board.rows) && old(board.rows)[id].completion == None && StampLt(old(board.rows)[id].stamp, stamp)
      ensures board.rows == if !ok then old(board.rows)
                            else old(board.rows)[id := old(board.rows)[id].(claimedBy := Some(agent), claimedAtNs := Some(stamp.l * 1_000_000),
                                                                            stamp := stamp)]
    {
      hlc.Recv(stamp.l, stamp.c, stamp.node, pt);
      ok := board.MergeClaimDirect(id, agent, stamp);
    }

    /** `complete_work_item` without Raft. */
    method CompleteItem(id: string, done: Completion, owner: Option<string>, pt: int) returns (r: Result)
      modifies hlc, board
      ensures State() == NodeStep(old(State()), hlc.nodeId, NodeOp.CompleteItem(id, done, owner, pt))
      ensures Clock.Before(old(hlc.Reading()), hlc.Reading())
      ensures r == ClaimLost <==> owner.Some? && (id !in old(board.rows) || old(board.rows)[id].claimedBy != owner)
      ensures board.rows == if r == ClaimLost || id !in old(board.rows) then old(board.rows)
                            else old(board.rows)[id := old(board.rows)[id].(completion := Some(done))]
    {
      var _, _, _ := hlc.Now(pt);
      r := board.CompleteWorkItemDirect(id, done, owner);
    }
  }

  /** No stored stamp is ahead of the clock. */
  ghost predicate StampsSeen(n: Node) {
    && !Clock.Before(n.clock, TimeOf(Unstamped))
    && forall id :: id in n.rows ==> !Clock.Before(n.clock, TimeOf(n.rows[id].stamp))
  }

  lemma StampsStaySeen(n: Node, nodeId: string, op: NodeOp)
    requires StampsSeen(n) && WellFormed(op)
    ensures StampsSeen(NodeStep(n, nodeId, op))
  {
  }

  lemma {:induction false} StampsAlwaysSeen(n: Node, nodeId: string, ops: seq<NodeOp>, k: nat)
    requires StampsSeen(n) && k <= |ops| && forall q :: 0 <= q < |ops| ==> WellFormed(ops[q])
    ensures StampsSeen(NodeAfter(n, nodeId, ops, k))
  {
    if k > 0 {
      StampsAlwaysSeen(n, nodeId, ops, k - 1);
      StampsStaySeen(NodeAfter(n, nodeId, ops, k - 1), nodeId, ops[k - 1]);
    }
  }

  predicate GrantsAt(n: Node, nodeId: string, op: NodeOp, id: string) {
    var o := BoardOp(n, nodeId, op);
    (op.TryClaim? || op.ReceiveClaim?) && Target(o) == id && Effective(n.rows, o)
  }

  predicate ReleasesAt(n: Node, op: NodeOp, id: string) {
    op.BoardOnly? && op.op.Release? && op.op.id == id && Effective(n.rows, op.op)
  }

  /** One step: a successful claim or merge strictly raises the stored stamp, a release sets it back
      to nothing, and no other step moves it. */
  lemma StepStamp(n: Node, nodeId: string, op: NodeOp, id: string)
    requires StampsSeen(n) && WellFormed(op) && id in n.rows
    ensures var a, b := n.rows[id].stamp, NodeStep(n, nodeId, op).rows[id].stamp;
            if GrantsAt(n, nodeId, op, id) then StampLt(a, b)
            else if ReleasesAt(n, op, id) then b == Unstamped
            else b == a
  {
  }

  /** Only a release can lower a stored stamp, and it does whenever the stamp was a real one. */
  lemma OnlyReleaseLowers(n: Node, nodeId: string, op: NodeOp, id: string)
    requires StampsSeen(n) && WellFormed(op) && id in n.rows
    ensures StampLt(NodeStep(n, nodeId, op).rows[id].stamp, n.rows[id].stamp)
            <==> ReleasesAt(n, op, id) && StampLt(Unstamped, n.rows[id].stamp)
  {
    StepStamp(n, nodeId, op, id);
    StampLtIsOrder();
    Asymmetric(StampLt);
  }

  predicate NoReleaseBetween(n: Node, nodeId: string, ops: seq<NodeOp>, i: nat, j: nat, id: string)
    requires i <= j <= |ops|
  {
    forall q :: i <= q < j ==> !ReleasesAt(NodeAfter(n, nodeId, ops, q), ops[q], id)
  }

  lemma {:induction false} RowsStay(n: Node, nodeId: string, ops: seq<NodeOp>, i: nat, j: nat, id: string)
    requires i <= j <= |ops| && id in NodeAfter(n, nodeId, ops, i).rows
    ensures id in NodeAfter(n, nodeId, ops, j).rows
  {
    if i < j {
      RowsStay(n, nodeId, ops, i, j - 1, id);
    }
  }

  ghost predicate GrantBetween(n: Node, nodeId: string, ops: seq<NodeOp>, i: nat, j: nat, id: string)
    requires i <= j <= |ops|
  {
    exists q :: i <= q < j && GrantsAt(NodeAfter(n, nodeId, ops, q), nodeId, ops[q], id)
  }

  lemma GrantBetweenStep(n: Node, nodeId: string, ops: seq<NodeOp>, i: nat, j: nat, id: string)
    requires i < j <= |ops|
    ensures GrantBetween(n, nodeId, ops, i, j, id) <==>
            GrantBetween(n, nodeId, ops, i, j - 1, id)
            || GrantsAt(NodeAfter(n, nodeId, ops, j - 1), nodeId, ops[j - 1], id)
  {
  }

  /** Through any stretch of a run without a release of the row, its stored stamp never drops, and
      it is strictly larger at the end exactly when some claim or merge succeeded in between,
      whatever reclaims and completions happened. */
  lemma {:induction false} StampsRise(n: Node, nodeId: string, ops: seq<NodeOp>, i: nat, j: nat, id: string)
    requires StampsSeen(n) && forall q :: 0 <= q < |ops| ==> WellFormed(ops[q])
    requires i <= j <= |ops| && id in NodeAfter(n, nodeId, ops, i).rows
    requires NoReleaseBetween(n, nodeId, ops, i, j, id)
    ensures id in NodeAfter(n, nodeId, ops, j).rows
    ensures var a, b := NodeAfter(n, nodeId, ops, i).rows[id].stamp, NodeAfter(n, nodeId, ops, j).rows[id].stamp;
            if GrantBetween(n, nodeId, ops, i, j, id) then StampLt(a, b) else a == b
  {
    if i < j {
      StampsRise(n, nodeId, ops, i, j - 1, id);
      GrantBetweenStep(n, nodeId, ops, i, j, id);
      var m := NodeAfter(n, nodeId, ops, j - 1);
      StampsAlwaysSeen(n, nodeId, ops, j - 1);
      assert !ReleasesAt(m, ops[j - 1], id);
      StepStamp(m, nodeId, ops[j - 1], id);
      Transitive(NodeAfter(n, nodeId, ops, i).rows[id].stamp, m.rows[id].stamp,
                 NodeStep(m, nodeId, ops[j - 1]).rows[id].stamp);
    }
  }

  lemma Transitive(a: Stamp, b: Stamp, c: Stamp)
    ensures StampLt(a, b) && StampLt(b, c) ==> StampLt(a, c)
  {
    StampLtIsOrder();
    assert Chain(StampLt, a, b, c) ==> StampLt(a, c);
  }

  /** Without `recv` before a merge the order is lost: after the merged claim is reclaimed, a local
      claim can store a smaller stamp. */
  lemma MergeWithoutRecvLowers(row: Row, remote: Stamp, pt: int, nodeId: string)
    requires row.claimedBy.None? && row.completion.None? && row.stamp == Unstamped && row.requiredTier <= 0
    requires 0 < pt < remote.l
    ensures var merged := StepRow(row, MergeClaim(row.id, "r", remote));
            var cleared := StepRow(merged, Reclaim(row.id, "r"));
            var claimed := StepRow(cleared, Claim(row.id, "a", StampOf(Clock.Tick(Clock.Time(0, 0), pt), nodeId), None));
            merged.stamp == cleared.stamp == remote && claimed.claimedBy == Some("a")
            && StampLt(claimed.stamp, cleared.stamp)
  {
  }
}
