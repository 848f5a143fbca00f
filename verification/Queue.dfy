/** Serving work (gyza/blackboard.py): the ordered, optionally limited fetch of unclaimed items and
    the dependency gate that holds a combiner back while a sibling is outstanding. */
module Queue {
  import opened Common
  import opened Board
  import BoardRuns

  /** `not parent_id`: absent and empty read alike. */
  predicate HasParent(w: Row) {
    w.parentId.Some? && w.parentId.value != ""
  }

  /** `children_of` */
  function ChildrenOf(rows: Rows, parent: string): set<string> {
    set id | id in rows && rows[id].parentId == Some(parent)
  }

  /** `pending_siblings`, as a set of ids. */
  function PendingSiblings(rows: Rows, w: Row): set<string> {
    if !HasParent(w) then {}
    else set id | id in ChildrenOf(rows, w.parentId.value) && id != w.id && rows[id].completion.None?
  }

  predicate IsCombiner(w: Row) {
    w.spec.kind == COMBINE_KIND && HasParent(w)
  }

  /** The dependency gate lets `w` through. */
  predicate Open(rows: Rows, w: Row) {
    !IsCombiner(w) || PendingSiblings(rows, w) == {}
  }

  /** The WHERE clause. Completion does not appear in it: a completed, unclaimed row is eligible. */
  predicate Eligible(w: Row, minReward: real, tier: int, nowNs: int) {
    w.claimedBy.None? && w.reward >= minReward && w.requiredTier <= tier && w.createdAtNs + w.ttlNs > nowNs
  }

  function RankOf(rows: Rows, id: string): (real, int) {
    if id in rows then (rows[id].reward, rows[id].createdAtNs) else (0.0, 0)
  }

  /** ORDER BY reward DESC, created_at_ns ASC; `tie` is how the database orders equal rows. */
  predicate RanksBefore(rows: Rows, tie: (string, string) -> bool, a: string, b: string) {
    var (ra, ca) := RankOf(rows, a);
    var (rb, cb) := RankOf(rows, b);
    ra > rb || (ra == rb && (ca < cb || (ca == cb && tie(a, b))))
  }

  function Ranking(rows: Rows, tie: (string, string) -> bool): (string, string) -> bool {
    (a, b) => RanksBefore(rows, tie, a, b)
  }

  lemma RankingIsOrder(rows: Rows, tie: (string, string) -> bool)
    requires StrictTotalOrder(tie)
    ensures StrictTotalOrder(Ranking(rows, tie))
  {
    var lt := Ranking(rows, tie);
    forall a, b, c | Chain(lt, a, b, c) ensures lt(a, c) {
      assert Chain(tie, a, b, c) ==> tie(a, c);
    }
    forall a, b ensures Compared(lt, a, b) {
      assert Compared(tie, a, b);
    }
  }

  /** The full result of the SELECT, best first. */
  ghost predicate IsFetch(rows: Rows, tie: (string, string) -> bool, minReward: real, tier: int, nowNs: int, s: seq<string>) {
    && StrictlySorted(Ranking(rows, tie), s)
    && ToSet(s) == (set id | id in rows && Eligible(rows[id], minReward, tier, nowNs))
    && forall id :: id in s ==> id in rows
  }

  /** LIMIT: none or negative means all. */
  function Take(s: seq<string>, limit: Option<int>): seq<string> {
    if limit.None? || limit.value < 0 || limit.value >= |s| then s else s[..limit.value]
  }

  /** The fetched ids that pass the gate, in order. */
  function Gate(rows: Rows, s: seq<string>): (r: seq<string>)
    requires forall id :: id in s ==> id in rows
    ensures forall id :: id in r ==> id in s
  {
    if s == [] then []
    else
      var n := |s| - 1;
      Gate(rows, s[..n]) + if Open(rows, rows[s[n]]) then [s[n]] else []
  }

  /** What a fetch with this limit serves: the ranked, eligible items, cut and then gated. */
  ghost predicate IsServed(rows: Rows, tie: (string, string) -> bool, minReward: real, tier: int, limit: Option<int>,
                           nowNs: int, served: seq<string>) {
    exists fetch :: IsFetch(rows, tie, minReward, tier, nowNs, fetch) && served == Gate(rows, Take(fetch, limit))
  }

  /** The other fetched rows that are worth at least as much as `id` and, if no more, at least as old. */
  function Ahead(rows: Rows, minReward: real, tier: int, nowNs: int, id: string): set<string>
    requires id in rows
  {
    set k | && k in rows && k != id
            && rows[k].claimedBy == None && rows[k].reward >= minReward && rows[k].requiredTier <= tier
            && rows[k].createdAtNs + rows[k].ttlNs > nowNs
            && (rows[k].reward > rows[id].reward
                || (rows[k].reward == rows[id].reward && rows[k].createdAtNs <= rows[id].createdAtNs))
  }

  /** `get_unclaimed`: in order of reward and age, every row that qualifies and is not gated, except those
      with at least `limit` qualifying rows ahead of them. */
  method GetUnclaimed(rows: Rows, tie: (string, string) -> bool, minReward: real, tier: int, limit: Option<int>, nowNs: int)
    returns (served: seq<string>)
    requires StrictTotalOrder(tie)
    ensures IsServed(rows, tie, minReward, tier, limit, nowNs, served)
    ensures forall id :: id in served ==>
              && id in rows && rows[id].claimedBy == None && rows[id].reward >= minReward && rows[id].requiredTier <= tier
              && rows[id].createdAtNs + rows[id].ttlNs > nowNs
              && (rows[id].spec.kind == "combine" && rows[id].parentId.Some? && rows[id].parentId.value != "" ==>
                    forall k :: k in rows && rows[k].parentId == rows[id].parentId && k != rows[id].id ==> rows[k].completion.Some?)
    ensures forall id ::
              && id in rows && id !in served
              && rows[id].claimedBy == None && rows[id].reward >= minReward && rows[id].requiredTier <= tier
              && rows[id].createdAtNs + rows[id].ttlNs > nowNs
              && (rows[id].spec.kind == "combine" && rows[id].parentId.Some? && rows[id].parentId.value != "" ==>
                    forall k :: k in rows && rows[k].parentId == rows[id].parentId && k != rows[id].id ==> rows[k].completion.Some?)
              ==> limit.Some? && 0 <= limit.value <= |Ahead(rows, minReward, tier, nowNs, id)|
    ensures forall i, j :: 0 <= i < j < |served| && served[i] in rows && served[j] in rows ==>
              var a, b := rows[served[i]], rows[served[j]];
              served[i] != served[j] && (a.reward > b.reward || (a.reward == b.reward && a.createdAtNs <= b.createdAtNs))
  {
    var all := Fetch(rows, tie, minReward, tier, nowNs);
    served := Gated(rows, Take(all, limit));
    ServedMeans(rows, tie, minReward, tier, limit, nowNs, all, served);
    forall id | id in rows
      ensures Open(rows, rows[id]) <==>
              (rows[id].spec.kind == "combine" && rows[id].parentId.Some? && rows[id].parentId.value != "" ==>
                 forall k :: k in rows && rows[k].parentId == rows[id].parentId && k != rows[id].id ==> rows[k].completion.Some?)
    {
      OpenMeans(rows, id);
    }
  }

  /** The SELECT without its LIMIT. */
  method Fetch(rows: Rows, tie: (string, string) -> bool, minReward: real, tier: int, nowNs: int) returns (all: seq<string>)
    requires StrictTotalOrder(tie)
    ensures IsFetch(rows, tie, minReward, tier, nowNs, all)
  {
    RankingIsOrder(rows, tie);
    all := Sorted(Ranking(rows, tie), set id | id in rows && Eligible(rows[id], minReward, tier, nowNs));
    forall id | id in all ensures id in rows {
      assert id in ToSet(all);
    }
  }

  /** The loop over the fetched items. */
  method Gated(rows: Rows, items: seq<string>) returns (served: seq<string>)
    requires forall id :: id in items ==> id in rows
    ensures served == Gate(rows, items)
  {
    served := [];
    for i := 0 to |items|
      invariant served == Gate(rows, items[..i])
    {
      assert items[..i + 1][..i] == items[..i];
      var w := rows[items[i]];
      if w.spec.kind != COMBINE_KIND || !HasParent(w) {
        served := served + [items[i]];
      } else if PendingSiblings(rows, w) == {} {
        served := served + [items[i]];
      }
    }
    assert items[..|items|] == items;
  }

  /** The open rows are served in order; only a full limit keeps one out. */
  lemma ServedMeans(rows: Rows, tie: (string, string) -> bool, minReward: real, tier: int, limit: Option<int>, nowNs: int,
                    all: seq<string>, served: seq<string>)
    requires StrictTotalOrder(tie) && IsFetch(rows, tie, minReward, tier, nowNs, all)
    requires served == Gate(rows, Take(all, limit))
    ensures forall id :: id in served ==> id in rows && Eligible(rows[id], minReward, tier, nowNs) && Open(rows, rows[id])
    ensures forall id :: id in rows && Eligible(rows[id], minReward, tier, nowNs) && Open(rows, rows[id]) && id !in served ==>
              limit.Some? && 0 <= limit.value <= |Ahead(rows, minReward, tier, nowNs, id)|
    ensures forall i, j :: 0 <= i < j < |served| && served[i] in rows && served[j] in rows ==>
              var a, b := rows[served[i]], rows[served[j]];
              served[i] != served[j] && (a.reward > b.reward || (a.reward == b.reward && a.createdAtNs <= b.createdAtNs))
  {
    var items := Take(all, limit);
    GateMembers(rows, items);
    GateSorted(rows, Ranking(rows, tie), items);
    assert forall i, j :: 0 <= i < j < |served| ==> Ranking(rows, tie)(served[i], served[j]);
    assert forall id :: id in items ==> id in all;
    assert forall id :: id in all <==> id in ToSet(all);
    forall id | id in all && id !in items ensures limit.Some? && 0 <= limit.value <= |Ahead(rows, minReward, tier, nowNs, id)| {
      var i :| 0 <= i < |all| && all[i] == id;
      assert forall q :: 0 <= q < |items| ==> items[q] == all[q];
      CutHasEnoughAhead(rows, tie, minReward, tier, limit, nowNs, all, i);
    }
  }

  lemma OpenMeans(rows: Rows, id: string)
    requires id in rows
    ensures Open(rows, rows[id]) <==>
            (rows[id].spec.kind == "combine" && rows[id].parentId.Some? && rows[id].parentId.value != "" ==>
               forall k :: k in rows && rows[k].parentId == rows[id].parentId && k != rows[id].id ==> rows[k].completion.Some?)
  {
    if IsCombiner(rows[id]) {
      CombinerGate(rows, rows[id]);
    }
  }

  lemma CutHasEnoughAhead(rows: Rows, tie: (string, string) -> bool, minReward: real, tier: int, limit: Option<int>, nowNs: int,
                          all: seq<string>, i: nat)
    requires StrictTotalOrder(tie) && IsFetch(rows, tie, minReward, tier, nowNs, all)
    requires |Take(all, limit)| <= i < |all|
    ensures limit.Some? && all[i] in rows && 0 <= limit.value <= |Ahead(rows, minReward, tier, nowNs, all[i])|
  {
    RankingIsOrder(rows, tie);
    var id := all[i];
    var first := all[..i];
    forall q, r | 0 <= q < r < |first| ensures first[q] != first[r] {
      assert Ranking(rows, tie)(all[q], all[r]);
    }
    DistinctCardinality(first);
    forall k | k in ToSet(first) ensures k in Ahead(rows, minReward, tier, nowNs, id) {
      var q :| 0 <= q < i && all[q] == k;
      assert Ranking(rows, tie)(all[q], all[i]);
      assert k in ToSet(all);
    }
    SubsetCardinality(ToSet(first), Ahead(rows, minReward, tier, nowNs, id));
  }

  lemma {:induction false} GateSorted(rows: Rows, lt: (string, string) -> bool, s: seq<string>)
    requires (forall id :: id in s ==> id in rows) && StrictlySorted(lt, s)
    ensures StrictlySorted(lt, Gate(rows, s))
  {
    if s != [] {
      var n := |s| - 1;
      GateSorted(rows, lt, s[..n]);
      forall id | id in Gate(rows, s[..n]) ensures lt(id, s[n]) {
        assert id in s[..n];
        var i :| 0 <= i < n && s[i] == id;
      }
    }
  }

  lemma {:induction false} GateMembers(rows: Rows, s: seq<string>)
    requires forall id :: id in s ==> id in rows
    ensures forall id :: id in Gate(rows, s) <==> id in s && Open(rows, rows[id])
    ensures |Gate(rows, s)| <= |s|
  {
    if s != [] {
      var n := |s| - 1;
      GateMembers(rows, s[..n]);
      assert s == s[..n] + [s[n]];
    }
  }

  lemma {:induction false} GateOfPrefix(rows: Rows, s: seq<string>, n: nat)
    requires n <= |s| && forall id :: id in s ==> id in rows
    ensures Gate(rows, s[..n]) <= Gate(rows, s)
    decreases |s|
  {
    if n == |s| {
      assert s[..n] == s;
    } else {
      GateOfPrefix(rows, s[..|s| - 1], n);
      assert s[..|s| - 1][..n] == s[..n];
    }
  }

  /** Exactly the eligible items whose gate is open are served by an unlimited fetch. */
  lemma ServedExactly(rows: Rows, tie: (string, string) -> bool, minReward: real, tier: int, nowNs: int, served: seq<string>)
    requires IsServed(rows, tie, minReward, tier, None, nowNs, served)
    ensures forall id :: id in served <==>
              id in rows && Eligible(rows[id], minReward, tier, nowNs) && Open(rows, rows[id])
  {
    var fetch :| IsFetch(rows, tie, minReward, tier, nowNs, fetch) && served == Gate(rows, Take(fetch, None));
    GateMembers(rows, fetch);
    assert forall id :: id in fetch <==> id in ToSet(fetch);
  }

  /** A limited fetch serves a prefix of what the unlimited one serves, at most as many items as the
      limit allows, and never a gated combiner. */
  lemma LimitedIsPrefix(rows: Rows, tie: (string, string) -> bool, minReward: real, tier: int, nowNs: int,
                        limit: Option<int>, all: seq<string>, some: seq<string>)
    requires StrictTotalOrder(tie)
    requires IsServed(rows, tie, minReward, tier, None, nowNs, all)
    requires IsServed(rows, tie, minReward, tier, limit, nowNs, some)
    ensures some <= all
    ensures limit.Some? && limit.value >= 0 ==> |some| <= limit.value
    ensures forall id :: id in some ==> id in rows && Open(rows, rows[id])
  {
    var x :| IsFetch(rows, tie, minReward, tier, nowNs, x) && all == Gate(rows, Take(x, None));
    var y :| IsFetch(rows, tie, minReward, tier, nowNs, y) && some == Gate(rows, Take(y, limit));
    assert x == y by {
      RankingIsOrder(rows, tie);
      SortedUnique(Ranking(rows, tie), x, y);
    }
    CutAndGated(rows, x, limit);
  }

  lemma CutAndGated(rows: Rows, s: seq<string>, limit: Option<int>)
    requires forall id :: id in s ==> id in rows
    ensures Gate(rows, Take(s, limit)) <= Gate(rows, s) && |Gate(rows, Take(s, limit))| <= |Take(s, limit)|
    ensures forall id :: id in Gate(rows, Take(s, limit)) ==> Open(rows, rows[id])
  {
    var n := |Take(s, limit)|;
    assert Take(s, limit) == s[..n];
    GateOfPrefix(rows, s, n);
    GateMembers(rows, s[..n]);
  }

  // ------------------------------------------------------------------
  // The gate over time
  // ------------------------------------------------------------------

  /** A combiner is held back exactly while some other child of its parent is uncompleted. */
  lemma CombinerGate(rows: Rows, w: Row)
    requires IsCombiner(w)
    ensures !Open(rows, w) <==>
            exists id :: id in rows && rows[id].parentId == w.parentId && id != w.id && rows[id].completion.None?
  {
    if id :| id in rows && rows[id].parentId == w.parentId && id != w.id && rows[id].completion.None? {
      assert id in PendingSiblings(rows, w);
    }
  }

  /** Two uncompleted combiners of one parent hold each other back, whatever else has completed. */
  lemma RivalCombinersBlock(rows: Rows, a: string, b: string)
    requires Keyed(rows) && a in rows && b in rows && a != b
    requires IsCombiner(rows[a]) && IsCombiner(rows[b]) && rows[a].parentId == rows[b].parentId
    requires rows[a].completion.None? && rows[b].completion.None?
    ensures !Open(rows, rows[a]) && !Open(rows, rows[b])
  {
    assert b in PendingSiblings(rows, rows[a]) && a in PendingSiblings(rows, rows[b]);
  }

  /** An open gate can be shut again only by posting a new child of the same parent. */
  lemma GateStaysOpen(rows: Rows, op: Op, id: string)
    requires Keyed(rows) && id in rows && IsCombiner(rows[id]) && Open(rows, rows[id])
    ensures id in Step(rows, op)
    ensures !Open(Step(rows, op), Step(rows, op)[id]) <==>
            Effective(rows, op) && op.Post? && op.item.parentId == rows[id].parentId && op.item.completion.None?
  {
    var next := Step(rows, op);
    assert next[id].parentId == rows[id].parentId && next[id].id == id;
    assert forall k :: k in rows ==> next[k].parentId == rows[k].parentId;
    assert forall k :: k in rows && rows[k].completion.Some? ==> next[k].completion.Some?;
    forall k | k in rows && rows[k].parentId == rows[id].parentId && k != id ensures rows[k].completion.Some? {
      assert k !in PendingSiblings(rows, rows[id]);
    }
    if Effective(rows, op) && op.Post? && op.item.parentId == rows[id].parentId && op.item.completion.None? {
      assert op.item.id in PendingSiblings(next, next[id]);
    } else {
      forall k | k in PendingSiblings(next, next[id]) ensures false {
      }
    }
  }

  /** Step `k` posts a new uncompleted child of `parent`. */
  predicate PostsSibling(init: Rows, ops: seq<Op>, k: nat, parent: Option<string>)
    requires k < |ops|
  {
    BoardRuns.FiredAt(init, ops, k) && ops[k].Post? && ops[k].item.parentId == parent && ops[k].item.completion.None?
  }

  /** In every run: once its siblings have completed, a combiner is never held back again unless a new
      child of its parent is posted. */
  lemma {:induction false} GateThroughRun(init: Rows, ops: seq<Op>, i: nat, j: nat, id: string)
    requires Keyed(init)
    requires i <= j <= |ops| && id in BoardRuns.After(init, ops, i)
    requires var row := BoardRuns.After(init, ops, i)[id]; IsCombiner(row) && Open(BoardRuns.After(init, ops, i), row)
    requires forall k :: i <= k < j ==> !PostsSibling(init, ops, k, BoardRuns.After(init, ops, i)[id].parentId)
    ensures var rows := BoardRuns.After(init, ops, j);
            id in rows && Open(rows, rows[id]) && IsCombiner(rows[id])
            && rows[id].parentId == BoardRuns.After(init, ops, i)[id].parentId
  {
    if i < j {
      GateThroughRun(init, ops, i, j - 1, id);
      KeyedInRun(init, ops, j - 1);
      assert !PostsSibling(init, ops, j - 1, BoardRuns.After(init, ops, i)[id].parentId);
      GateStaysOpen(BoardRuns.After(init, ops, j - 1), ops[j - 1], id);
    }
  }

  /** In every run: a combiner is held back for as long as another child of its parent is uncompleted. */
  lemma {:induction false} CombinerWaits(init: Rows, ops: seq<Op>, j: nat, id: string, sibling: string)
    requires Keyed(init) && j <= |ops| && id in init && sibling in init && id != sibling
    requires init[id].spec.kind == "combine" && init[id].parentId.Some? && init[id].parentId.value != ""
    requires init[sibling].parentId == init[id].parentId
    ensures var rows := BoardRuns.After(init, ops, j);
            && id in rows && sibling in rows
            && rows[id].id == id && rows[id].spec == init[id].spec
            && rows[id].parentId == rows[sibling].parentId == init[id].parentId
            && (rows[sibling].completion.None? ==> !Open(rows, rows[id]))
  {
    var rows := BoardRuns.After(init, ops, j);
    if j > 0 {
      CombinerWaits(init, ops, j - 1, id, sibling);
    }
    if rows[sibling].completion.None? {
      CombinerGate(rows, rows[id]);
    }
  }

  lemma {:induction false} KeyedInRun(init: Rows, ops: seq<Op>, k: nat)
    requires Keyed(init) && k <= |ops|
    ensures Keyed(BoardRuns.After(init, ops, k))
  {
    if k > 0 {
      KeyedInRun(init, ops, k - 1);
    }
  }
}
