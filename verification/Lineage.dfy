/** Bounded decomposition (gyza/runner.py) over the parent links of the board (gyza/blackboard.py):
    who may post children, how deep, and what every board so reached looks like. */
module Lineage {
  import opened Common
  import opened Board
  import opened Queue

  const MAX_TASK_DEPTH: nat := 3
  const DEPTH_CAP: nat := 64

  // ------------------------------------------------------------------
  // lineage_depth
  // ------------------------------------------------------------------

  /** Parent hops above `id`, stopping at a missing row, at a row already seen, or at `cap`. */
  function Hops(rows: Rows, id: string, seen: set<string>, cap: nat): nat
    decreases cap
  {
    if cap == 0 || id !in rows || !HasParent(rows[id]) || rows[id].parentId.value in seen then 0
    else 1 + Hops(rows, rows[id].parentId.value, seen + {rows[id].parentId.value}, cap - 1)
  }

  function LineageDepth(rows: Rows, id: string): nat {
    Hops(rows, id, {id}, DEPTH_CAP)
  }

  /** `lineage_depth`: terminates on every graph. */
  method ComputeLineageDepth(rows: Rows, id: string, cap: nat) returns (depth: nat)
    ensures depth == Hops(rows, id, {id}, cap) && depth <= cap
    ensures id !in rows || rows[id].parentId.None? || rows[id].parentId.value == "" || rows[id].parentId.value == id ==> depth == 0
    ensures id in rows && HasParent(rows[id]) && rows[id].parentId.value != id && rows[id].parentId.value !in rows && cap > 0 ==> depth == 1
  {
    depth := 0;
    var cur, seen := id, {id};
    while cur in rows && HasParent(rows[cur]) && depth < cap
      invariant depth <= cap
      invariant Hops(rows, id, {id}, cap) == depth + Hops(rows, cur, seen, cap - depth)
      decreases cap - depth
    {
      var p := rows[cur].parentId.value;
      if p in seen {
        break;
      }
      seen := seen + {p};
      cur := p;
      depth := depth + 1;
    }
  }

  /** `path` runs from an item up to a root, every row on it being held. */
  ghost predicate IsAncestry(rows: Rows, path: seq<string>) {
    && path != []
    && (forall i :: 0 <= i < |path| ==> path[i] in rows)
    && (forall i :: 0 <= i < |path| - 1 ==> HasParent(rows[path[i]]) && rows[path[i]].parentId.value == path[i + 1])
    && !HasParent(rows[path[|path| - 1]])
  }

  /** A complete ancestry never revisits an item. */
  lemma {:induction false} AncestryDistinct(rows: Rows, path: seq<string>, i: nat, j: nat)
    requires IsAncestry(rows, path) && i < j < |path|
    ensures path[i] != path[j]
    decreases |path| - j
  {
    if path[i] == path[j] && j < |path| - 1 {
      AncestryDistinct(rows, path, i + 1, j + 1);
    }
  }

  /** On a complete ancestry the depth is exact, up to the cap. */
  lemma DepthExact(rows: Rows, path: seq<string>, cap: nat)
    requires IsAncestry(rows, path)
    ensures Hops(rows, path[0], {path[0]}, cap) == if |path| - 1 <= cap then |path| - 1 else cap
  {
    assert ToSet(path[..1]) == {path[0]};
    HopsAlong(rows, path, 0, cap);
  }

  lemma {:induction false} HopsAlong(rows: Rows, path: seq<string>, i: nat, cap: nat)
    requires IsAncestry(rows, path) && i < |path|
    ensures Hops(rows, path[i], ToSet(path[..i + 1]), cap) == if |path| - 1 - i <= cap then |path| - 1 - i else cap
    decreases |path| - i
  {
    if i < |path| - 1 && cap > 0 {
      var p := path[i + 1];
      forall k | 0 <= k < i + 1 ensures path[k] != p {
        AncestryDistinct(rows, path, k, i + 1);
      }
      AppendToSet(path[..i + 1], p);
      assert path[..i + 1] + [p] == path[..i + 2];
      HopsAlong(rows, path, i + 1, cap - 1);
    }
  }

  // ------------------------------------------------------------------
  // The forest
  // ------------------------------------------------------------------

  /** `id` sits exactly `d` hops below a root of its own lineage, tiers never rising on the way. */
  ghost predicate Placed(rows: Rows, id: string, d: nat)
    decreases d
  {
    && id in rows
    && if d == 0 then !HasParent(rows[id])
       else HasParent(rows[id])
            && Placed(rows, rows[id].parentId.value, d - 1)
            && rows[id].lineageRoot == rows[rows[id].parentId.value].lineageRoot
            && rows[id].requiredTier <= rows[rows[id].parentId.value].requiredTier
  }

  ghost predicate WithinDepth(rows: Rows, id: string) {
    exists d: nat :: d <= MAX_TASK_DEPTH && Placed(rows, id, d)
  }

  ghost predicate Forest(rows: Rows) {
    Keyed(rows) && forall id {:trigger WithinDepth(rows, id)} :: id in rows ==> WithinDepth(rows, id)
  }

  /** An item's distance from the root above it. */
  ghost function DepthIn(rows: Rows, id: string): nat
    requires Forest(rows) && id in rows
  {
    assert WithinDepth(rows, id);
    var d: nat :| d <= MAX_TASK_DEPTH && Placed(rows, id, d); d
  }

  lemma RootsAreForest(rows: Rows)
    requires Keyed(rows) && forall id :: id in rows ==> !HasParent(rows[id])
    ensures Forest(rows)
  {
    forall id | id in rows ensures WithinDepth(rows, id) {
      assert Placed(rows, id, 0);
    }
  }

  /** The path above a placed item: complete, to a root of the same lineage and at least its tier. */
  lemma {:induction false} PathAbove(rows: Rows, id: string, d: nat) returns (path: seq<string>)
    requires Placed(rows, id, d)
    ensures |path| == d + 1 && path[0] == id && IsAncestry(rows, path)
    ensures forall i :: 0 <= i < |path| ==> rows[path[i]].lineageRoot == rows[id].lineageRoot
    ensures forall i, j :: 0 <= i <= j < |path| ==> rows[path[i]].requiredTier <= rows[path[j]].requiredTier
    decreases d
  {
    if d == 0 {
      path := [id];
    } else {
      var rest := PathAbove(rows, rows[id].parentId.value, d - 1);
      path := [id] + rest;
    }
  }

  lemma {:induction false} PlacedUnique(rows: Rows, id: string, d: nat, e: nat)
    requires Placed(rows, id, d) && Placed(rows, id, e)
    ensures d == e
    decreases d
  {
    if d > 0 && e > 0 {
      PlacedUnique(rows, rows[id].parentId.value, d - 1, e - 1);
    }
  }

  lemma DepthOfPlaced(rows: Rows, id: string, d: nat)
    requires Placed(rows, id, d) && d <= DEPTH_CAP
    ensures LineageDepth(rows, id) == d
  {
    var path := PathAbove(rows, id, d);
    DepthExact(rows, path, DEPTH_CAP);
  }

  /** No parent link of a forest leads, however far it is followed, back to where it began. */
  lemma ForestAcyclic(rows: Rows, loop: seq<string>)
    requires Forest(rows) && |loop| >= 2 && loop[0] in rows
    requires forall i :: 0 <= i < |loop| - 1 ==> loop[i] in rows && rows[loop[i]].parentId == Some(loop[i + 1]) && HasParent(rows[loop[i]])
    ensures loop[0] != loop[|loop| - 1]
  {
    var d := DepthIn(rows, loop[0]);
    ClimbDrops(rows, loop, d);
    if loop[0] == loop[|loop| - 1] {
      PlacedUnique(rows, loop[0], d, d - (|loop| - 1));
    }
  }

  lemma {:induction false} ClimbDrops(rows: Rows, path: seq<string>, d: nat)
    requires path != [] && Placed(rows, path[0], d)
    requires forall i :: 0 <= i < |path| - 1 ==> path[i] in rows && rows[path[i]].parentId == Some(path[i + 1]) && HasParent(rows[path[i]])
    ensures |path| - 1 <= d && Placed(rows, path[|path| - 1], d - (|path| - 1))
    decreases |path|
  {
    if |path| > 1 {
      ClimbDrops(rows, path[1..], d - 1);
      assert path[1..][|path| - 2] == path[|path| - 1];
    }
  }

  // ------------------------------------------------------------------
  // _spawn_subtasks
  // ------------------------------------------------------------------

  /** The `spawn` section of the signed manifest. */
  datatype SpawnGrant = SpawnGrant(permitted: bool, maxChildren: int)

  /** `_manifest_max_children` */
  function MaxChildren(g: SpawnGrant): int {
    if !g.permitted then 0 else g.maxChildren
  }

  /** What an executor may ask for; absent fields default from the parent. */
  datatype SubtaskSpec = SubtaskSpec(reward: Option<real>, tier: Option<int>, inputs: seq<Digest>, spec: Option<OutputSpec>)

  /** `_child_output_spec`: the runner, not the caller, sets a combiner's parent pointer. */
  function ChildOutputSpec(sp: SubtaskSpec, parent: Row): OutputSpec {
    var spec := if sp.spec.Some? then sp.spec.value else OutputSpec("subtask", None);
    if spec.kind == COMBINE_KIND then spec.(target := Some(parent.id)) else spec
  }

  function Child(parent: Row, sp: SubtaskSpec, id: string, nowNs: int): Row {
    var asked := if sp.tier.Some? then sp.tier.value else parent.requiredTier;
    Row(id, parent.lineageRoot, Some(parent.id),
        if sp.reward.Some? then sp.reward.value else parent.reward,
        if asked < parent.requiredTier then asked else parent.requiredTier,
        sp.inputs, ChildOutputSpec(sp, parent), nowNs, parent.ttlNs,
        None, None, Unstamped, None)
  }

  /** `WorkItem.__post_init__` */
  predicate ValidItem(w: Row) {
    0.0 <= w.reward <= 1.0 && 0 <= w.requiredTier <= 3
  }

  datatype SpawnResult =
    | Nothing
    | Spawned(made: seq<string>, combine: Option<string>)
    | Refused
    | InvalidItem(made: seq<string>)

  /** One more child under an existing item that the depth policy lets have children. */
  ghost predicate AddsChild(rows: Rows, next: Rows, parent: string, child: Row) {
    && parent in rows && child.id !in rows
    && LineageDepth(rows, parent) + 1 <= MAX_TASK_DEPTH
    && child.parentId == Some(parent)
    && child.lineageRoot == rows[parent].lineageRoot
    && child.requiredTier <= rows[parent].requiredTier
    && next == rows[child.id := child]
  }

  lemma {:induction false} PlacedGrows(rows: Rows, next: Rows, id: string, d: nat)
    requires Placed(rows, id, d)
    requires forall k :: k in rows ==> k in next && SameLinks(rows[k], next[k])
    ensures Placed(next, id, d)
    decreases d
  {
    if d > 0 {
      PlacedGrows(rows, next, rows[id].parentId.value, d - 1);
    }
  }

  /** The columns no board step ever changes. */
  predicate SameLinks(a: Row, b: Row) {
    a.id == b.id && a.parentId == b.parentId && a.lineageRoot == b.lineageRoot && a.requiredTier == b.requiredTier
  }

  lemma ChildKeepsForest(rows: Rows, next: Rows, parent: string, child: Row)
    requires Forest(rows) && AddsChild(rows, next, parent, child)
    ensures Forest(next)
    ensures LineageDepth(next, parent) == LineageDepth(rows, parent)
  {
    forall id | id in rows ensures WithinDepth(next, id) {
      var d := DepthIn(rows, id);
      PlacedGrows(rows, next, id, d);
    }
    var d := DepthIn(rows, parent);
    PlacedGrows(rows, next, parent, d);
    DepthOfPlaced(rows, parent, d);
    DepthOfPlaced(next, parent, d);
    assert Placed(next, child.id, if parent == "" then 0 else d + 1);
  }

  /** Claims, merges, completions, releases and reclaims leave the forest alone. */
  lemma StepKeepsForest(rows: Rows, op: Op)
    requires Forest(rows) && !op.Post?
    ensures Forest(Step(rows, op))
  {
    var next := Step(rows, op);
    forall id | id in next ensures WithinDepth(next, id) {
      var d := DepthIn(rows, id);
      PlacedGrows(rows, next, id, d);
    }
  }

  /** `_spawn_subtasks` on a runner's board. The ids are new, as UUIDs are. A refusal posts nothing;
      an invalid subtask stops the loop after the children already posted. */
  method SpawnSubtasks(board: Blackboard, parent: Row, specs: seq<SubtaskSpec>, grant: SpawnGrant,
                       ids: seq<string>, nowNs: int) returns (r: SpawnResult)
    requires Forest(board.rows) && parent.id in board.rows && SameLinks(parent, board.rows[parent.id])
    requires |ids| == |specs| && Distinct(ids) && forall i :: 0 <= i < |ids| ==> ids[i] !in board.rows
    modifies board
    ensures Forest(board.rows)
    ensures r.Nothing? <==> specs == []
    ensures r.Refused? <==> specs != [] && (!grant.permitted || grant.maxChildren <= 0 || |specs| > grant.maxChildren
                                            || LineageDepth(old(board.rows), parent.id) >= 3)
    ensures r.Nothing? || r.Refused? ==> board.rows == old(board.rows)
    ensures r.Spawned? || r.InvalidItem? ==>
              Decomposes(old(board.rows), board.rows, parent, specs, ids, nowNs, |r.made|) && r.made == ids[..|r.made|]
    ensures r.Spawned? || r.InvalidItem? ==> forall i :: 0 <= i < |r.made| ==> ids[i] in board.rows
    ensures r.Spawned? || r.InvalidItem? ==>
              forall i :: 0 <= i < |r.made| ==>
                var w, sp := board.rows[ids[i]], specs[i];
                && w.spec.kind == (if sp.spec.Some? then sp.spec.value.kind else "subtask")
                && w.spec.target == (if w.spec.kind == "combine" then Some(parent.id) else if sp.spec.Some? then sp.spec.value.target else None)
                && w.inputHashes == sp.inputs
                && w.reward == (if sp.reward.Some? then sp.reward.value else parent.reward)
                && w.requiredTier == (if sp.tier.Some? && sp.tier.value < parent.requiredTier then sp.tier.value else parent.requiredTier)
                && w.parentId == Some(parent.id) && w.lineageRoot == parent.lineageRoot && w.ttlNs == parent.ttlNs
                && w.claimedBy == None && w.completion == None && w.stamp == Stamp(0, 0, "")
    ensures (r.Spawned? || r.InvalidItem?) && |r.made| > 1 && parent.id != "" ==>
              forall i :: 0 <= i < |r.made| && specs[i].spec.Some? && specs[i].spec.value.kind == "combine" ==>
                IsCombiner(board.rows[ids[i]]) && !Open(board.rows, board.rows[ids[i]])
    ensures r.Spawned? ==> |r.made| == |specs|
    ensures r.Spawned? ==>
              (r.combine.Some? <==> exists i :: 0 <= i < |specs| && specs[i].spec.Some? && specs[i].spec.value.kind == "combine")
    ensures r.Spawned? && r.combine.Some? ==>
              exists i :: && 0 <= i < |specs| && r.combine.value == ids[i] && specs[i].spec.Some? && specs[i].spec.value.kind == "combine"
                          && forall j :: i < j < |specs| && specs[j].spec.Some? ==> specs[j].spec.value.kind != "combine"
    ensures r.InvalidItem? ==>
              && |r.made| < |specs|
              && var sp := specs[|r.made|];
                 var reward := if sp.reward.Some? then sp.reward.value else parent.reward;
                 var tier := if sp.tier.Some? && sp.tier.value < parent.requiredTier then sp.tier.value else parent.requiredTier;
                 reward < 0.0 || reward > 1.0 || tier < 0 || tier > 3
  {
    if specs == [] {
      return Nothing;
    }
    var cap := MaxChildren(grant);
    if cap <= 0 {
      return Refused;
    }
    if |specs| > cap {
      return Refused;
    }
    var depth := ComputeLineageDepth(board.rows, parent.id, DEPTH_CAP);
    if depth + 1 > MAX_TASK_DEPTH {
      return Refused;
    }
    ghost var start := board.rows;
    r := PostChildren(board, parent, specs, ids, nowNs);
    PostedMeans(start, board.rows, parent, specs, ids, nowNs, |r.made|);
    CombineMeans(parent, specs, ids, |r.made|);
  }

  /** The posting loop: one child per subtask until an item is invalid. */
  method PostChildren(board: Blackboard, parent: Row, specs: seq<SubtaskSpec>, ids: seq<string>, nowNs: int)
    returns (r: SpawnResult)
    requires Forest(board.rows) && parent.id in board.rows && SameLinks(parent, board.rows[parent.id])
    requires |ids| == |specs| && Distinct(ids) && forall i :: 0 <= i < |ids| ==> ids[i] !in board.rows
    requires LineageDepth(board.rows, parent.id) + 1 <= MAX_TASK_DEPTH
    modifies board
    ensures Forest(board.rows)
    ensures r.Spawned? || r.InvalidItem?
    ensures Posted(old(board.rows), board.rows, parent, specs, ids, nowNs, |r.made|) && r.made == ids[..|r.made|]
    ensures r.Spawned? ==> |r.made| == |specs| && r.combine == LastCombiner(parent, specs, ids, |specs|)
    ensures r.InvalidItem? ==> |r.made| < |specs| && !ValidItem(Child(parent, specs[|r.made|], ids[|r.made|], nowNs))
  {
    var made: seq<string> := [];
    var combine: Option<string> := None;
    ghost var start := board.rows;
    ghost var depth := LineageDepth(start, parent.id);
    for i := 0 to |specs|
      invariant |made| == i && forall k :: 0 <= k < i ==> made[k] == ids[k]
      invariant Posted(start, board.rows, parent, specs, ids, nowNs, i)
      invariant Forest(board.rows) && LineageDepth(board.rows, parent.id) == depth
      invariant combine == LastCombiner(parent, specs, ids, i)
    {
      var child := Child(parent, specs[i], ids[i], nowNs);
      if !ValidItem(child) {
        return InvalidItem(made);
      }
      PostedStep(start, board.rows, parent, specs, ids, nowNs, i);
      board.PostWorkItemDirect(child);
      made := made + [child.id];
      if child.spec.kind == COMBINE_KIND {
        combine := Some(child.id);
      }
    }
    return Spawned(made, combine);
  }

  /** The posted rows, field by field; a combiner among several waits for the others. */
  lemma PostedMeans(before: Rows, after: Rows, parent: Row, specs: seq<SubtaskSpec>, ids: seq<string>, nowNs: int, n: nat)
    requires Posted(before, after, parent, specs, ids, nowNs, n) && Distinct(ids) && |ids| == |specs|
    ensures forall i :: 0 <= i < n ==> ids[i] in after
    ensures
      forall i :: 0 <= i < n ==>
        var w, sp := after[ids[i]], specs[i];
        && w.spec.kind == (if sp.spec.Some? then sp.spec.value.kind else "subtask")
        && w.spec.target == (if w.spec.kind == "combine" then Some(parent.id) else if sp.spec.Some? then sp.spec.value.target else None)
        && w.inputHashes == sp.inputs
        && w.reward == (if sp.reward.Some? then sp.reward.value else parent.reward)
        && w.requiredTier == (if sp.tier.Some? && sp.tier.value < parent.requiredTier then sp.tier.value else parent.requiredTier)
        && w.parentId == Some(parent.id) && w.lineageRoot == parent.lineageRoot && w.ttlNs == parent.ttlNs
        && w.claimedBy == None && w.completion == None && w.stamp == Stamp(0, 0, "")
    ensures n > 1 && parent.id != "" ==>
              forall i :: 0 <= i < n && specs[i].spec.Some? && specs[i].spec.value.kind == "combine" ==>
                IsCombiner(after[ids[i]]) && !Open(after, after[ids[i]])
  {
    forall i | 0 <= i < n ensures ids[i] in after {
      assert ids[..n][i] == ids[i];
    }
    forall i | 0 <= i < n && n > 1 && parent.id != "" && specs[i].spec.Some? && specs[i].spec.value.kind == "combine"
      ensures IsCombiner(after[ids[i]]) && !Open(after, after[ids[i]])
    {
      var j := if i == 0 then 1 else 0;
      assert ids[i] != ids[j];
      assert ids[j] in PendingSiblings(after, after[ids[i]]);
    }
  }

  lemma {:induction false} CombineMeans(parent: Row, specs: seq<SubtaskSpec>, ids: seq<string>, n: nat)
    requires n <= |specs| == |ids|
    ensures var c := LastCombiner(parent, specs, ids, n);
            && (c.Some? <==> exists i :: 0 <= i < n && specs[i].spec.Some? && specs[i].spec.value.kind == "combine")
            && (c.Some? ==>
                  exists i :: && 0 <= i < n && c.value == ids[i] && specs[i].spec.Some? && specs[i].spec.value.kind == "combine"
                              && forall j :: i < j < n && specs[j].spec.Some? ==> specs[j].spec.value.kind != "combine")
  {
    if n > 0 {
      CombineMeans(parent, specs, ids, n - 1);
    }
  }

  /** Exactly the first `n` children were added. */
  ghost predicate Posted(before: Rows, after: Rows, parent: Row, specs: seq<SubtaskSpec>, ids: seq<string>, nowNs: int, n: nat) {
    && n <= |specs| && n <= |ids|
    && after.Keys == before.Keys + ToSet(ids[..n])
    && (forall id :: id in before ==> after[id] == before[id])
    && (forall i :: 0 <= i < n ==> after[ids[i]] == Child(parent, specs[i], ids[i], nowNs))
  }

  /** A decomposition that the depth policy allows posted exactly the first `n` children, under new ids. */
  ghost predicate Decomposes(before: Rows, after: Rows, parent: Row, specs: seq<SubtaskSpec>, ids: seq<string>, nowNs: int, n: nat) {
    && parent.id in before && SameLinks(parent, before[parent.id])
    && Distinct(ids) && (forall i :: 0 <= i < |ids| ==> ids[i] !in before)
    && LineageDepth(before, parent.id) + 1 <= MAX_TASK_DEPTH
    && Posted(before, after, parent, specs, ids, nowNs, n)
  }

  /** `combine_id`: the last child posted that is a combiner. */
  function LastCombiner(parent: Row, specs: seq<SubtaskSpec>, ids: seq<string>, n: nat): Option<string>
    requires n <= |specs| && n <= |ids|
  {
    if n == 0 then None
    else if ChildOutputSpec(specs[n - 1], parent).kind == COMBINE_KIND then Some(ids[n - 1])
    else LastCombiner(parent, specs, ids, n - 1)
  }

  lemma PostedStep(before: Rows, rows: Rows, parent: Row, specs: seq<SubtaskSpec>, ids: seq<string>, nowNs: int, i: nat)
    requires Posted(before, rows, parent, specs, ids, nowNs, i) && i < |specs| == |ids|
    requires Distinct(ids) && forall k :: 0 <= k < |ids| ==> ids[k] !in before
    requires Forest(rows) && parent.id in before && SameLinks(parent, before[parent.id])
    requires LineageDepth(rows, parent.id) + 1 <= MAX_TASK_DEPTH
    ensures ids[i] !in rows
    ensures var next := rows[ids[i] := Child(parent, specs[i], ids[i], nowNs)];
            && Posted(before, next, parent, specs, ids, nowNs, i + 1)
            && Forest(next) && LineageDepth(next, parent.id) == LineageDepth(rows, parent.id)
  {
    AppendToSet(ids[..i], ids[i]);
    assert ids[..i + 1] == ids[..i] + [ids[i]];
    var child := Child(parent, specs[i], ids[i], nowNs);
    assert AddsChild(rows, rows[child.id := child], parent.id, child);
    ChildKeepsForest(rows, rows[child.id := child], parent.id, child);
  }

  // ------------------------------------------------------------------
  // How many items one root can grow into
  // ------------------------------------------------------------------

  /** The items `d` hops below `root`. */
  ghost function Level(rows: Rows, root: string, d: nat): set<string> {
    if d == 0 then {root} else ChildrenOfAll(rows, Level(rows, root, d - 1))
  }

  ghost function ChildrenOfAll(rows: Rows, parents: set<string>): set<string> {
    set id | id in rows && HasParent(rows[id]) && rows[id].parentId.value in parents
  }

  ghost predicate BoundedFanout(rows: Rows, k: nat) {
    forall p: string :: p != "" ==> |ChildrenOf(rows, p)| <= k
  }

  lemma {:induction false} FanoutBound(rows: Rows, parents: set<string>, k: nat)
    requires BoundedFanout(rows, k)
    ensures |ChildrenOfAll(rows, parents)| <= k * |parents|
    decreases parents
  {
    if parents == {} {
      assert ChildrenOfAll(rows, parents) == {};
    } else {
      var p :| p in parents;
      var rest := parents - {p};
      FanoutBound(rows, rest, k);
      var others, kids := ChildrenOfAll(rows, rest), if p == "" then {} else ChildrenOf(rows, p);
      assert ChildrenOfAll(rows, parents) <= others + kids;
      SubsetCardinality(ChildrenOfAll(rows, parents), others + kids);
      assert |others + kids| <= |others| + |kids| <= k * |rest| + k;
      assert |parents| == |rest| + 1;
      assert k * (|rest| + 1) == k * |rest| + k;
    }
  }

  ghost function Power(k: nat, d: nat): nat {
    if d == 0 then 1 else k * Power(k, d - 1)
  }

  lemma {:induction false} LevelBound(rows: Rows, root: string, d: nat, k: nat)
    requires BoundedFanout(rows, k)
    ensures |Level(rows, root, d)| <= Power(k, d)
  {
    if d > 0 {
      LevelBound(rows, root, d - 1, k);
      FanoutBound(rows, Level(rows, root, d - 1), k);
      assert k * |Level(rows, root, d - 1)| <= k * Power(k, d - 1);
    }
  }

  /** The root at the top of a placed item. */
  ghost function Top(rows: Rows, id: string, d: nat): string
    requires Placed(rows, id, d)
    decreases d
  {
    if d == 0 then id else Top(rows, rows[id].parentId.value, d - 1)
  }

  lemma {:induction false} PlacedInLevel(rows: Rows, id: string, d: nat)
    requires Placed(rows, id, d)
    ensures id in Level(rows, Top(rows, id, d), d)
    decreases d
  {
    if d > 0 {
      PlacedInLevel(rows, rows[id].parentId.value, d - 1);
    }
  }

  /** `family` lies under `root`, itself included. */
  ghost predicate Under(rows: Rows, root: string, family: set<string>) {
    forall id :: id in family ==> exists d: nat :: d <= MAX_TASK_DEPTH && Placed(rows, id, d) && Top(rows, id, d) == root
  }

  /** In a forest where no item has more than `k` children, a root and everything under it number
      at most 1 + k + k^2 + k^3. */
  lemma FamilyBound(rows: Rows, root: string, k: nat, family: set<string>)
    requires Forest(rows) && BoundedFanout(rows, k)
    requires Under(rows, root, family)
    ensures |family| <= 1 + k + k * k + k * k * k
  {
    var levels := Levels(rows, root);
    forall id | id in family ensures id in levels {
      var d: nat :| d <= MAX_TASK_DEPTH && Placed(rows, id, d) && Top(rows, id, d) == root;
      PlacedInLevel(rows, id, d);
    }
    SubsetCardinality(family, levels);
    LevelsBound(rows, root, k);
  }

  ghost function Levels(rows: Rows, root: string): set<string> {
    Level(rows, root, 0) + Level(rows, root, 1) + Level(rows, root, 2) + Level(rows, root, 3)
  }

  lemma LevelsBound(rows: Rows, root: string, k: nat)
    requires BoundedFanout(rows, k)
    ensures |Levels(rows, root)| <= 1 + k + k * k + k * k * k
  {
    var l0, l1, l2, l3 := Level(rows, root, 0), Level(rows, root, 1), Level(rows, root, 2), Level(rows, root, 3);
    assert |l0| == 1 && |l1| <= k && |l2| <= k * k && |l3| <= k * k * k by {
      LevelBound(rows, root, 1, k);
      LevelBound(rows, root, 2, k);
      LevelBound(rows, root, 3, k);
      assert Power(k, 1) == k * Power(k, 0);
      assert Power(k, 2) == k * Power(k, 1);
      assert Power(k, 3) == k * Power(k, 2);
    }
  }
}
