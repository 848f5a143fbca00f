/** Whole histories of a board that grows by decomposition (gyza/runner.py): starting from root items,
    `_spawn_subtasks` and every other board step keep the forest, and the number of items under a
    root is bounded by the number of children its members were given. */
module LineageRuns {
  import opened Common
  import opened Board
  import opened Queue
  import opened Lineage

  /** `PostChild` is one turn of the posting loop of `_spawn_subtasks`: the call numbered `call` checked
      the depth of its item when the board was in state `checked`, and anything may have happened
      since. `Other` is any other board step, including the posting of a new root. */
  datatype Act =
    | PostChild(parent: Row, spec: SubtaskSpec, id: string, nowNs: int, checked: nat, call: nat)
    | Other(op: Op)

  /** The depth check of `_spawn_subtasks` passes. */
  predicate MayDecompose(rows: Rows, parent: Row) {
    parent.id in rows && SameLinks(parent, rows[parent.id]) && LineageDepth(rows, parent.id) + 1 <= MAX_TASK_DEPTH
  }

  predicate Performs(states: seq<Rows>, act: Act, k: nat)
    requires k + 1 < |states|
  {
    match act
    case PostChild(parent, spec, id, nowNs, checked, _) =>
      && checked <= k && MayDecompose(states[checked], parent) && id !in states[k]
      && states[k + 1] == states[k][id := Child(parent, spec, id, nowNs)]
    case Other(op) => (op.Post? ==> !HasParent(op.item)) && states[k + 1] == Step(states[k], op)
  }

  /** The board passes through `states`, from one that holds root items only. */
  ghost predicate IsHistory(states: seq<Rows>, acts: seq<Act>) {
    && |states| == |acts| + 1
    && Keyed(states[0]) && (forall id :: id in states[0] ==> !HasParent(states[0][id]))
    && forall k :: 0 <= k < |acts| ==> Performs(states, acts[k], k)
  }

  /** Rows stay, and so do their links. */
  ghost predicate LinksKept(before: Rows, after: Rows) {
    forall id :: id in before ==> id in after && SameLinks(before[id], after[id])
  }

  lemma {:induction false} LinksPersist(states: seq<Rows>, acts: seq<Act>, i: nat, k: nat)
    requires IsHistory(states, acts) && i <= k <= |acts|
    ensures LinksKept(states[i], states[k])
  {
    if i < k {
      LinksPersist(states, acts, i, k - 1);
      assert Performs(states, acts[k - 1], k - 1);
      assert LinksKept(states[k - 1], states[k]);
    }
  }

  lemma RootKeepsForest(before: Rows, item: Row)
    requires Forest(before) && !HasParent(item)
    ensures Forest(Step(before, Post(item)))
  {
    var after := Step(before, Post(item));
    forall id | id in after ensures WithinDepth(after, id) {
      if id in before {
        var d := DepthIn(before, id);
        PlacedGrows(before, after, id, d);
      } else {
        assert Placed(after, id, 0);
      }
    }
  }

  /** An item's depth is what it was when it was checked. */
  lemma CheckLasts(checked: Rows, now: Rows, parent: Row)
    requires Forest(checked) && Forest(now) && LinksKept(checked, now) && MayDecompose(checked, parent)
    ensures MayDecompose(now, parent)
  {
    var d := DepthIn(checked, parent.id);
    PlacedGrows(checked, now, parent.id, d);
    DepthOfPlaced(checked, parent.id, d);
    DepthOfPlaced(now, parent.id, d);
  }

  /** Every board of every history is a forest of bounded depth, one lineage and non-rising tiers per
      path, however the posting loops of any number of runners interleave. */
  lemma {:induction false} HistoryKeepsForest(states: seq<Rows>, acts: seq<Act>, k: nat)
    requires IsHistory(states, acts) && k <= |acts|
    ensures Forest(states[k])
  {
    if k == 0 {
      RootsAreForest(states[0]);
    } else {
      var before, act := states[k - 1], acts[k - 1];
      HistoryKeepsForest(states, acts, k - 1);
      assert Performs(states, act, k - 1);
      if act.PostChild? {
        HistoryKeepsForest(states, acts, act.checked);
        LinksPersist(states, acts, act.checked, k - 1);
        CheckLasts(states[act.checked], before, act.parent);
        ChildKeepsForest(before, states[k], act.parent.id, Child(act.parent, act.spec, act.id, act.nowNs));
      } else if act.op.Post? {
        RootKeepsForest(before, act.op.item);
      } else {
        StepKeepsForest(before, act.op);
      }
    }
  }

  // ------------------------------------------------------------------
  // A call of _spawn_subtasks, turn by turn
  // ------------------------------------------------------------------

  /** The board after the first `n` turns of an undisturbed posting loop. */
  function Turns(before: Rows, parent: Row, specs: seq<SubtaskSpec>, ids: seq<string>, nowNs: int, n: nat): Rows
    requires n <= |specs| && n <= |ids|
  {
    if n == 0 then before
    else Turns(before, parent, specs, ids, nowNs, n - 1)[ids[n - 1] := Child(parent, specs[n - 1], ids[n - 1], nowNs)]
  }

  lemma {:induction false} TurnsPost(before: Rows, parent: Row, specs: seq<SubtaskSpec>, ids: seq<string>, nowNs: int, n: nat)
    requires n <= |specs| && n <= |ids| && Distinct(ids) && forall i :: 0 <= i < |ids| ==> ids[i] !in before
    ensures Posted(before, Turns(before, parent, specs, ids, nowNs, n), parent, specs, ids, nowNs, n)
  {
    if n > 0 {
      TurnsPost(before, parent, specs, ids, nowNs, n - 1);
      var rows := Turns(before, parent, specs, ids, nowNs, n - 1);
      assert Turns(before, parent, specs, ids, nowNs, n) == rows[ids[n - 1] := Child(parent, specs[n - 1], ids[n - 1], nowNs)];
      TurnPosts(before, rows, parent, specs, ids, nowNs, n - 1);
    }
  }

  lemma TurnPosts(before: Rows, rows: Rows, parent: Row, specs: seq<SubtaskSpec>, ids: seq<string>, nowNs: int, i: nat)
    requires Posted(before, rows, parent, specs, ids, nowNs, i) && i < |specs| && i < |ids|
    requires Distinct(ids) && ids[i] !in before
    ensures Posted(before, rows[ids[i] := Child(parent, specs[i], ids[i], nowNs)], parent, specs, ids, nowNs, i + 1)
  {
    AppendToSet(ids[..i], ids[i]);
    assert ids[..i + 1] == ids[..i] + [ids[i]];
    assert forall q :: 0 <= q < i ==> ids[q] != ids[i];
  }

  /** What `SpawnSubtasks` promises of an undisturbed call is what its turns make one by one. */
  lemma CallIsItsTurns(before: Rows, after: Rows, parent: Row, specs: seq<SubtaskSpec>, ids: seq<string>, nowNs: int, n: nat)
    requires Decomposes(before, after, parent, specs, ids, nowNs, n)
    ensures MayDecompose(before, parent) && after == Turns(before, parent, specs, ids, nowNs, n)
  {
    var turns := Turns(before, parent, specs, ids, nowNs, n);
    TurnsPost(before, parent, specs, ids, nowNs, n);
    forall id | id in after ensures after[id] == turns[id] {
      if id !in before {
        var i :| 0 <= i < n && ids[..n][i] == id;
      }
    }
  }

  // ------------------------------------------------------------------
  // How many children an item is given
  // ------------------------------------------------------------------

  /** Children posted for `p` by the first `k` acts. */
  function Made(acts: seq<Act>, k: nat, p: string): nat
    requires k <= |acts|
  {
    if k == 0 then 0
    else Made(acts, k - 1, p) + if acts[k - 1].PostChild? && acts[k - 1].parent.id == p then 1 else 0
  }

  lemma ActAddsChildren(states: seq<Rows>, act: Act, k: nat, p: string)
    requires k + 1 < |states| && Performs(states, act, k) && p != ""
    ensures ChildrenOf(states[k + 1], p) ==
            ChildrenOf(states[k], p) + if act.PostChild? && act.parent.id == p then {act.id} else {}
    ensures act.PostChild? ==> act.id !in ChildrenOf(states[k], p)
  {
  }

  /** At every point an item has exactly the children posted for it. */
  lemma {:induction false} ChildrenAreMade(states: seq<Rows>, acts: seq<Act>, k: nat, p: string)
    requires IsHistory(states, acts) && k <= |acts| && p != ""
    ensures |ChildrenOf(states[k], p)| == Made(acts, k, p)
  {
    if k == 0 {
      assert ChildrenOf(states[0], p) == {};
    } else {
      ChildrenAreMade(states, acts, k - 1, p);
      ActAddsChildren(states, acts[k - 1], k - 1, p);
    }
  }

  /** In every history: when no item was given more than `fanout` children, by however many calls, a root
      and all that is under it number at most 1 + fanout + fanout^2 + fanout^3 items. */
  lemma FamilyBoundedInHistory(states: seq<Rows>, acts: seq<Act>, k: nat, fanout: nat, root: string, family: set<string>)
    requires IsHistory(states, acts) && k <= |acts|
    requires forall p: string :: p != "" ==> Made(acts, k, p) <= fanout
    requires Under(states[k], root, family)
    ensures |family| <= 1 + fanout + fanout * fanout + fanout * fanout * fanout
  {
    HistoryKeepsForest(states, acts, k);
    forall p: string | p != "" ensures |ChildrenOf(states[k], p)| <= fanout {
      ChildrenAreMade(states, acts, k, p);
    }
    FamilyBound(states[k], root, fanout, family);
  }

  // ------------------------------------------------------------------
  // One call for each item, and what happens otherwise
  // ------------------------------------------------------------------

  /** Children posted by one call. */
  function CallMade(acts: seq<Act>, k: nat, call: nat): nat
    requires k <= |acts|
  {
    if k == 0 then 0
    else CallMade(acts, k - 1, call) + if acts[k - 1].PostChild? && acts[k - 1].call == call then 1 else 0
  }

  /** No call posts more than the manifest's cap, as `_spawn_subtasks` checks. */
  ghost predicate CallsCapped(acts: seq<Act>, cap: nat) {
    forall call: nat, k: nat :: k <= |acts| ==> CallMade(acts, k, call) <= cap
  }

  /** No item is decomposed by two calls. */
  ghost predicate OneCallEach(acts: seq<Act>) {
    forall i, j :: 0 <= i < j < |acts| && acts[i].PostChild? && acts[j].PostChild? && acts[i].parent.id == acts[j].parent.id
                   ==> acts[i].call == acts[j].call
  }

  lemma {:induction false} MadeByOneCall(acts: seq<Act>, k: nat, p: string, call: nat)
    requires k <= |acts|
    requires forall i :: 0 <= i < k && acts[i].PostChild? && acts[i].parent.id == p ==> acts[i].call == call
    ensures Made(acts, k, p) <= CallMade(acts, k, call)
  {
    if k > 0 {
      MadeByOneCall(acts, k - 1, p, call);
    }
  }

  /** So the cap of the manifest bounds the family when no item is decomposed twice. */
  lemma CapBoundsFamily(states: seq<Rows>, acts: seq<Act>, k: nat, cap: nat, root: string, family: set<string>)
    requires IsHistory(states, acts) && k <= |acts| && CallsCapped(acts, cap) && OneCallEach(acts)
    requires Under(states[k], root, family)
    ensures |family| <= 1 + cap + cap * cap + cap * cap * cap
  {
    forall p: string | p != "" ensures Made(acts, k, p) <= cap {
      if i :| 0 <= i < k && acts[i].PostChild? && acts[i].parent.id == p {
        MadeByOneCall(acts, k, p, acts[i].call);
      } else {
        MadeByOneCall(acts, k, p, 0);
      }
    }
    FamilyBoundedInHistory(states, acts, k, cap, root, family);
  }

  function RootRow(): Row {
    Row("r", "r", None, 1.0, 0, [], OutputSpec("task", None), 0, 1, None, None, Unstamped, None)
  }

  const PLAIN_SPEC: SubtaskSpec := SubtaskSpec(None, None, [], None)

  function ChildId(i: nat): (id: string)
    ensures |id| == i + 1 && id[0] == 'c'
  {
    seq(i + 1, _ => 'c')
  }

  function Grown(n: nat): Rows {
    if n == 0 then map["r" := RootRow()] else Grown(n - 1)[ChildId(n - 1) := Child(RootRow(), PLAIN_SPEC, ChildId(n - 1), 0)]
  }

  /** A child of "r" whose id is at most `n` long. */
  predicate IsGrownChild(n: nat, id: string, row: Row) {
    1 <= |id| <= n && id[0] == 'c' && row.parentId == Some("r") && row.lineageRoot == "r" && row.requiredTier == 0
  }

  lemma {:induction false} GrownFacts(n: nat)
    ensures "r" in Grown(n) && Grown(n)["r"] == RootRow()
    ensures forall id :: id in Grown(n) ==> id == "r" || IsGrownChild(n, id, Grown(n)[id])
    ensures ChildId(n) !in Grown(n)
  {
    if n > 0 {
      GrownFacts(n - 1);
      forall id | id in Grown(n) ensures id == "r" || IsGrownChild(n, id, Grown(n)[id]) {
        assert id == ChildId(n - 1) || id in Grown(n - 1);
      }
    }
  }

  lemma {:induction false} GrownSize(n: nat)
    ensures |Grown(n).Keys| == n + 1
  {
    if n > 0 {
      GrownSize(n - 1);
      GrownFacts(n - 1);
      assert Grown(n).Keys == Grown(n - 1).Keys + {ChildId(n - 1)};
    }
  }

  /** Calls that post one child each, the item being decomposed again and again. */
  function Repeats(m: nat): seq<Act> {
    seq(m, (i: nat) => PostChild(RootRow(), PLAIN_SPEC, ChildId(i), 0, i, i))
  }

  lemma {:induction false} RepeatsMade(m: nat, k: nat, call: nat)
    requires k <= m
    ensures CallMade(Repeats(m), k, call) == if call < k then 1 else 0
  {
    if k > 0 {
      RepeatsMade(m, k - 1, call);
    }
  }

  /** Nothing in the code keeps an item from being decomposed again, after a release or an invalid
      subtask, and then a cap of one child bounds no family at all. */
  lemma RepeatedCallsUnbounded(m: nat) returns (states: seq<Rows>, acts: seq<Act>, family: set<string>)
    ensures (IsHistory(states, acts), CallsCapped(acts, 1)) == (true, true)
    ensures Under(states[|acts|], "r", family) && |family| == m + 1
  {
    states, acts, family := seq(m + 1, (i: nat) => Grown(i)), Repeats(m), Grown(m).Keys;
    forall k | 0 <= k < m ensures Performs(states, acts[k], k) {
      GrownFacts(k);
    }
    forall call: nat, k: nat | k <= m ensures CallMade(acts, k, call) <= 1 {
      RepeatsMade(m, k, call);
    }
    GrownUnder(m);
    GrownSize(m);
  }

  lemma GrownUnder(m: nat)
    ensures Under(Grown(m), "r", Grown(m).Keys)
  {
    GrownFacts(m);
    var rows := Grown(m);
    assert Placed(rows, "r", 0);
    forall id | id in rows
      ensures exists d: nat :: d <= MAX_TASK_DEPTH && Placed(rows, id, d) && Top(rows, id, d) == "r"
    {
      if id != "r" {
        assert IsGrownChild(m, id, rows[id]);
        assert Placed(rows, id, 1) && Top(rows, id, 1) == "r";
      } else {
        assert Placed(rows, id, 0) && Top(rows, id, 0) == "r";
      }
    }
  }
}
