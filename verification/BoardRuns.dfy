/** What every run of board steps keeps (gyza/blackboard.py): completion, claimants, owner-checked
    completion and leases, through any interleaving of the steps of any number of agents. */
module BoardRuns {
  import opened Common
  import opened Board

  /** The board after the first `k` steps. */
  function After(init: Rows, ops: seq<Op>, k: nat): Rows
    requires k <= |ops|
  {
    if k == 0 then init else Step(After(init, ops, k - 1), ops[k - 1])
  }

  predicate FiredAt(init: Rows, ops: seq<Op>, k: nat)
    requires k < |ops|
  {
    Effective(After(init, ops, k), ops[k])
  }

  /** Step `k` changed row `id`. */
  predicate Touches(init: Rows, ops: seq<Op>, k: nat, id: string)
    requires k < |ops|
  {
    Target(ops[k]) == id && FiredAt(init, ops, k)
  }

  lemma {:induction false} RowsPersist(init: Rows, ops: seq<Op>, i: nat, j: nat, id: string)
    requires i <= j <= |ops| && id in After(init, ops, i)
    ensures id in After(init, ops, j)
  {
    if i < j {
      RowsPersist(init, ops, i, j - 1, id);
    }
  }

  // ------------------------------------------------------------------
  // Completion
  // ------------------------------------------------------------------

  predicate IsCompleted(rows: Rows, id: string) {
    id in rows && rows[id].completion.Some?
  }

  /** A completed row never becomes uncompleted. */
  lemma {:induction false} CompletedForever(init: Rows, ops: seq<Op>, i: nat, j: nat, id: string)
    requires i <= j <= |ops| && IsCompleted(After(init, ops, i), id)
    ensures IsCompleted(After(init, ops, j), id)
  {
    if i < j {
      CompletedForever(init, ops, i, j - 1, id);
    }
  }

  /** The completion record of a row after `k` steps. */
  function RecordAt(init: Rows, ops: seq<Op>, k: nat, id: string): Option<Completion>
    requires k <= |ops|
  {
    var rows := After(init, ops, k);
    if id in rows then rows[id].completion else None
  }

  /** Step `k` is a direct completion of the row that writes something else than `record`. */
  predicate Rewrites(init: Rows, ops: seq<Op>, k: nat, id: string, record: Option<Completion>)
    requires k < |ops|
  {
    Touches(init, ops, k, id) && ops[k].Complete? && Some(ops[k].done) != record
  }

  lemma {:induction false} RecordKept(init: Rows, ops: seq<Op>, i: nat, j: nat, id: string)
    requires i <= j <= |ops| && IsCompleted(After(init, ops, i), id)
    requires forall k :: i <= k < j ==> !Rewrites(init, ops, k, id, RecordAt(init, ops, i, id))
    ensures RecordAt(init, ops, j, id) == RecordAt(init, ops, i, id)
  {
    if i < j {
      RecordKept(init, ops, i, j - 1, id);
      CompletedForever(init, ops, i, j - 1, id);
      assert !Rewrites(init, ops, j - 1, id, RecordAt(init, ops, i, id));
    }
  }

  /** Its record is stable through a stretch exactly when no direct completion in that stretch
      writes a different one: merges never overwrite, `complete_work_item_direct` does. */
  lemma RecordStable(init: Rows, ops: seq<Op>, i: nat, j: nat, id: string)
    requires i <= j <= |ops| && IsCompleted(After(init, ops, i), id)
    ensures (forall k :: i <= k <= j ==> RecordAt(init, ops, k, id) == RecordAt(init, ops, i, id))
            <==> (forall k :: i <= k < j ==> !Rewrites(init, ops, k, id, RecordAt(init, ops, i, id)))
  {
    var record := RecordAt(init, ops, i, id);
    if forall k :: i <= k < j ==> !Rewrites(init, ops, k, id, record) {
      forall k | i <= k <= j ensures RecordAt(init, ops, k, id) == record {
        RecordKept(init, ops, i, k, id);
      }
    } else {
      var k :| i <= k < j && Rewrites(init, ops, k, id, record);
      CompletedForever(init, ops, i, k, id);
      assert RecordAt(init, ops, k + 1, id) != record;
    }
  }

  /** A direct completion after a merged one replaces its record. */
  lemma CompletionOverwritten(row: Row, merged: Completion, late: Completion)
    requires row.completion.None? && merged != late
    ensures var ops := [MergeDone(row.id, merged), Complete(row.id, late, None)];
            RecordAt(map[row.id := row], ops, 1, row.id) == Some(merged)
            && RecordAt(map[row.id := row], ops, 2, row.id) == Some(late)
  {
    var init, ops := map[row.id := row], [MergeDone(row.id, merged), Complete(row.id, late, None)];
    assert After(init, ops, 1) == Step(init, ops[0]);
    assert After(init, ops, 2) == Step(After(init, ops, 1), ops[1]);
  }

  /** A completed row that is also claimed keeps its claimant and stamp for ever. */
  lemma {:induction false} ClaimantFrozen(init: Rows, ops: seq<Op>, i: nat, j: nat, id: string)
    requires i <= j <= |ops| && IsCompleted(After(init, ops, i), id)
    requires After(init, ops, i)[id].claimedBy.Some?
    ensures IsCompleted(After(init, ops, j), id)
    ensures var a, b := After(init, ops, i)[id], After(init, ops, j)[id];
            a.claimedBy == b.claimedBy && a.claimedAtNs == b.claimedAtNs && a.stamp == b.stamp
  {
    if i < j {
      ClaimantFrozen(init, ops, i, j - 1, id);
    }
  }

  /** For a completed row, being claimed is exactly what protects the claimant: `try_claim_direct`
      does not test completion. */
  lemma CompletedClaimantProtected(row: Row)
    requires row.completion.Some?
    ensures (forall op :: StepRow(row, op).claimedBy == row.claimedBy) <==> row.claimedBy.Some?
  {
    if row.claimedBy.None? {
      var op := Claim(row.id, "late", Stamp(1, 0, "n"), Some(row.requiredTier));
      assert StepRow(row, op).claimedBy == Some("late");
    }
  }

  // ------------------------------------------------------------------
  // Ownership
  // ------------------------------------------------------------------

  predicate Grants(op: Op) {
    op.Claim? || op.MergeClaim?
  }

  predicate Clears(op: Op) {
    op.Release? || op.Reclaim?
  }

  predicate ClaimStep(init: Rows, ops: seq<Op>, k: nat, id: string)
    requires k < |ops|
  {
    Touches(init, ops, k, id) && (Grants(ops[k]) || Clears(ops[k]) || ops[k].Post?)
  }

  /** Step `k` is the last before `j` that decided who holds row `id`. */
  ghost predicate LastClaimStep(init: Rows, ops: seq<Op>, k: nat, j: nat, id: string)
    requires j <= |ops|
  {
    && k < j && ClaimStep(init, ops, k, id)
    && forall q :: k < q < j ==> !ClaimStep(init, ops, q, id)
  }

  /** The holder is whoever the last claim or merge named, unless released or reclaimed since. */
  lemma {:induction false} HolderIsLastGrant(init: Rows, ops: seq<Op>, j: nat, id: string, k: nat)
    requires j <= |ops| && LastClaimStep(init, ops, k, j, id) && !ops[k].Post?
    ensures id in After(init, ops, j)
    ensures var row := After(init, ops, j)[id];
            if Grants(ops[k])
            then row.claimedBy == Some(ops[k].agent) && row.stamp == ops[k].stamp
                 && row.claimedAtNs == Some(ops[k].stamp.l * MS_IN_NS)
            else row.claimedBy == None
    decreases j
  {
    if k < j - 1 {
      assert !ClaimStep(init, ops, j - 1, id);
      HolderIsLastGrant(init, ops, j - 1, id, k);
    }
  }

  lemma {:induction false} FindLastClaimStep(init: Rows, ops: seq<Op>, j: nat, id: string) returns (k: int)
    requires j <= |ops|
    ensures k == -1 || (0 <= k && LastClaimStep(init, ops, k, j, id))
    ensures k == -1 ==> forall q :: 0 <= q < j ==> !ClaimStep(init, ops, q, id)
  {
    if j == 0 {
      k := -1;
    } else if ClaimStep(init, ops, j - 1, id) {
      k := j - 1;
    } else {
      k := FindLastClaimStep(init, ops, j - 1, id);
    }
  }

  lemma {:induction false} Untouched(init: Rows, ops: seq<Op>, j: nat, id: string)
    requires j <= |ops| && forall q :: 0 <= q < j ==> !ClaimStep(init, ops, q, id)
    ensures id in After(init, ops, j) <==> id in init
    ensures id in init ==> After(init, ops, j)[id].claimedBy == init[id].claimedBy
  {
    if j > 0 {
      Untouched(init, ops, j - 1, id);
      assert !ClaimStep(init, ops, j - 1, id);
    }
  }

  /** On a board that started without the row, and where it was posted unclaimed, an owner-checked
      completion lands exactly when the last claim or merge on the row named that owner with no
      release or reclaim since. */
  lemma OwnerCheckedCompletion(init: Rows, ops: seq<Op>, j: nat)
    requires j < |ops| && ops[j].Complete? && ops[j].owner.Some?
    requires ops[j].id !in init
    requires forall q :: 0 <= q < |ops| && ops[q].Post? ==> ops[q].item.claimedBy.None?
    ensures FiredAt(init, ops, j) <==>
            exists k: nat :: LastClaimStep(init, ops, k, j, ops[j].id) && Grants(ops[k]) && Some(ops[k].agent) == ops[j].owner
  {
    var id := ops[j].id;
    var k := FindLastClaimStep(init, ops, j, id);
    if k == -1 {
      Untouched(init, ops, j, id);
    } else {
      forall q: nat | LastClaimStep(init, ops, q, j, id) ensures q == k {
        assert ClaimStep(init, ops, k, id) && ClaimStep(init, ops, q, id);
      }
      if ops[k].Post? {
        PostedUnclaimed(init, ops, j, id, k);
      } else {
        HolderIsLastGrant(init, ops, j, id, k);
      }
    }
  }

  lemma {:induction false} PostedUnclaimed(init: Rows, ops: seq<Op>, j: nat, id: string, k: nat)
    requires j <= |ops| && LastClaimStep(init, ops, k, j, id) && ops[k].Post? && ops[k].item.claimedBy.None?
    ensures id in After(init, ops, j) && After(init, ops, j)[id].claimedBy == None
    decreases j
  {
    if k < j - 1 {
      assert !ClaimStep(init, ops, j - 1, id);
      PostedUnclaimed(init, ops, j - 1, id, k);
    }
  }

  // ------------------------------------------------------------------
  // Leases
  // ------------------------------------------------------------------

  /** The sweep's SELECT at state `i`, reading the clock as `now`, picked row `id` from `holder`. */
  predicate Selected(init: Rows, ops: seq<Op>, i: nat, id: string, holder: string, leaseNs: int, nowNs: int)
    requires i <= |ops|
  {
    var rows := After(init, ops, i);
    id in rows && rows[id].claimedBy == Some(holder) && Expired(rows[id], nowNs - leaseNs)
  }

  lemma {:induction false} HolderUnchanged(init: Rows, ops: seq<Op>, i: nat, j: nat, id: string)
    requires i <= j <= |ops| && id in After(init, ops, i)
    requires forall q :: i <= q < j ==> !ClaimStep(init, ops, q, id)
    ensures id in After(init, ops, j) && After(init, ops, j)[id].claimedBy == After(init, ops, i)[id].claimedBy
  {
    if i < j {
      HolderUnchanged(init, ops, i, j - 1, id);
      assert !ClaimStep(init, ops, j - 1, id);
    }
  }

  /** Whatever happens between SELECT and UPDATE, the UPDATE takes the selected row from its holder
      exactly when the row is still uncompleted and whatever claim step came in between last was a
      claim or merge by the same holder. */
  lemma SweepTakesIff(init: Rows, ops: seq<Op>, i: nat, j: nat, leaseNs: int, nowNs: int)
    requires i <= j < |ops| && ops[j].Reclaim? && Selected(init, ops, i, ops[j].id, ops[j].holder, leaseNs, nowNs)
    ensures FiredAt(init, ops, j) <==>
            !IsCompleted(After(init, ops, j), ops[j].id)
            && (forall k: nat :: i <= k && LastClaimStep(init, ops, k, j, ops[j].id) ==>
                                   Grants(ops[k]) && ops[k].agent == ops[j].holder)
  {
    var id := ops[j].id;
    RowsPersist(init, ops, i, j, id);
    var k := FindLastClaimStep(init, ops, j, id);
    forall q: nat | LastClaimStep(init, ops, q, j, id) ensures q == k {
      assert k >= 0 && ClaimStep(init, ops, k, id) && ClaimStep(init, ops, q, id);
    }
    if k < i {
      HolderUnchanged(init, ops, i, j, id);
    } else {
      RowsPersist(init, ops, i, k, id);
      HolderIsLastGrant(init, ops, j, id, k);
    }
  }

  /** A local claim stamped by `now()` at wall time `t` (in ns): the stamp's `l` is at least the
      millisecond reading. */
  predicate StampedAt(stamp: Stamp, wallNs: int) {
    stamp.l >= wallNs / MS_IN_NS
  }

  /** A sweep that selected the row at state `i` takes away, at step `j`, the claim made at step `k` by an
      agent whose wall clock then read `wallNs`. */
  ghost predicate SweepTakes(init: Rows, ops: seq<Op>, i: nat, k: nat, j: nat, leaseNs: int, nowNs: int, wallNs: int) {
    && i <= j < |ops| && ops[j].Reclaim? && FiredAt(init, ops, j)
    && Selected(init, ops, i, ops[j].id, ops[j].holder, leaseNs, nowNs)
    && LastClaimStep(init, ops, k, j, ops[j].id) && ops[k].Claim? && StampedAt(ops[k].stamp, wallNs)
  }

  /** A claim decided before the sweep's SELECT, or at the step that follows it, is not taken away before
      its lease, less the millisecond lost to truncation. */
  lemma LeaseRespected(init: Rows, ops: seq<Op>, i: nat, k: nat, j: nat, leaseNs: int, nowNs: int, wallNs: int)
    requires i <= j < |ops| && ops[j].Reclaim?
    requires Selected(init, ops, i, ops[j].id, ops[j].holder, leaseNs, nowNs)
    requires LastClaimStep(init, ops, k, j, ops[j].id) && ops[k].Claim? && StampedAt(ops[k].stamp, wallNs)
    requires k <= i
    ensures nowNs > wallNs + leaseNs - MS_IN_NS
  {
    var id := ops[j].id;
    forall q | k < q < i ensures !ClaimStep(init, ops, q, id) {
    }
    assert ClaimStep(init, ops, k, id);
    assert LastClaimStep(init, ops, k, i, id);
    HolderIsLastGrant(init, ops, i, id, k);
  }

  /** Every run that schedules SELECT, last claim and UPDATE at these places respects the lease. */
  ghost predicate LeaseHolds(i: nat, k: nat, j: nat) {
    forall init, ops, leaseNs, nowNs, wallNs :: SweepTakes(init, ops, i, k, j, leaseNs, nowNs, wallNs) ==>
      nowNs > wallNs + leaseNs - MS_IN_NS
  }

  function Held(claimedBy: Option<string>, claimedAtNs: Option<int>, stamp: Stamp): Rows {
    map["w" := Row("w", "r", None, 1.0, 0, [], OutputSpec("task", None), 0, 1, claimedBy, claimedAtNs, stamp, None)]
  }

  /** Steps that release row "w" at `i`, claim it again at `k` and reclaim it at `j`; the rest miss. */
  function Renewal(i: nat, k: nat, j: nat): seq<Op> {
    seq(j + 1, q => if q == i then Release("w") else if q == k then Claim("w", "a", Stamp(1, 0, "n"), None)
                    else if q == j then Reclaim("w", "a") else Release("none"))
  }

  lemma {:induction false} RenewalState(i: nat, k: nat, j: nat, q: nat)
    requires i < k < j && q <= j
    ensures After(Held(Some("a"), Some(0), Unstamped), Renewal(i, k, j), q) ==
            if q <= i then Held(Some("a"), Some(0), Unstamped)
            else if q <= k then Held(None, None, Unstamped)
            else Held(Some("a"), Some(MS_IN_NS), Stamp(1, 0, "n"))
  {
    if q > 0 {
      RenewalState(i, k, j, q - 1);
    }
  }

  /** The lease holds exactly in the schedules that do not let the claim in between SELECT and UPDATE. */
  lemma LeaseHoldsIff(i: nat, k: nat, j: nat)
    requires k < j && i <= j
    ensures LeaseHolds(i, k, j) <==> k <= i
  {
    if k <= i {
      forall init, ops, leaseNs, nowNs, wallNs | SweepTakes(init, ops, i, k, j, leaseNs, nowNs, wallNs)
        ensures nowNs > wallNs + leaseNs - MS_IN_NS
      {
        LeaseRespected(init, ops, i, k, j, leaseNs, nowNs, wallNs);
      }
    } else {
      // the clock reads one millisecond and a bit at the SELECT and at the claim after it, the lease is
      // one millisecond, and the claim is gone
      var init, ops := Held(Some("a"), Some(0), Unstamped), Renewal(i, k, j);
      RenewalState(i, k, j, i);
      RenewalState(i, k, j, k);
      RenewalState(i, k, j, j);
      forall q | k < q < j ensures !ClaimStep(init, ops, q, "w") {
        assert ops[q] == Release("none");
      }
      assert SweepTakes(init, ops, i, k, j, MS_IN_NS, MS_IN_NS + 1, MS_IN_NS + 1);
    }
  }

  /** The same with any lease: SELECT and UPDATE are separate steps and the UPDATE tests only the
      holder, so a holder who released and claimed again in between loses a fresh claim. */
  lemma FreshClaimTaken(renewed: Stamp, leaseNs: int, nowNs: int)
    requires 0 < nowNs - leaseNs
    ensures var row := Row("w", "r", None, 1.0, 0, [], OutputSpec("task", None), 0, 1,
                           Some("a"), Some(0), Unstamped, None);
            var init := map["w" := row];
            var ops := [Release("w"), Claim("w", "a", renewed, None), Reclaim("w", "a")];
            && Selected(init, ops, 0, "w", "a", leaseNs, nowNs)
            && LastClaimStep(init, ops, 1, 2, "w")
            && FiredAt(init, ops, 2)
  {
    var row := Row("w", "r", None, 1.0, 0, [], OutputSpec("task", None), 0, 1,
                   Some("a"), Some(0), Unstamped, None);
    var init := map["w" := row];
    var ops := [Release("w"), Claim("w", "a", renewed, None), Reclaim("w", "a")];
    assert After(init, ops, 0) == init;
    assert After(init, ops, 1) == map["w" := row.(claimedBy := None, claimedAtNs := None)];
    assert After(init, ops, 2) == map["w" := Claimed(row, "a", renewed)];
  }
}
