/** Delivery of gossiped deltas to one replica's row (gyza/blackboard.py): claims are merged last
    writer wins on the stamp, completions first writer wins. A delivery is any sequence over a set
    of deltas, so every order and every duplication is covered. */
module Convergence {
  import opened Common
  import opened Board

  datatype Delta = ClaimDelta(agent: string, stamp: Stamp) | DoneDelta(done: Completion)

  function OpOf(id: string, d: Delta): Op {
    match d
    case ClaimDelta(agent, stamp) => MergeClaim(id, agent, stamp)
    case DoneDelta(done) => MergeDone(id, done)
  }

  function Deliver(row: Row, ds: seq<Delta>): Row
    decreases |ds|
  {
    if ds == [] then row else Deliver(StepRow(row, OpOf(row.id, ds[0])), ds[1..])
  }

  /** The stamp of a claim determines its claimant. */
  ghost predicate StampDetermines(ds: seq<Delta>) {
    forall a, b :: a in ds && b in ds && a.ClaimDelta? && b.ClaimDelta? && a.stamp == b.stamp ==> a.agent == b.agent
  }

  ghost predicate OnlyClaims(ds: seq<Delta>) {
    forall d :: d in ds ==> d.ClaimDelta?
  }

  /** A claim that could still change the row. */
  predicate Live(row: Row, d: Delta) {
    d.ClaimDelta? && StampLt(row.stamp, d.stamp)
  }

  /** `d` is the claim with the greatest stamp. */
  ghost predicate IsGreatest(ds: seq<Delta>, d: Delta) {
    d in ds && d.ClaimDelta? && forall e :: e in ds && e.ClaimDelta? ==> !StampLt(d.stamp, e.stamp)
  }

  /** What a set of claims makes of a row: the greatest live claim wins, if any is live. */
  ghost predicate IsOutcome(row: Row, ds: seq<Delta>, r: Row) {
    || (r == row && forall d :: d in ds ==> !Live(row, d))
    || (exists d :: IsGreatest(ds, d) && Live(row, d) && r == Claimed(row, d.agent, d.stamp))
  }

  lemma {:induction false} DeliverOutcome(row: Row, ds: seq<Delta>)
    requires row.completion.None? && OnlyClaims(ds)
    ensures IsOutcome(row, ds, Deliver(row, ds))
    decreases |ds|
  {
    if ds != [] {
      var d, rest := ds[0], ds[1..];
      var next := StepRow(row, OpOf(row.id, d));
      assert forall e :: e in ds <==> e == d || e in rest;
      DeliverOutcome(next, rest);
      StampLtIsOrder();
      Asymmetric(StampLt);
      if Live(row, d) {
        FirstWins(row, d, rest, Deliver(next, rest));
      } else if exists e :: IsGreatest(rest, e) && Live(row, e) && Deliver(next, rest) == Claimed(row, e.agent, e.stamp) {
        var e :| IsGreatest(rest, e) && Live(row, e) && Deliver(next, rest) == Claimed(row, e.agent, e.stamp);
        assert StampLt(e.stamp, d.stamp) ==> Chain(StampLt, row.stamp, e.stamp, d.stamp);
        assert IsGreatest(ds, e);
      }
    }
  }

  /** The first claim delivered is live; a later one wins only if it is greater still. */
  lemma FirstWins(row: Row, d: Delta, rest: seq<Delta>, r: Row)
    requires OnlyClaims(rest) && Live(row, d)
    requires IsOutcome(Claimed(row, d.agent, d.stamp), rest, r)
    ensures IsOutcome(row, [d] + rest, r)
  {
    StampLtIsOrder();
    Asymmetric(StampLt);
    var next := Claimed(row, d.agent, d.stamp);
    if r == next && forall e :: e in rest ==> !Live(next, e) {
      assert IsGreatest([d] + rest, d);
    } else {
      var e :| IsGreatest(rest, e) && Live(next, e) && r == Claimed(next, e.agent, e.stamp);
      assert Chain(StampLt, row.stamp, d.stamp, e.stamp);
      assert IsGreatest([d] + rest, e);
    }
  }

  lemma OutcomeUnique(row: Row, a: seq<Delta>, b: seq<Delta>, r1: Row, r2: Row)
    requires ToSet(a) == ToSet(b) && StampDetermines(a)
    requires IsOutcome(row, a, r1) && IsOutcome(row, b, r2)
    ensures r1 == r2
  {
    assert forall e :: e in a <==> e in ToSet(b);
    if d :| IsGreatest(a, d) && Live(row, d) && r1 == Claimed(row, d.agent, d.stamp) {
      if e :| IsGreatest(b, e) && Live(row, e) && r2 == Claimed(row, e.agent, e.stamp) {
        StampLtIsOrder();
        assert Compared(StampLt, d.stamp, e.stamp);
      }
    }
  }

  /** Any two deliveries of the same claims to an uncompleted row agree, whatever the row holds. */
  lemma ClaimsConverge(row: Row, a: seq<Delta>, b: seq<Delta>)
    requires row.completion.None? && OnlyClaims(a) && StampDetermines(a)
    requires ToSet(a) == ToSet(b)
    ensures Deliver(row, a) == Deliver(row, b)
  {
    assert forall e :: e in b ==> e in ToSet(a);
    DeliverOutcome(row, a);
    DeliverOutcome(row, b);
    OutcomeUnique(row, a, b, Deliver(row, a), Deliver(row, b));
  }

  /** On a never-claimed row every delivery of real claims ends at the greatest one. */
  lemma GreatestClaimWins(row: Row, ds: seq<Delta>)
    requires row.completion.None? && row.claimedBy.None? && row.stamp == Unstamped
    requires ds != [] && OnlyClaims(ds) && forall d :: d in ds ==> StampLt(Unstamped, d.stamp)
    ensures exists d :: IsGreatest(ds, d) && Deliver(row, ds) == Claimed(row, d.agent, d.stamp)
  {
    DeliverOutcome(row, ds);
    assert Live(row, ds[0]);
  }

  // ------------------------------------------------------------------
  // Claims and completions together
  // ------------------------------------------------------------------

  /** A completed row ignores every delta. */
  lemma {:induction false} CompletedAbsorbs(row: Row, ds: seq<Delta>)
    requires row.completion.Some?
    ensures Deliver(row, ds) == row
  {
    if ds != [] {
      CompletedAbsorbs(row, ds[1..]);
    }
  }

  /** Delivery never lowers the stored stamp. */
  lemma {:induction false} StampNeverDrops(row: Row, ds: seq<Delta>)
    ensures row.stamp == Deliver(row, ds).stamp || StampLt(row.stamp, Deliver(row, ds).stamp)
    decreases |ds|
  {
    if ds != [] {
      var next := StepRow(row, OpOf(row.id, ds[0]));
      StampNeverDrops(next, ds[1..]);
      StampLtIsOrder();
      assert Chain(StampLt, row.stamp, next.stamp, Deliver(row, ds).stamp) || next.stamp == row.stamp
             || next.stamp == Deliver(row, ds).stamp;
    }
  }

  ghost predicate HasDone(ds: seq<Delta>) {
    exists d :: d in ds && d.DoneDelta?
  }

  /** No live claim and only one completion to deliver: the row ends completed by it or unchanged. */
  lemma {:induction false} QuietDelivery(row: Row, ds: seq<Delta>, done: Completion)
    requires row.completion.None?
    requires forall d :: d in ds ==> !Live(row, d)
    requires forall d :: d in ds && d.DoneDelta? ==> d.done == done
    ensures Deliver(row, ds) ==
            if HasDone(ds) then row.(completion := Some(done)) else row
    decreases |ds|
  {
    if ds != [] {
      assert forall d :: d in ds <==> d == ds[0] || d in ds[1..];
      assert HasDone(ds) <==> ds[0].DoneDelta? || HasDone(ds[1..]);
      if ds[0].DoneDelta? {
        CompletedAbsorbs(row.(completion := Some(done)), ds[1..]);
      } else {
        assert !Live(row, ds[0]) && StepRow(row, OpOf(row.id, ds[0])) == row;
        QuietDelivery(row, ds[1..], done);
      }
    }
  }

  ghost predicate SingleDone(ds: seq<Delta>) {
    forall a, b :: a in ds && b in ds && a.DoneDelta? && b.DoneDelta? ==> a == b
  }

  /** Nothing to race: only claims, or one completion and no live claim. */
  ghost predicate NoRace(row: Row, ds: seq<Delta>) {
    OnlyClaims(ds) || (SingleDone(ds) && forall d :: d in ds ==> !Live(row, d))
  }

  /** All deliveries of a set of deltas to an uncompleted row agree exactly when claims and
      completions do not race: convergence is lost as soon as two different completions, or a
      completion and a live claim, are in flight. */
  lemma MixedConvergence(row: Row, ds: seq<Delta>)
    requires row.completion.None? && StampDetermines(ds)
    ensures (forall other :: ToSet(other) == ToSet(ds) ==> Deliver(row, other) == Deliver(row, ds))
            <==> NoRace(row, ds)
  {
    if NoRace(row, ds) {
      forall other | ToSet(other) == ToSet(ds) ensures Deliver(row, other) == Deliver(row, ds) {
        NoRaceConverges(row, ds, other);
      }
    } else {
      var a, b := RaceDiverges(row, ds);
      assert !(Deliver(row, a) == Deliver(row, ds) && Deliver(row, b) == Deliver(row, ds));
    }
  }

  lemma NoRaceConverges(row: Row, ds: seq<Delta>, other: seq<Delta>)
    requires row.completion.None? && StampDetermines(ds) && NoRace(row, ds)
    requires ToSet(other) == ToSet(ds)
    ensures Deliver(row, other) == Deliver(row, ds)
  {
    if OnlyClaims(ds) {
      ClaimsConverge(row, ds, other);
    } else {
      var k :| k in ds && k.DoneDelta?;
      assert HasDone(ds) && k in ToSet(other) && HasDone(other);
      assert forall e :: e in other <==> e in ToSet(ds);
      QuietDelivery(row, ds, k.done);
      QuietDelivery(row, other, k.done);
    }
  }

  /** Two deliveries of a racing set that disagree. */
  lemma RaceDiverges(row: Row, ds: seq<Delta>) returns (a: seq<Delta>, b: seq<Delta>)
    requires row.completion.None? && !NoRace(row, ds)
    ensures ToSet(a) == ToSet(ds) && ToSet(b) == ToSet(ds)
    ensures Deliver(row, a) != Deliver(row, b)
  {
    var k :| k in ds && k.DoneDelta?;
    if c :| c in ds && Live(row, c) {
      RaceWithClaim(row, ds, k, c);
      a, b := [k] + ds, [c] + ds;
    } else {
      var x, y :| x in ds && y in ds && x.DoneDelta? && y.DoneDelta? && x != y;
      a, b := [x] + ds, [y] + ds;
      Front(row, ds, x);
      Front(row, ds, y);
      CompletedAbsorbs(row.(completion := Some(x.done)), ds);
      CompletedAbsorbs(row.(completion := Some(y.done)), ds);
    }
  }

  /** Delivering a member first, and everything again after it, is a delivery of the same set. */
  lemma Front(row: Row, ds: seq<Delta>, d: Delta)
    requires d in ds
    ensures ToSet([d] + ds) == ToSet(ds)
    ensures Deliver(row, [d] + ds) == Deliver(StepRow(row, OpOf(row.id, d)), ds)
  {
    assert ([d] + ds)[1..] == ds;
  }

  lemma RaceWithClaim(row: Row, ds: seq<Delta>, k: Delta, c: Delta)
    requires row.completion.None? && k in ds && k.DoneDelta? && c in ds && Live(row, c)
    ensures ToSet([k] + ds) == ToSet(ds) && ToSet([c] + ds) == ToSet(ds)
    ensures Deliver(row, [k] + ds).stamp != Deliver(row, [c] + ds).stamp
  {
    Front(row, ds, k);
    Front(row, ds, c);
    CompletedAbsorbs(row.(completion := Some(k.done)), ds);
    var claimed := Claimed(row, c.agent, c.stamp);
    StampNeverDrops(claimed, ds);
    StampLtIsOrder();
    assert Deliver(claimed, ds).stamp == row.stamp ==> Chain(StampLt, row.stamp, c.stamp, row.stamp);
  }

  // ------------------------------------------------------------------
  // Replays after a claim was cleared
  // ------------------------------------------------------------------

  /** A reclaimed row keeps its stamp, so replaying old claims leaves it unclaimed; a released row
      forgets it, so replaying the very claim that was released restores it. */
  lemma ReplayAfterClearing(row: Row, ds: seq<Delta>)
    requires row.claimedBy.Some? && row.completion.None? && StampLt(Unstamped, row.stamp)
    requires row.claimedAtNs == Some(row.stamp.l * MS_IN_NS)
    requires OnlyClaims(ds) && StampDetermines(ds)
    requires IsGreatest(ds, ClaimDelta(row.claimedBy.value, row.stamp))
    ensures var reclaimed := StepRow(row, Reclaim(row.id, row.claimedBy.value)); Deliver(reclaimed, ds) == reclaimed
    ensures Deliver(StepRow(row, Release(row.id)), ds) == row
  {
    var reclaimed := StepRow(row, Reclaim(row.id, row.claimedBy.value));
    var released := StepRow(row, Release(row.id));
    var last := ClaimDelta(row.claimedBy.value, row.stamp);
    DeliverOutcome(reclaimed, ds);
    DeliverOutcome(released, ds);
    assert Live(released, last);
    var d :| IsGreatest(ds, d) && Live(released, d) && Deliver(released, ds) == Claimed(released, d.agent, d.stamp);
    StampLtIsOrder();
    assert Compared(StampLt, d.stamp, last.stamp);
  }
}
