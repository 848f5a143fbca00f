/** The hybrid logical clock of gyza/schema.py (Algorithm 1 of Kulkarni et al. 2014) and its
    behaviour over runs of any number of nodes. The wall clock is a parameter of every event:
    the millisecond reading taken under the lock, which may jump backwards. */
module Clock {
  import opened Common

  datatype Time = Time(l: int, c: int)

  /** The (l, c) part of Python's tuple comparison. */
  predicate Before(a: Time, b: Time) {
    a.l < b.l || (a.l == b.l && a.c < b.c)
  }

  /** What `now` leaves in the clock. */
  function Tick(t: Time, pt: int): Time {
    if pt > t.l then Time(pt, 0) else Time(t.l, t.c + 1)
  }

  /** What `recv` leaves in the clock. */
  function Observe(t: Time, m: Time, pt: int): Time {
    var top := Max(Max(t.l, m.l), pt);
    if top == t.l && top == m.l then Time(top, Max(t.c, m.c) + 1)
    else if top == t.l then Time(top, t.c + 1)
    else if top == m.l then Time(top, m.c + 1)
    else Time(top, 0)
  }

  class HLC {
    const nodeId: string
    var l: int
    var c: int

    constructor (nodeId: string)
      ensures this.nodeId == nodeId && Reading() == Time(0, 0)
    {
      this.nodeId, l, c := nodeId, 0, 0;
    }

    function Reading(): Time
      reads this
    {
      Time(l, c)
    }

    /** Stamp a local event: the least reading that is strictly after everything this clock has seen and
        not behind the wall clock. */
    method Now(pt: int) returns (l': int, c': int, node: string)
      modifies this`l, this`c
      ensures (l', c', node) == (l, c, nodeId)
      ensures Before(old(Reading()), Reading()) && pt <= l && (l == pt || l == old(l))
      ensures old(c) >= 0 ==> c >= 0 && forall t :: Before(old(Reading()), t) && pt <= t.l && 0 <= t.c ==> !Before(t, Reading())
      ensures Reading() == Tick(old(Reading()), pt)
    {
      var lOld := l;
      l := Max(lOld, pt);
      if l == lOld {
        c := c + 1;
      } else {
        c := 0;
      }
      return l, c, nodeId;
    }

    /** Take in a remote stamp: the least reading that is strictly after it, strictly after everything seen
        before and not behind the wall clock. */
    method Recv(rl: int, rc: int, node: string, pt: int)
      modifies this`l, this`c
      ensures Before(old(Reading()), Reading()) && Before(Time(rl, rc), Reading()) && pt <= l
      ensures l == pt || l == old(l) || l == rl
      ensures old(c) >= 0 && rc >= 0 ==>
                c >= 0 && forall t :: Before(old(Reading()), t) && Before(Time(rl, rc), t) && pt <= t.l && 0 <= t.c ==> !Before(t, Reading())
      ensures Reading() == Observe(old(Reading()), Time(rl, rc), pt)
    {
      var lOld, cOld := l, c;
      l := Max(Max(lOld, rl), pt);
      if l == lOld && l == rl {
        c := Max(cOld, rc) + 1;
      } else if l == lOld {
        c := cOld + 1;
      } else if l == rl {
        c := rc + 1;
      } else {
        c := 0;
      }
    }
  }

  // ------------------------------------------------------------------
  // Runs
  // ------------------------------------------------------------------

  /** `Issue` calls `now` on a node; `Receive` calls `recv` on a node with the stamp issued by an
      earlier event. */
  datatype Event = Issue(node: nat, pt: int) | Receive(node: nat, sent: nat, pt: int)

  type Run = seq<Event>

  ghost predicate WellFormed(r: Run) {
    forall k :: 0 <= k < |r| && r[k].Receive? ==> r[k].sent < k && r[r[k].sent].Issue?
  }

  /** The clock of `node` after the first `k` events. */
  ghost function ClockOf(r: Run, k: nat, node: nat): Time
    requires WellFormed(r) && k <= |r|
    decreases k, 0
  {
    if k == 0 then Time(0, 0)
    else if r[k - 1].node == node then After(r, k - 1)
    else ClockOf(r, k - 1, node)
  }

  /** The acting node's clock after event `k`; for an `Issue` this is the stamp issued. */
  ghost function After(r: Run, k: nat): Time
    requires WellFormed(r) && k < |r|
    decreases k, 1
  {
    match r[k]
    case Issue(n, pt) => Tick(ClockOf(r, k, n), pt)
    case Receive(n, sent, pt) => Observe(ClockOf(r, k, n), After(r, sent), pt)
  }

  /** One step of happened-before: program order on a node, or a stamp and its receipt. */
  ghost predicate Direct(r: Run, i: nat, j: nat)
    requires WellFormed(r) && j < |r|
  {
    i < j && (r[i].node == r[j].node || (r[j].Receive? && r[j].sent == i))
  }

  /** Its transitive closure. */
  ghost predicate HappenedBefore(r: Run, i: nat, j: nat)
    requires WellFormed(r) && j < |r|
    decreases j
  {
    Direct(r, i, j) || exists k :: i < k < j && HappenedBefore(r, i, k) && Direct(r, k, j)
  }

  lemma {:induction false} ProgramOrder(r: Run, i: nat, k: nat)
    requires WellFormed(r) && i < k <= |r|
    ensures After(r, i) == ClockOf(r, k, r[i].node) || Before(After(r, i), ClockOf(r, k, r[i].node))
    decreases k
  {
    if k > i + 1 {
      ProgramOrder(r, i, k - 1);
    }
  }

  lemma DirectAdvances(r: Run, i: nat, j: nat)
    requires WellFormed(r) && j < |r| && Direct(r, i, j)
    ensures Before(After(r, i), After(r, j))
  {
    if r[i].node == r[j].node {
      ProgramOrder(r, i, j);
    }
  }

  /** Happened-before implies a strictly smaller (l, c), in every run. */
  lemma {:induction false} HappenedBeforeAdvances(r: Run, i: nat, j: nat)
    requires WellFormed(r) && j < |r| && HappenedBefore(r, i, j)
    ensures i < j && Before(After(r, i), After(r, j))
    decreases j
  {
    if Direct(r, i, j) {
      DirectAdvances(r, i, j);
    } else {
      var k :| i < k < j && HappenedBefore(r, i, k) && Direct(r, k, j);
      HappenedBeforeAdvances(r, i, k);
      DirectAdvances(r, k, j);
    }
  }

  /** The full stamp of an event, the third field being the node's id. */
  ghost function Stamp(r: Run, ids: nat -> string, k: nat): (Time, string)
    requires WellFormed(r) && k < |r|
  {
    (After(r, k), ids(r[k].node))
  }

  ghost predicate DistinctIds(ids: nat -> string) {
    forall m: nat, n: nat :: ids(m) == ids(n) ==> m == n
  }

  /** In every run stamps are unique, exactly when node ids are. */
  lemma StampsUniqueIffIdsAre(ids: nat -> string)
    ensures DistinctIds(ids) <==>
            (forall r: Run, i: nat, j: nat :: WellFormed(r) && i < j < |r| ==> Stamp(r, ids, i) != Stamp(r, ids, j))
  {
    if DistinctIds(ids) {
      forall r: Run, i: nat, j: nat | WellFormed(r) && i < j < |r| ensures Stamp(r, ids, i) != Stamp(r, ids, j) {
        if r[i].node == r[j].node {
          DirectAdvances(r, i, j);
        }
      }
    } else {
      var m, n :| ids(m) == ids(n) && m != n;
      var r := [Issue(m, 1), Issue(n, 1)];
      assert WellFormed(r);
      assert ClockOf(r, 1, n) == Time(0, 0);
      assert Stamp(r, ids, 0) == Stamp(r, ids, 1);
    }
  }

  /** The largest wall-clock reading taken by the first `k` events; clocks start at 0. */
  ghost function MaxReading(r: Run, k: nat): int
    requires k <= |r|
  {
    if k == 0 then 0 else Max(MaxReading(r, k - 1), r[k - 1].pt)
  }

  lemma {:induction false} ReadingsGrow(r: Run, i: nat, k: nat)
    requires i <= k <= |r|
    ensures MaxReading(r, i) <= MaxReading(r, k)
  {
    if i < k {
      ReadingsGrow(r, i, k - 1);
    }
  }

  /** No clock runs ahead of the fastest wall clock, and none falls behind its own. */
  lemma {:induction false} ClockBounded(r: Run, k: nat, node: nat)
    requires WellFormed(r) && k <= |r|
    ensures 0 <= ClockOf(r, k, node).l <= MaxReading(r, k)
    decreases k, 0
  {
    if k > 0 {
      ClockBounded(r, k - 1, node);
      if r[k - 1].node == node {
        StampBounded(r, k - 1);
      }
    }
  }

  lemma {:induction false} StampBounded(r: Run, k: nat)
    requires WellFormed(r) && k < |r|
    ensures r[k].pt <= After(r, k).l <= MaxReading(r, k + 1)
    ensures 0 <= After(r, k).l
    decreases k, 1
  {
    ClockBounded(r, k, r[k].node);
    if r[k].Receive? {
      StampBounded(r, r[k].sent);
      ReadingsGrow(r, r[k].sent + 1, k);
    }
  }

  /** Dropping `recv` breaks causality: a node whose wall clock lags stamps a later event with
      an earlier time than the stamp it has just been shown. */
  lemma IgnoringReceiptBreaksOrder(lead: int, lag: int)
    requires 0 < lag < lead
    ensures Before(Tick(Time(0, 0), lag), Tick(Time(0, 0), lead))
    ensures Before(Tick(Time(0, 0), lead), Tick(Observe(Time(0, 0), Tick(Time(0, 0), lead), lag), lag))
  {
  }
}
