/** gyza/supervisor.py: one supervised runner process. A tick of the watch loop sees the process, the
    agent's envelope log and the board, and may restart the process or give up on it. Everything a
    tick observes, clock readings included, is an input. */
module Supervisor {
  import opened Common

  datatype Config = Config(maxRestarts: nat, windowNs: int, stallNs: int)

  /** `log`: the timestamps of the agent's envelopes, `None` when the log cannot be read.
      `holds`: does it hold a claim? `exit`: the exit code once it is dead or terminated.
      `checkNs`, `resetNs`, `deathNs`, `startNs`: the clock as read in that order. */
  datatype Tick = Tick(alive: bool, log: Option<seq<int>>, holds: Option<bool>, exit: Option<int>,
                       checkNs: int, resetNs: int, deathNs: int, startNs: int)

  datatype State = State(restarts: int, lastStartNs: int, gaveUp: bool, lastExit: Option<int>,
                         lastProgressNs: int, completions: int, stallRestarts: int, sawAttempt: bool)

  /** How many of the timestamps are at or after `origin`. */
  function CountSince(log: seq<int>, origin: int): nat {
    if log == [] then 0
    else CountSince(log[..|log| - 1], origin) + if log[|log| - 1] >= origin then 1 else 0
  }

  lemma {:induction false} CountZero(log: seq<int>, origin: int)
    ensures CountSince(log, origin) == 0 <==> forall ts :: ts in log ==> ts < origin
  {
    if log != [] {
      var pre, last := log[..|log| - 1], log[|log| - 1];
      CountZero(pre, origin);
      if CountSince(pre, origin) > 0 {
        var ts :| ts in pre && ts >= origin;
        assert ts in log;
      } else {
        forall ts | ts in log ensures ts in pre || ts == last {
          var i :| 0 <= i < |log| && log[i] == ts;
          assert i < |pre| ==> pre[i] == ts;
        }
        assert last in log;
      }
    }
  }

  lemma {:induction false} CountIsSize(log: seq<int>, origin: int)
    ensures CountSince(log, origin) == |set i | 0 <= i < |log| && log[i] >= origin|
  {
    var all := set i | 0 <= i < |log| && log[i] >= origin;
    assert log == [] ==> all == {};
    if log != [] {
      var n := |log| - 1;
      CountIsSize(log[..n], origin);
      var before := set i | 0 <= i < n && log[..n][i] >= origin;
      assert all == before + if log[n] >= origin then {n} else {};
    }
  }

  /** `_check_progress` as a step: the new state and whether to restart. */
  function CheckStep(cfg: Config, st: State, tick: Tick): (State, bool) {
    if tick.log.None? then (st, false)
    else
      var done := CountSince(tick.log.value, st.lastProgressNs);
      if done > 0 then (st.(completions := st.completions + done, lastProgressNs := tick.checkNs), false)
      else
        var saw := st.sawAttempt || tick.holds == Some(true);
        if tick.checkNs - st.lastProgressNs < cfg.stallNs then (st.(sawAttempt := saw), false)
        else if !saw then (st.(sawAttempt := saw, lastProgressNs := tick.checkNs), false)
        else (st.(sawAttempt := false), true)
  }

  /** The tick restarts the process for making no progress. */
  predicate Stalls(cfg: Config, st: State, tick: Tick) {
    !st.gaveUp && tick.alive && CheckStep(cfg, st, tick).1
  }

  /** The process is down: it died, or it was stopped for stalling. */
  predicate Down(cfg: Config, st: State, tick: Tick) {
    !st.gaveUp && (!tick.alive || CheckStep(cfg, st, tick).1)
  }

  /** The last start lies more than the window back. */
  predicate WindowPassed(cfg: Config, st: State, tick: Tick) {
    tick.deathNs - st.lastStartNs > cfg.windowNs
  }

  /** The process is down and did not exit cleanly. */
  predicate Crashes(cfg: Config, st: State, tick: Tick) {
    Down(cfg, st, tick) && tick.exit != Some(0)
  }

  /** It crashed and was not given up. */
  predicate Restarts(cfg: Config, st: State, tick: Tick) {
    Crashes(cfg, st, tick) && !Step(cfg, st, tick).gaveUp
  }

  function Step(cfg: Config, st: State, tick: Tick): State {
    if st.gaveUp then st
    else
      var checked := if tick.alive then CheckStep(cfg, st, tick).0 else st;
      if !Down(cfg, st, tick) then checked
      else
        var stopped := if tick.alive
                       then checked.(stallRestarts := checked.stallRestarts + 1, lastProgressNs := tick.resetNs, sawAttempt := false)
                       else checked;
        var exited := stopped.(lastExit := tick.exit);
        if tick.exit == Some(0) then exited.(gaveUp := true)
        else
          var base := if WindowPassed(cfg, st, tick) then 0 else st.restarts;
          if base >= cfg.maxRestarts then exited.(restarts := base, gaveUp := true)
          else exited.(restarts := base + 1, lastStartNs := tick.startNs)
  }

  class Child {
    var restarts: int
    var lastStartNs: int
    var gaveUp: bool
    var lastExit: Option<int>
    var lastProgressNs: int
    var completions: int
    var stallRestarts: int
    var sawAttempt: bool

    function Snapshot(): State
      reads this
    {
      State(restarts, lastStartNs, gaveUp, lastExit, lastProgressNs, completions, stallRestarts, sawAttempt)
    }

    /** A child just started by `start`. */
    constructor (nowNs: int, startNs: int)
      ensures Snapshot() == Started(nowNs, startNs)
    {
      restarts, lastStartNs, gaveUp, lastExit := 0, startNs, false, None;
      lastProgressNs, completions, stallRestarts, sawAttempt := nowNs, 0, 0, false;
    }

    method CheckProgress(cfg: Config, tick: Tick) returns (restart: bool)
      modifies this
      ensures (Snapshot(), restart) == CheckStep(cfg, old(Snapshot()), tick)
    {
      if tick.log.None? {
        return false;
      }
      var done := CountSince(tick.log.value, lastProgressNs);
      if done > 0 {
        completions := completions + done;
        lastProgressNs := tick.checkNs;
        return false;
      }
      if tick.holds == Some(true) {
        sawAttempt := true;
      }
      if tick.checkNs - lastProgressNs < cfg.stallNs {
        return false;
      }
      if !sawAttempt {
        lastProgressNs := tick.checkNs;
        return false;
      }
      sawAttempt := false;
      return true;
    }

    /** One pass of `_watch_loop` over this child. A live process is down just when nothing was logged
        for the stall timeout and a held claim was seen; what is down is restarted within its budget,
        unless it exited cleanly, and everything else is only watched. */
    method Watch(cfg: Config, tick: Tick)
      modifies this
      ensures Snapshot() == Step(cfg, old(Snapshot()), tick)
      ensures old(gaveUp) ==> Snapshot() == old(Snapshot())
      ensures !old(gaveUp) ==>
              var idle := tick.log.Some? && forall ts :: ts in tick.log.value ==> ts < old(lastProgressNs);
              var saw := old(sawAttempt) || tick.holds == Some(true);
              var down := !tick.alive || (idle && saw && tick.checkNs - old(lastProgressNs) >= cfg.stallNs);
              var late := tick.deathNs - old(lastStartNs) > cfg.windowNs;
              && (gaveUp <==> down && (tick.exit == Some(0) || (if late then 0 else old(restarts)) >= cfg.maxRestarts))
              && (down && !gaveUp ==> restarts == (if late then 1 else old(restarts) + 1) && lastStartNs == tick.startNs)
              && (down ==> lastExit == tick.exit)
              && (down && tick.alive ==> stallRestarts == old(stallRestarts) + 1 && lastProgressNs == tick.resetNs && !sawAttempt)
              && (!down ==> restarts == old(restarts) && lastStartNs == old(lastStartNs) && stallRestarts == old(stallRestarts))
              && (!down && idle ==> sawAttempt == saw && completions == old(completions)
                                    && lastProgressNs == if tick.checkNs - old(lastProgressNs) >= cfg.stallNs then tick.checkNs else old(lastProgressNs))
      ensures !old(gaveUp) && tick.alive && tick.log.Some? && (exists ts :: ts in tick.log.value && ts >= old(lastProgressNs)) ==>
              && completions == old(completions) + |set i | 0 <= i < |tick.log.value| && tick.log.value[i] >= old(lastProgressNs)|
              && lastProgressNs == tick.checkNs && sawAttempt == old(sawAttempt)
    {
      if tick.log.Some? {
        CountZero(tick.log.value, lastProgressNs);
        CountIsSize(tick.log.value, lastProgressNs);
      }
      if gaveUp {
        return;
      }
      if tick.alive {
        var stalled := CheckProgress(cfg, tick);
        if !stalled {
          return;
        }
        stallRestarts := stallRestarts + 1;
        lastProgressNs := tick.resetNs;
        sawAttempt := false;
      }
      lastExit := tick.exit;
      if lastExit == Some(0) {
        gaveUp := true;
        return;
      }
      if tick.deathNs - lastStartNs > cfg.windowNs {
        restarts := 0;
      }
      if restarts >= cfg.maxRestarts {
        gaveUp := true;
        return;
      }
      restarts := restarts + 1;
      lastStartNs := tick.startNs;
    }
  }

  function Started(nowNs: int, startNs: int): State {
    State(0, startNs, false, None, nowNs, 0, 0, false)
  }

  // ------------------------------------------------------------------
  // Runs
  // ------------------------------------------------------------------

  function After(cfg: Config, init: State, ticks: seq<Tick>, k: nat): State
    requires k <= |ticks|
  {
    if k == 0 then init else Step(cfg, After(cfg, init, ticks, k - 1), ticks[k - 1])
  }

  /** Once given up, a child is never touched again. */
  lemma {:induction false} GaveUpAbsorbing(cfg: Config, init: State, ticks: seq<Tick>, i: nat, j: nat)
    requires i <= j <= |ticks| && After(cfg, init, ticks, i).gaveUp
    ensures After(cfg, init, ticks, j) == After(cfg, init, ticks, i)
  {
    if i < j {
      GaveUpAbsorbing(cfg, init, ticks, i, j - 1);
    }
  }

  predicate RestartsAt(cfg: Config, init: State, ticks: seq<Tick>, k: nat)
    requires k < |ticks|
  {
    Restarts(cfg, After(cfg, init, ticks, k), ticks[k])
  }

  /** Restarts made by ticks i, ..., j - 1. */
  function RestartCount(cfg: Config, init: State, ticks: seq<Tick>, i: nat, j: nat): nat
    requires i <= j <= |ticks|
  {
    if i == j then 0
    else RestartCount(cfg, init, ticks, i, j - 1) + if RestartsAt(cfg, init, ticks, j - 1) then 1 else 0
  }

  lemma {:induction false} BudgetRespected(cfg: Config, init: State, ticks: seq<Tick>, k: nat)
    requires 0 <= init.restarts <= cfg.maxRestarts && k <= |ticks|
    ensures 0 <= After(cfg, init, ticks, k).restarts <= cfg.maxRestarts
  {
    if k > 0 {
      BudgetRespected(cfg, init, ticks, k - 1);
    }
  }

  /** Without a restart made after the window has passed, a stretch holds at most the budget. */
  lemma {:induction false} BudgetSpent(cfg: Config, init: State, ticks: seq<Tick>, i: nat, j: nat)
    requires 0 <= init.restarts <= cfg.maxRestarts && i <= j <= |ticks|
    requires forall k :: i <= k < j ==> !RestartsLate(cfg, init, ticks, k)
    ensures !After(cfg, init, ticks, j).gaveUp ==>
              After(cfg, init, ticks, j).restarts == After(cfg, init, ticks, i).restarts + RestartCount(cfg, init, ticks, i, j)
    ensures RestartCount(cfg, init, ticks, i, j) <= cfg.maxRestarts - After(cfg, init, ticks, i).restarts
  {
    BudgetRespected(cfg, init, ticks, i);
    if i < j {
      BudgetSpent(cfg, init, ticks, i, j - 1);
      BudgetRespected(cfg, init, ticks, j);
      assert !RestartsLate(cfg, init, ticks, j - 1);
    }
  }

  /** Tick `k` finds the process down more than the window after its last start. */
  predicate LateAt(cfg: Config, init: State, ticks: seq<Tick>, k: nat)
    requires k < |ticks|
  {
    WindowPassed(cfg, After(cfg, init, ticks, k), ticks[k])
  }

  predicate RestartsLate(cfg: Config, init: State, ticks: seq<Tick>, k: nat)
    requires k < |ticks|
  {
    RestartsAt(cfg, init, ticks, k) && LateAt(cfg, init, ticks, k)
  }

  lemma {:induction false} CountSplits(cfg: Config, init: State, ticks: seq<Tick>, i: nat, m: nat, j: nat)
    requires i <= m <= j <= |ticks|
    ensures RestartCount(cfg, init, ticks, i, j) == RestartCount(cfg, init, ticks, i, m) + RestartCount(cfg, init, ticks, m, j)
  {
    if m < j {
      CountSplits(cfg, init, ticks, i, m, j - 1);
    }
  }

  /** Any stretch with more than `maxRestarts` restarts contains a late one, and one that begins with a
      restart contains a later one that is late. */
  lemma CrashLoopBounded(cfg: Config, init: State, ticks: seq<Tick>, i: nat, j: nat)
    requires 0 <= init.restarts <= cfg.maxRestarts && i <= j <= |ticks|
    requires RestartCount(cfg, init, ticks, i, j) > cfg.maxRestarts
    ensures exists k :: i <= k < j && RestartsLate(cfg, init, ticks, k) && (RestartsAt(cfg, init, ticks, i) ==> i < k)
  {
    var first := if RestartsAt(cfg, init, ticks, i) then i + 1 else i;
    BudgetRespected(cfg, init, ticks, i);
    BudgetRespected(cfg, init, ticks, first);
    CountSplits(cfg, init, ticks, i, first, j);
    assert first > i ==> RestartCount(cfg, init, ticks, i, first) == 1 + RestartCount(cfg, init, ticks, i, i);
    if forall k :: first <= k < j ==> !RestartsLate(cfg, init, ticks, k) {
      BudgetSpent(cfg, init, ticks, first, j);
    }
  }

  // ------------------------------------------------------------------
  // When a child is given up
  // ------------------------------------------------------------------

  /** The last late restart before tick `k`, or the beginning. */
  function LastLate(cfg: Config, init: State, ticks: seq<Tick>, k: nat): (i: nat)
    requires k <= |ticks|
    ensures i <= k
  {
    if k == 0 then 0
    else if RestartsLate(cfg, init, ticks, k - 1) then k - 1
    else LastLate(cfg, init, ticks, k - 1)
  }

  lemma {:induction false} LastLateBelow(cfg: Config, init: State, ticks: seq<Tick>, i: nat, k: nat)
    requires i <= k <= |ticks| && forall q :: i < q < k ==> !RestartsLate(cfg, init, ticks, q)
    ensures LastLate(cfg, init, ticks, k) <= i
  {
    if i < k {
      LastLateBelow(cfg, init, ticks, i, k - 1);
    }
  }

  /** A live child has used up exactly the restarts since the last late one, that one included. */
  lemma {:induction false} BudgetUsed(cfg: Config, init: State, ticks: seq<Tick>, k: nat)
    requires init.restarts == 0 && k <= |ticks| && !After(cfg, init, ticks, k).gaveUp
    ensures After(cfg, init, ticks, k).restarts == RestartCount(cfg, init, ticks, LastLate(cfg, init, ticks, k), k)
  {
    if k > 0 {
      BudgetUsed(cfg, init, ticks, k - 1);
    }
  }

  /** In every run a child is given up by tick `k` exactly when it was before, or is down after a clean
      exit, or has crashed with its budget gone: not late, the restarts since the last late one
      number `maxRestarts`; late, there is no budget at all. */
  lemma GivenUpExactly(cfg: Config, nowNs: int, startNs: int, ticks: seq<Tick>, k: nat)
    requires k < |ticks|
    ensures var init := Started(nowNs, startNs);
            After(cfg, init, ticks, k + 1).gaveUp <==>
            || After(cfg, init, ticks, k).gaveUp
            || (Down(cfg, After(cfg, init, ticks, k), ticks[k])
                && (ticks[k].exit == Some(0)
                    || (if LateAt(cfg, init, ticks, k) then 0
                        else RestartCount(cfg, init, ticks, LastLate(cfg, init, ticks, k), k)) == cfg.maxRestarts))
  {
    var init := Started(nowNs, startNs);
    if !After(cfg, init, ticks, k).gaveUp {
      BudgetUsed(cfg, init, ticks, k);
      BudgetRespected(cfg, init, ticks, k);
    }
  }

  // ------------------------------------------------------------------
  // The ceiling inside a window of time
  // ------------------------------------------------------------------

  /** The clock never goes back. */
  ghost predicate ClockRuns(startNs: int, ticks: seq<Tick>) {
    && (forall q :: 0 <= q < |ticks| ==> startNs <= ticks[q].deathNs <= ticks[q].startNs)
    && (forall q, r :: 0 <= q < r < |ticks| ==> ticks[q].startNs <= ticks[r].deathNs)
  }

  /** Restarts made before tick `k` at times in the closed interval [lo, hi]. */
  function StartsWithin(cfg: Config, init: State, ticks: seq<Tick>, k: nat, lo: int, hi: int): nat
    requires k <= |ticks|
  {
    if k == 0 then 0
    else StartsWithin(cfg, init, ticks, k - 1, lo, hi)
         + if RestartsAt(cfg, init, ticks, k - 1) && lo <= ticks[k - 1].startNs <= hi then 1 else 0
  }

  predicate CrashesAt(cfg: Config, init: State, ticks: seq<Tick>, k: nat)
    requires k < |ticks|
  {
    Crashes(cfg, After(cfg, init, ticks, k), ticks[k])
  }

  /** Restarts made within the window that ends in the death at tick `k`. */
  function RestartsInWindow(cfg: Config, init: State, ticks: seq<Tick>, k: nat): nat
    requires k < |ticks|
  {
    StartsWithin(cfg, init, ticks, k, ticks[k].deathNs - cfg.windowNs, ticks[k].deathNs)
  }

  /** The last start was made by the last restart, or by `start`. */
  lemma {:induction false} LastStart(cfg: Config, nowNs: int, startNs: int, ticks: seq<Tick>, k: nat) returns (q: int)
    requires k <= |ticks|
    ensures var init := Started(nowNs, startNs);
            && -1 <= q < k && RestartCount(cfg, init, ticks, q + 1, k) == 0
            && (forall r :: q < r < k ==> !RestartsAt(cfg, init, ticks, r))
            && if q == -1 then After(cfg, init, ticks, k).lastStartNs == startNs
               else RestartsAt(cfg, init, ticks, q) && After(cfg, init, ticks, k).lastStartNs == ticks[q].startNs
  {
    var init := Started(nowNs, startNs);
    if k == 0 {
      q := -1;
    } else if RestartsAt(cfg, init, ticks, k - 1) {
      q := k - 1;
    } else {
      q := LastStart(cfg, nowNs, startNs, ticks, k - 1);
    }
  }

  /** A death within the window of any earlier restart is not late. */
  lemma NotLate(cfg: Config, nowNs: int, startNs: int, ticks: seq<Tick>, i: nat, k: nat)
    requires ClockRuns(startNs, ticks) && i < k < |ticks| && RestartsAt(cfg, Started(nowNs, startNs), ticks, i)
    requires ticks[k].deathNs - ticks[i].startNs <= cfg.windowNs
    ensures !LateAt(cfg, Started(nowNs, startNs), ticks, k)
  {
    var q := LastStart(cfg, nowNs, startNs, ticks, k);
    assert i <= q;
    assert ticks[i].startNs <= ticks[q].startNs by {
      assert i < q ==> ticks[i].startNs <= ticks[q].deathNs;
    }
  }

  /** The restarts within an interval of time lie in a stretch that begins and ends with one. */
  lemma {:induction false} Stretch(cfg: Config, init: State, ticks: seq<Tick>, k: nat, lo: int, hi: int) returns (i: nat, j: nat)
    requires k <= |ticks| && StartsWithin(cfg, init, ticks, k, lo, hi) > 0
    ensures i < j <= k && (RestartsAt(cfg, init, ticks, i), RestartsAt(cfg, init, ticks, j - 1)) == (true, true)
    ensures lo <= ticks[i].startNs && ticks[j - 1].startNs <= hi
    ensures RestartCount(cfg, init, ticks, i, j) >= StartsWithin(cfg, init, ticks, k, lo, hi)
  {
    var counted := RestartsAt(cfg, init, ticks, k - 1) && lo <= ticks[k - 1].startNs <= hi;
    if StartsWithin(cfg, init, ticks, k - 1, lo, hi) == 0 {
      i, j := k - 1, k;
      assert RestartCount(cfg, init, ticks, i, j) == 1 + RestartCount(cfg, init, ticks, i, i);
    } else {
      i, j := Stretch(cfg, init, ticks, k - 1, lo, hi);
      if counted {
        CountSplits(cfg, init, ticks, i, j, k - 1);
        j := k;
      }
    }
  }

  /** The true half of the documented ceiling: no interval of the window's length ever holds more than
      `maxRestarts` restarts. */
  lemma NoWindowExceeds(cfg: Config, nowNs: int, startNs: int, ticks: seq<Tick>, lo: int)
    requires ClockRuns(startNs, ticks)
    ensures StartsWithin(cfg, Started(nowNs, startNs), ticks, |ticks|, lo, lo + cfg.windowNs) <= cfg.maxRestarts
  {
    var init := Started(nowNs, startNs);
    if StartsWithin(cfg, init, ticks, |ticks|, lo, lo + cfg.windowNs) > cfg.maxRestarts {
      var i, j := Stretch(cfg, init, ticks, |ticks|, lo, lo + cfg.windowNs);
      CrashLoopBounded(cfg, init, ticks, i, j);
      var q :| i < q < j && RestartsLate(cfg, init, ticks, q);
      assert q < j - 1 ==> ticks[q].startNs <= ticks[j - 1].deathNs;
      NotLate(cfg, nowNs, startNs, ticks, i, q);
    }
  }

  /** So a child that crashes within the window of `maxRestarts` earlier restarts is given up. */
  lemma FullWindowGivesUp(cfg: Config, nowNs: int, startNs: int, ticks: seq<Tick>, k: nat)
    requires ClockRuns(startNs, ticks) && k < |ticks|
    requires CrashesAt(cfg, Started(nowNs, startNs), ticks, k)
    requires RestartsInWindow(cfg, Started(nowNs, startNs), ticks, k) >= cfg.maxRestarts
    ensures After(cfg, Started(nowNs, startNs), ticks, k + 1).gaveUp
  {
    var init := Started(nowNs, startNs);
    GivenUpExactly(cfg, nowNs, startNs, ticks, k);
    BudgetUsed(cfg, init, ticks, k);
    BudgetRespected(cfg, init, ticks, k);
    if cfg.maxRestarts > 0 {
      var i, j := Stretch(cfg, init, ticks, k, ticks[k].deathNs - cfg.windowNs, ticks[k].deathNs);
      forall q | i < q <= k ensures !LateAt(cfg, init, ticks, q) {
        assert q < k ==> ticks[q].startNs <= ticks[k].deathNs;
        NotLate(cfg, nowNs, startNs, ticks, i, q);
      }
      LastLateBelow(cfg, init, ticks, i, k);
      CountSplits(cfg, init, ticks, LastLate(cfg, init, ticks, k), i, k);
      CountSplits(cfg, init, ticks, i, j, k);
    }
  }

  /** The ceiling as documented: a crashed child is given up exactly when `maxRestarts` restarts fell
      into the window that ends in the crash. */
  ghost predicate DocumentedCeiling(cfg: Config) {
    forall nowNs, startNs, ticks: seq<Tick>, k: nat {:trigger GivenUpAt(cfg, nowNs, startNs, ticks, k)} ::
      ClockRuns(startNs, ticks) && k < |ticks| && CrashesAt(cfg, Started(nowNs, startNs), ticks, k) ==>
        (GivenUpAt(cfg, nowNs, startNs, ticks, k) <==>
         RestartsInWindow(cfg, Started(nowNs, startNs), ticks, k) >= cfg.maxRestarts)
  }

  predicate GivenUpAt(cfg: Config, nowNs: int, startNs: int, ticks: seq<Tick>, k: nat)
    requires k < |ticks|
  {
    After(cfg, Started(nowNs, startNs), ticks, k + 1).gaveUp
  }

  /** The code meets it exactly for a budget of at most one restart or a negative window: what it
      measures is the gap since the last start, not the count in the window. */
  lemma DocumentedCeilingIff(cfg: Config)
    ensures DocumentedCeiling(cfg) <==> cfg.maxRestarts <= 1 || cfg.windowNs < 0
  {
    if cfg.maxRestarts <= 1 || cfg.windowNs < 0 {
      forall nowNs, startNs, ticks: seq<Tick>, k: nat |
        ClockRuns(startNs, ticks) && k < |ticks| && CrashesAt(cfg, Started(nowNs, startNs), ticks, k)
        ensures GivenUpAt(cfg, nowNs, startNs, ticks, k) <==>
                RestartsInWindow(cfg, Started(nowNs, startNs), ticks, k) >= cfg.maxRestarts
      {
        if RestartsInWindow(cfg, Started(nowNs, startNs), ticks, k) >= cfg.maxRestarts {
          FullWindowGivesUp(cfg, nowNs, startNs, ticks, k);
        } else {
          SmallBudgetSpared(cfg, nowNs, startNs, ticks, k);
        }
      }
    } else {
      SpreadCrashesGiveUp(cfg);
      assert !GivenUpAt(cfg, 0, 0, Spread(cfg), cfg.maxRestarts) || !DocumentedCeiling(cfg);
    }
  }

  lemma SmallBudgetSpared(cfg: Config, nowNs: int, startNs: int, ticks: seq<Tick>, k: nat)
    requires cfg.maxRestarts <= 1 || cfg.windowNs < 0
    requires ClockRuns(startNs, ticks) && k < |ticks|
    requires CrashesAt(cfg, Started(nowNs, startNs), ticks, k)
    requires RestartsInWindow(cfg, Started(nowNs, startNs), ticks, k) < cfg.maxRestarts
    ensures !GivenUpAt(cfg, nowNs, startNs, ticks, k)
  {
    var init := Started(nowNs, startNs);
    GivenUpExactly(cfg, nowNs, startNs, ticks, k);
    var q := LastStart(cfg, nowNs, startNs, ticks, k);
    if !LateAt(cfg, init, ticks, k) {
      var i := LastLate(cfg, init, ticks, k);
      if q < i {
        CountSplits(cfg, init, ticks, q + 1, i, k);
      } else {
        StartCounted(cfg, init, ticks, q, k, ticks[k].deathNs - cfg.windowNs, ticks[k].deathNs);
      }
    }
  }

  lemma {:induction false} StartCounted(cfg: Config, init: State, ticks: seq<Tick>, q: nat, k: nat, lo: int, hi: int)
    requires q < k <= |ticks| && RestartsAt(cfg, init, ticks, q) && lo <= ticks[q].startNs <= hi
    ensures StartsWithin(cfg, init, ticks, k, lo, hi) > 0
  {
    if q < k - 1 {
      StartCounted(cfg, init, ticks, q, k - 1, lo, hi);
    }
  }

  /** A crash at `t`, restarted one nanosecond later. */
  function Crash(t: int): Tick {
    Tick(false, None, None, Some(1), t, t, t, t + 1)
  }

  /** Crashes a whole window after each restart. */
  function Spread(cfg: Config): seq<Tick> {
    seq(cfg.maxRestarts + 1, q => Crash(q * (cfg.windowNs + 1)))
  }

  lemma {:induction false} SpreadState(cfg: Config, k: nat)
    requires cfg.windowNs >= 0 && k <= cfg.maxRestarts
    ensures var st := After(cfg, Started(0, 0), Spread(cfg), k);
            !st.gaveUp && st.restarts == k && k * (cfg.windowNs + 1) - st.lastStartNs <= cfg.windowNs
  {
    if k > 0 {
      SpreadState(cfg, k - 1);
      assert k * (cfg.windowNs + 1) == (k - 1) * (cfg.windowNs + 1) + cfg.windowNs + 1;
    }
  }

  lemma {:induction false} SpreadOutside(cfg: Config, k: nat)
    requires cfg.windowNs >= 0 && k < cfg.maxRestarts
    ensures var end := cfg.maxRestarts * (cfg.windowNs + 1);
            StartsWithin(cfg, Started(0, 0), Spread(cfg), k, end - cfg.windowNs, end) == 0
    ensures k * (cfg.windowNs + 1) + cfg.windowNs + 1 <= cfg.maxRestarts * (cfg.windowNs + 1)
  {
    Scaled(k + 1, cfg.maxRestarts, cfg.windowNs + 1);
    assert (k + 1) * (cfg.windowNs + 1) == k * (cfg.windowNs + 1) + cfg.windowNs + 1;
    if k > 0 {
      SpreadOutside(cfg, k - 1);
      assert k * (cfg.windowNs + 1) == (k - 1) * (cfg.windowNs + 1) + cfg.windowNs + 1;
    }
  }

  lemma Scaled(a: nat, b: nat, w: nat)
    requires a <= b
    ensures a * w <= b * w
  {
  }

  /** Crashes spread out by whole windows exhaust any budget of two or more, although only one restart
      falls into the last window. */
  lemma SpreadCrashesGiveUp(cfg: Config)
    requires cfg.maxRestarts >= 2 && cfg.windowNs >= 0
    ensures var ticks, k := Spread(cfg), cfg.maxRestarts;
            && ClockRuns(0, ticks) && CrashesAt(cfg, Started(0, 0), ticks, k)
            && GivenUpAt(cfg, 0, 0, ticks, k)
            && RestartsInWindow(cfg, Started(0, 0), ticks, k) <= 1
  {
    var ticks, k := Spread(cfg), cfg.maxRestarts;
    SpreadClock(cfg);
    SpreadState(cfg, k);
    SpreadOutside(cfg, k - 1);
    assert ticks[k] == Crash(k * (cfg.windowNs + 1));
  }

  lemma SpreadClock(cfg: Config)
    requires cfg.windowNs >= 0
    ensures ClockRuns(0, Spread(cfg))
  {
    var ticks, w := Spread(cfg), cfg.windowNs + 1;
    forall q | 0 <= q < |ticks| ensures 0 <= ticks[q].deathNs <= ticks[q].startNs {
      Scaled(0, q, w);
    }
    forall q, r | 0 <= q < r < |ticks| ensures ticks[q].startNs <= ticks[r].deathNs {
      Scaled(q + 1, r, w);
      assert (q + 1) * w == q * w + w;
    }
  }

  // ------------------------------------------------------------------
  // Stalls
  // ------------------------------------------------------------------

  /** A stall restart means no envelope in the log carries a timestamp within the stall timeout of
      the check, and the child was holding a claim now or has `saw_attempt` from before. */
  lemma StallMeansNoCompletion(cfg: Config, st: State, tick: Tick)
    requires Stalls(cfg, st, tick)
    ensures tick.log.Some?
    ensures forall ts :: ts in tick.log.value ==> ts < st.lastProgressNs <= tick.checkNs - cfg.stallNs
    ensures st.sawAttempt || tick.holds == Some(true)
  {
    CountZero(tick.log.value, st.lastProgressNs);
  }

  /** A process that logged an envelope within the stall timeout is left alone. */
  lemma RecentWorkIsSafe(cfg: Config, st: State, tick: Tick, ts: int)
    requires tick.log.Some? && ts in tick.log.value && ts > tick.checkNs - cfg.stallNs
    ensures !Stalls(cfg, st, tick)
  {
    CountZero(tick.log.value, st.lastProgressNs);
  }

  /** A held claim was seen at tick `q` and `sawAttempt` was not cleared from there to state `k`. */
  ghost predicate SeenSince(cfg: Config, init: State, ticks: seq<Tick>, q: nat, k: nat)
    requires q < |ticks| && k <= |ticks|
  {
    && ticks[q].alive && ticks[q].holds == Some(true)
    && forall r :: q < r <= k ==> After(cfg, init, ticks, r).sawAttempt
  }

  /** `sawAttempt` records a claim seen at some tick and not cleared since; completions do not
      clear it. */
  lemma {:induction false} AttemptWasSeen(cfg: Config, init: State, ticks: seq<Tick>, k: nat)
    requires !init.sawAttempt && k <= |ticks| && After(cfg, init, ticks, k).sawAttempt
    ensures exists q :: 0 <= q < k && SeenSince(cfg, init, ticks, q, k)
  {
    if After(cfg, init, ticks, k - 1).sawAttempt {
      AttemptWasSeen(cfg, init, ticks, k - 1);
      var q :| 0 <= q < k - 1 && SeenSince(cfg, init, ticks, q, k - 1);
      assert SeenSince(cfg, init, ticks, q, k);
    } else {
      assert SeenSince(cfg, init, ticks, k - 1, k);
    }
  }

  /** A stall restart in a run: a claim was seen held at this tick or at an earlier one since
      `saw_attempt` was last cleared. */
  lemma StallMeansAttempt(cfg: Config, init: State, ticks: seq<Tick>, k: nat)
    requires !init.sawAttempt && k < |ticks| && Stalls(cfg, After(cfg, init, ticks, k), ticks[k])
    ensures exists q :: 0 <= q <= k && SeenSince(cfg, init, ticks, q, k)
  {
    var st := After(cfg, init, ticks, k);
    StallMeansNoCompletion(cfg, st, ticks[k]);
    if st.sawAttempt {
      AttemptWasSeen(cfg, init, ticks, k);
    } else {
      assert SeenSince(cfg, init, ticks, k, k);
    }
  }

  /** The attempt need not fall in the window that ends in the restart: a claim seen before a counted
      completion still convicts an agent that has been idle since. */
  lemma StaleAttemptConvicts(stallNs: nat)
    requires stallNs > 1
    ensures var cfg := Config(5, 1000, stallNs);
            var held := Tick(true, Some([]), Some(true), None, 1, 1, 1, 1);
            var finished := Tick(true, Some([1]), Some(false), None, 2, 2, 2, 2);
            var idle := Tick(true, Some([1]), Some(false), None, 2 + stallNs, 2 + stallNs, 2 + stallNs, 2 + stallNs);
            var ticks := [held, finished, idle];
            && After(cfg, Started(0, 0), ticks, 2).completions == 1
            && Stalls(cfg, After(cfg, Started(0, 0), ticks, 2), idle)
  {
    var cfg := Config(5, 1000, stallNs);
    var held := Tick(true, Some([]), Some(true), None, 1, 1, 1, 1);
    var finished := Tick(true, Some([1]), Some(false), None, 2, 2, 2, 2);
    var idle := Tick(true, Some([1]), Some(false), None, 2 + stallNs, 2 + stallNs, 2 + stallNs, 2 + stallNs);
    var ticks := [held, finished, idle];
    var s0 := Started(0, 0);
    assert CountSince([], 0) == 0 && CountSince([1], 0) == 1 && CountSince([1], 2) == 0;
    assert After(cfg, s0, ticks, 0) == s0;
    var s1 := After(cfg, s0, ticks, 1);
    assert s1 == Step(cfg, s0, held) && s1.sawAttempt && s1.lastProgressNs == 0;
    assert After(cfg, s0, ticks, 2) == Step(cfg, s1, finished);
  }

  // ------------------------------------------------------------------
  // What `saw_attempt` is worth
  // ------------------------------------------------------------------

  /** The tick counts completions. */
  predicate Counts(st: State, tick: Tick) {
    !st.gaveUp && tick.alive && tick.log.Some? && CountSince(tick.log.value, st.lastProgressNs) > 0
  }

  /** The tick finds nothing completed and sees a claim held. */
  predicate Observes(st: State, tick: Tick) {
    !st.gaveUp && tick.alive && tick.log.Some? && CountSince(tick.log.value, st.lastProgressNs) == 0 && tick.holds == Some(true)
  }

  /** The tick writes `last_progress_ns`: a completion, an idle timeout or a stall. */
  predicate OpensWindow(cfg: Config, st: State, tick: Tick) {
    Counts(st, tick)
    || (!st.gaveUp && tick.alive && tick.log.Some? && tick.checkNs - st.lastProgressNs >= cfg.stallNs)
  }

  predicate OpensAt(cfg: Config, init: State, ticks: seq<Tick>, k: nat)
    requires k < |ticks|
  {
    OpensWindow(cfg, After(cfg, init, ticks, k), ticks[k])
  }

  predicate ObservedAt(cfg: Config, init: State, ticks: seq<Tick>, k: nat)
    requires k < |ticks|
  {
    Observes(After(cfg, init, ticks, k), ticks[k])
  }

  /** Tick `k` counts a completion while `sawAttempt` is set. */
  predicate CountsWhileSet(cfg: Config, init: State, ticks: seq<Tick>, k: nat)
    requires k < |ticks|
  {
    After(cfg, init, ticks, k).sawAttempt && Counts(After(cfg, init, ticks, k), ticks[k])
  }

  /** A claim was seen held before tick `k`, in the window current there. */
  ghost predicate SeenInWindow(cfg: Config, init: State, ticks: seq<Tick>, k: nat)
    requires k <= |ticks|
  {
    exists q :: 0 <= q < k && ObservedAt(cfg, init, ticks, q) && forall r :: q <= r < k ==> !OpensAt(cfg, init, ticks, r)
  }

  lemma {:induction false} SeenIsRecorded(cfg: Config, init: State, ticks: seq<Tick>, q: nat, k: nat)
    requires q < k <= |ticks| && ObservedAt(cfg, init, ticks, q)
    requires forall r :: q <= r < k ==> !OpensAt(cfg, init, ticks, r)
    ensures After(cfg, init, ticks, k).sawAttempt
  {
    assert !OpensAt(cfg, init, ticks, k - 1);
    if q < k - 1 {
      SeenIsRecorded(cfg, init, ticks, q, k - 1);
    }
  }

  lemma {:induction false} RecordedIsSeen(cfg: Config, init: State, ticks: seq<Tick>, k: nat)
    requires !init.sawAttempt && k <= |ticks| && After(cfg, init, ticks, k).sawAttempt
    requires forall r :: 0 <= r < k ==> !CountsWhileSet(cfg, init, ticks, r)
    ensures SeenInWindow(cfg, init, ticks, k)
  {
    assert !CountsWhileSet(cfg, init, ticks, k - 1);
    assert !OpensAt(cfg, init, ticks, k - 1);
    if After(cfg, init, ticks, k - 1).sawAttempt {
      RecordedIsSeen(cfg, init, ticks, k - 1);
      var q :| 0 <= q < k - 1 && ObservedAt(cfg, init, ticks, q) && forall r :: q <= r < k - 1 ==> !OpensAt(cfg, init, ticks, r);
      assert forall r :: q <= r < k ==> r == k - 1 || !OpensAt(cfg, init, ticks, r);
    } else {
      assert ObservedAt(cfg, init, ticks, k - 1);
    }
  }

  /** Throughout a run `sawAttempt` says what it is documented to say, that a held claim was seen in the
      current window, exactly when no completion is counted while it is set. */
  lemma FlagMeansWindowIff(cfg: Config, nowNs: int, startNs: int, ticks: seq<Tick>)
    ensures var init := Started(nowNs, startNs);
            (forall k :: 0 <= k <= |ticks| ==> (After(cfg, init, ticks, k).sawAttempt <==> SeenInWindow(cfg, init, ticks, k)))
            <==> (forall k :: 0 <= k < |ticks| ==> !CountsWhileSet(cfg, init, ticks, k))
  {
    var init := Started(nowNs, startNs);
    if k :| 0 <= k < |ticks| && CountsWhileSet(cfg, init, ticks, k) {
      assert OpensAt(cfg, init, ticks, k);
      assert After(cfg, init, ticks, k + 1).sawAttempt && !SeenInWindow(cfg, init, ticks, k + 1);
    } else {
      forall k | 0 <= k <= |ticks| ensures After(cfg, init, ticks, k).sawAttempt <==> SeenInWindow(cfg, init, ticks, k) {
        if After(cfg, init, ticks, k).sawAttempt {
          RecordedIsSeen(cfg, init, ticks, k);
        }
        if q :| 0 <= q < k && ObservedAt(cfg, init, ticks, q) && forall r :: q <= r < k ==> !OpensAt(cfg, init, ticks, r) {
          SeenIsRecorded(cfg, init, ticks, q, k);
        }
      }
    }
  }

  /** Then every stall restart of the run is fair: a claim was seen held in the window it ends. */
  lemma StallsFair(cfg: Config, nowNs: int, startNs: int, ticks: seq<Tick>, k: nat)
    requires k < |ticks| && Stalls(cfg, After(cfg, Started(nowNs, startNs), ticks, k), ticks[k])
    requires forall r :: 0 <= r < k ==> !CountsWhileSet(cfg, Started(nowNs, startNs), ticks, r)
    ensures exists q :: 0 <= q <= k && ObservedAt(cfg, Started(nowNs, startNs), ticks, q)
                        && forall r :: q <= r < k ==> !OpensAt(cfg, Started(nowNs, startNs), ticks, r)
  {
    var init := Started(nowNs, startNs);
    if After(cfg, init, ticks, k).sawAttempt {
      RecordedIsSeen(cfg, init, ticks, k);
    } else {
      assert ObservedAt(cfg, init, ticks, k);
    }
  }

  /** Whatever happens from `st` on, a stall restart that ends the window current in `st` comes after a
      held claim was seen in that window. */
  ghost predicate FairFrom(cfg: Config, st: State) {
    forall ticks: seq<Tick>, k: nat {:trigger StallsAt(cfg, st, ticks, k)} ::
      k < |ticks| && StallsAt(cfg, st, ticks, k) && (forall r :: 0 <= r < k ==> !OpensAt(cfg, st, ticks, r)) ==>
        exists q :: 0 <= q <= k && ObservedAt(cfg, st, ticks, q)
  }

  predicate StallsAt(cfg: Config, init: State, ticks: seq<Tick>, k: nat)
    requires k < |ticks|
  {
    Stalls(cfg, After(cfg, init, ticks, k), ticks[k])
  }

  lemma {:induction false} FlagStaysDown(cfg: Config, st: State, ticks: seq<Tick>, k: nat)
    requires k <= |ticks| && !st.sawAttempt && forall q :: 0 <= q < k ==> !ObservedAt(cfg, st, ticks, q)
    ensures !After(cfg, st, ticks, k).sawAttempt
  {
    if k > 0 {
      FlagStaysDown(cfg, st, ticks, k - 1);
      assert !ObservedAt(cfg, st, ticks, k - 1);
    }
  }

  /** From a state with the flag down no stall restart, in this window or a later one, comes before a
      held claim was seen. */
  lemma StallIsEarned(cfg: Config, st: State, ticks: seq<Tick>, k: nat)
    requires !st.sawAttempt && k < |ticks| && StallsAt(cfg, st, ticks, k)
    ensures exists q :: 0 <= q <= k && ObservedAt(cfg, st, ticks, q)
  {
    if forall q :: 0 <= q < k ==> !ObservedAt(cfg, st, ticks, q) {
      FlagStaysDown(cfg, st, ticks, k);
      assert ObservedAt(cfg, st, ticks, k);
    }
  }

  /** A live state is fair to the process exactly when the flag is down in it. */
  lemma FairFromIff(cfg: Config, st: State)
    requires !st.gaveUp
    ensures FairFrom(cfg, st) <==> !st.sawAttempt
  {
    if st.sawAttempt {
      var at := st.lastProgressNs + cfg.stallNs;
      var idle := Tick(true, Some([]), Some(false), None, at, at, at, at);
      assert After(cfg, st, [idle], 0) == st && CountSince([], st.lastProgressNs) == 0;
      assert StallsAt(cfg, st, [idle], 0) && !ObservedAt(cfg, st, [idle], 0);
    } else {
      forall ticks: seq<Tick>, k: nat | k < |ticks| && StallsAt(cfg, st, ticks, k)
        ensures exists q :: 0 <= q <= k && ObservedAt(cfg, st, ticks, q)
      {
        StallIsEarned(cfg, st, ticks, k);
      }
    }
  }

  /** A window that opens in a run: at its start, or by a tick that does not end in giving up. */
  predicate WindowOpens(cfg: Config, init: State, ticks: seq<Tick>, k: nat)
    requires k <= |ticks|
  {
    (k == 0 || OpensAt(cfg, init, ticks, k - 1)) && !After(cfg, init, ticks, k).gaveUp
  }

  /** Every window that a run opens is fair to the process, whatever follows, exactly when the run never
      counts a completion while the flag is set. */
  lemma WindowsFairIff(cfg: Config, nowNs: int, startNs: int, ticks: seq<Tick>)
    ensures var init := Started(nowNs, startNs);
            (forall k :: 0 <= k <= |ticks| && WindowOpens(cfg, init, ticks, k) ==> FairFrom(cfg, After(cfg, init, ticks, k)))
            <==> (forall k :: 0 <= k < |ticks| ==> !CountsWhileSet(cfg, init, ticks, k))
  {
    var init := Started(nowNs, startNs);
    forall k | 0 <= k <= |ticks| && WindowOpens(cfg, init, ticks, k)
      ensures FairFrom(cfg, After(cfg, init, ticks, k)) <==> k == 0 || !CountsWhileSet(cfg, init, ticks, k - 1)
    {
      FairFromIff(cfg, After(cfg, init, ticks, k));
    }
    forall k | 0 <= k < |ticks| && CountsWhileSet(cfg, init, ticks, k) ensures WindowOpens(cfg, init, ticks, k + 1) {
      assert OpensAt(cfg, init, ticks, k);
    }
  }
}
