/** gyza/roster.py: one slot of a roster of agent threads. A tick of the watch loop may restart the
    agent; unlike the process supervisor the restart budget is never renewed, and a failed start is
    final. */
module Roster {
  import opened Common
  import opened Supervisor

  datatype SlotConfig = SlotConfig(maxRestarts: int, stallNs: int)

  /** `startOk`: does building and starting a new runner succeed? */
  datatype SlotTick = SlotTick(threadAlive: bool, log: Option<seq<int>>, holds: Option<bool>,
                               nowNs: int, startOk: bool, startNs: int)

  /** `hasRunner`: some start succeeded; `starts` counts the attempts. */
  datatype SlotState = SlotState(hasRunner: bool, restarts: int, gaveUp: bool, completions: int,
                                 lastProgressNs: int, sawAttempt: bool, starts: nat)

  function SlotCheck(cfg: SlotConfig, st: SlotState, tick: SlotTick): (SlotState, bool) {
    if tick.log.None? then (st, false)
    else
      var done := CountSince(tick.log.value, st.lastProgressNs);
      if done > 0 then (st.(completions := st.completions + done, lastProgressNs := tick.nowNs), false)
      else
        var saw := st.sawAttempt || tick.holds == Some(true);
        if tick.nowNs - st.lastProgressNs < cfg.stallNs then (st.(sawAttempt := saw), false)
        else if !saw then (st.(sawAttempt := saw, lastProgressNs := tick.nowNs), false)
        else (st.(sawAttempt := false), true)
  }

  /** The thread died, or lives and stalls. */
  predicate SlotDown(cfg: SlotConfig, st: SlotState, tick: SlotTick) {
    !tick.threadAlive || SlotCheck(cfg, st, tick).1
  }

  predicate Watched(st: SlotState) {
    !st.gaveUp && st.hasRunner
  }

  function SlotStep(cfg: SlotConfig, st: SlotState, tick: SlotTick): SlotState {
    if !Watched(st) then st
    else
      var checked := if tick.threadAlive then SlotCheck(cfg, st, tick).0 else st;
      if !SlotDown(cfg, st, tick) then checked
      else if st.restarts + 1 > cfg.maxRestarts then checked.(restarts := st.restarts + 1, gaveUp := true)
      else Attempt(checked.(restarts := st.restarts + 1), tick.startOk, tick.startNs, true)
  }

  /** `_start_slot`, after which a successful restart clears `saw_attempt`. */
  function Attempt(st: SlotState, ok: bool, startNs: int, restart: bool): SlotState {
    if ok then st.(hasRunner := true, lastProgressNs := startNs, starts := st.starts + 1,
                   sawAttempt := if restart then false else st.sawAttempt)
    else st.(gaveUp := true, starts := st.starts + 1)
  }

  /** A slot after `start()`. */
  function SlotStarted(ok: bool, startNs: int): SlotState {
    Attempt(SlotState(false, 0, false, 0, 0, false, 0), ok, startNs, false)
  }

  class Slot {
    var hasRunner: bool
    var restarts: int
    var gaveUp: bool
    var completions: int
    var lastProgressNs: int
    var sawAttempt: bool
    ghost var starts: nat

    ghost function Snapshot(): SlotState
      reads this
    {
      SlotState(hasRunner, restarts, gaveUp, completions, lastProgressNs, sawAttempt, starts)
    }

    constructor (startOk: bool, startNs: int)
      ensures Snapshot() == SlotStarted(startOk, startNs)
    {
      hasRunner, restarts, gaveUp, completions, lastProgressNs, sawAttempt, starts := false, 0, false, 0, 0, false, 0;
      new;
      var _ := StartSlot(startOk, startNs);
    }

    method StartSlot(startOk: bool, startNs: int) returns (ok: bool)
      modifies this
      ensures ok == startOk
      ensures Snapshot() == Attempt(old(Snapshot()), startOk, startNs, false)
    {
      starts := starts + 1;
      if startOk {
        hasRunner := true;
        lastProgressNs := startNs;
        return true;
      }
      gaveUp := true;
      return false;
    }

    method CheckProgress(cfg: SlotConfig, tick: SlotTick) returns (restart: bool)
      modifies this
      ensures (Snapshot(), restart) == SlotCheck(cfg, old(Snapshot()), tick)
    {
      if tick.log.None? {
        return false;
      }
      var done := CountSince(tick.log.value, lastProgressNs);
      if done > 0 {
        completions := completions + done;
        lastProgressNs := tick.nowNs;
        return false;
      }
      if tick.holds == Some(true) {
        sawAttempt := true;
      }
      if tick.nowNs - lastProgressNs < cfg.stallNs {
        return false;
      }
      if !sawAttempt {
        lastProgressNs := tick.nowNs;
        return false;
      }
      sawAttempt := false;
      return true;
    }

    /** One pass of `_watch_loop` over this slot. A live agent is down just when nothing was logged for the
        stall timeout and a held claim was seen; what is down is started anew within its budget, and
        everything else is only watched. */
    method Watch(cfg: SlotConfig, tick: SlotTick)
      modifies this
      ensures Snapshot() == SlotStep(cfg, old(Snapshot()), tick)
      ensures old(gaveUp) || !old(hasRunner) ==> Snapshot() == old(Snapshot())
      ensures !old(gaveUp) && old(hasRunner) ==>
              var idle := tick.log.Some? && forall ts :: ts in tick.log.value ==> ts < old(lastProgressNs);
              var saw := old(sawAttempt) || tick.holds == Some(true);
              var down := !tick.threadAlive || (idle && saw && tick.nowNs - old(lastProgressNs) >= cfg.stallNs);
              && restarts == old(restarts) + (if down then 1 else 0)
              && (gaveUp <==> down && (old(restarts) >= cfg.maxRestarts || !tick.startOk))
              && starts == old(starts) + (if down && old(restarts) < cfg.maxRestarts then 1 else 0)
              && (down && !gaveUp ==> lastProgressNs == tick.startNs && !sawAttempt)
              && (!down && idle ==> sawAttempt == saw && completions == old(completions)
                                    && lastProgressNs == if tick.nowNs - old(lastProgressNs) >= cfg.stallNs then tick.nowNs else old(lastProgressNs))
      ensures !old(gaveUp) && old(hasRunner) && tick.threadAlive && tick.log.Some? && (exists ts :: ts in tick.log.value && ts >= old(lastProgressNs)) ==>
              && completions == old(completions) + |set i | 0 <= i < |tick.log.value| && tick.log.value[i] >= old(lastProgressNs)|
              && lastProgressNs == tick.nowNs && sawAttempt == old(sawAttempt)
    {
      if tick.log.Some? {
        CountZero(tick.log.value, lastProgressNs);
        CountIsSize(tick.log.value, lastProgressNs);
      }
      if gaveUp || !hasRunner {
        return;
      }
      var dead := !tick.threadAlive;
      var stalled := false;
      if !dead {
        stalled := CheckProgress(cfg, tick);
      }
      if !dead && !stalled {
        return;
      }
      restarts := restarts + 1;
      if restarts > cfg.maxRestarts {
        gaveUp := true;
        return;
      }
      gaveUp := false;
      var ok := StartSlot(tick.startOk, tick.startNs);
      if !ok {
        return;
      }
      sawAttempt := false;
    }
  }

  // ------------------------------------------------------------------
  // Runs
  // ------------------------------------------------------------------

  function SlotAfter(cfg: SlotConfig, init: SlotState, ticks: seq<SlotTick>, k: nat): SlotState
    requires k <= |ticks|
  {
    if k == 0 then init else SlotStep(cfg, SlotAfter(cfg, init, ticks, k - 1), ticks[k - 1])
  }

  lemma {:induction false} SlotGaveUpAbsorbing(cfg: SlotConfig, init: SlotState, ticks: seq<SlotTick>, i: nat, j: nat)
    requires i <= j <= |ticks| && SlotAfter(cfg, init, ticks, i).gaveUp
    ensures SlotAfter(cfg, init, ticks, j) == SlotAfter(cfg, init, ticks, i)
  {
    if i < j {
      SlotGaveUpAbsorbing(cfg, init, ticks, i, j - 1);
    }
  }

  /** Every start but the first was paid for by a restart within the budget. */
  lemma {:induction false} StartsArePaid(cfg: SlotConfig, ok: bool, startNs: int, ticks: seq<SlotTick>, k: nat)
    requires k <= |ticks|
    ensures var st := SlotAfter(cfg, SlotStarted(ok, startNs), ticks, k);
            && 0 <= st.restarts <= Max(0, cfg.maxRestarts) + 1
            && st.starts == 1 + (if st.restarts > Max(0, cfg.maxRestarts) then Max(0, cfg.maxRestarts) else st.restarts)
            && (!st.gaveUp ==> st.restarts <= Max(0, cfg.maxRestarts))
  {
    if k > 0 {
      StartsArePaid(cfg, ok, startNs, ticks, k - 1);
    }
  }

  /** An agent is started at most `maxRestarts` + 1 times, for ever. */
  lemma StartsBounded(cfg: SlotConfig, ok: bool, startNs: int, ticks: seq<SlotTick>, k: nat)
    requires k <= |ticks|
    ensures SlotAfter(cfg, SlotStarted(ok, startNs), ticks, k).starts <= Max(0, cfg.maxRestarts) + 1
  {
    StartsArePaid(cfg, ok, startNs, ticks, k);
  }

  /** Tick `k` finds the watched agent dead or stalled. */
  predicate DownAt(cfg: SlotConfig, init: SlotState, ticks: seq<SlotTick>, k: nat)
    requires k < |ticks|
  {
    Watched(SlotAfter(cfg, init, ticks, k)) && SlotDown(cfg, SlotAfter(cfg, init, ticks, k), ticks[k])
  }

  /** How often the agent was found down before tick `k`. */
  function Downs(cfg: SlotConfig, init: SlotState, ticks: seq<SlotTick>, k: nat): nat
    requires k <= |ticks|
  {
    if k == 0 then 0
    else Downs(cfg, init, ticks, k - 1) + if DownAt(cfg, init, ticks, k - 1) then 1 else 0
  }

  /** At every point of every run: a slot is given up exactly when its first start failed, or its agent
      was found down more than `maxRestarts` times, or could not be started again once. */
  lemma {:induction false} SlotGivenUpExactly(cfg: SlotConfig, ok: bool, startNs: int, ticks: seq<SlotTick>, k: nat)
    requires k <= |ticks|
    ensures var init := SlotStarted(ok, startNs);
            SlotAfter(cfg, init, ticks, k).gaveUp <==>
            || !ok
            || Downs(cfg, init, ticks, k) > Max(0, cfg.maxRestarts)
            || (exists q :: 0 <= q < k && DownAt(cfg, init, ticks, q) && !ticks[q].startOk)
    ensures ok ==> SlotAfter(cfg, SlotStarted(ok, startNs), ticks, k).restarts == Downs(cfg, SlotStarted(ok, startNs), ticks, k)
    ensures SlotAfter(cfg, SlotStarted(ok, startNs), ticks, k).hasRunner == ok
  {
    var init := SlotStarted(ok, startNs);
    if k > 0 {
      SlotGivenUpExactly(cfg, ok, startNs, ticks, k - 1);
      if DownAt(cfg, init, ticks, k - 1) {
        assert Downs(cfg, init, ticks, k) == Downs(cfg, init, ticks, k - 1) + 1;
      } else {
        assert forall q :: 0 <= q < k && DownAt(cfg, init, ticks, q) ==> q < k - 1;
      }
    }
  }

  /** A stalled slot logged nothing for the stall timeout and was seen to hold a claim. */
  lemma SlotStallMeansNoCompletion(cfg: SlotConfig, st: SlotState, tick: SlotTick)
    requires Watched(st) && tick.threadAlive && SlotDown(cfg, st, tick)
    ensures tick.log.Some?
    ensures forall ts :: ts in tick.log.value ==> ts < st.lastProgressNs <= tick.nowNs - cfg.stallNs
    ensures st.sawAttempt || tick.holds == Some(true)
  {
    CountZero(tick.log.value, st.lastProgressNs);
  }
}
