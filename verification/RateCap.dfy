/** The sliding-window rate cap of gyza/runner.py over the append-only envelope log of
    gyza/blackboard.py. A signing loop checks the cap, works, and then signs; loops of different
    agents, and of one agent if it has several, interleave freely. */
module RateCap {
  import opened Common

  /** A logged envelope: its author and timestamp. */
  datatype Entry = Entry(agent: string, ts: int)

  /** `count_agent_envelopes_since` */
  function CountSince(log: seq<Entry>, agent: string, origin: int): nat {
    if log == [] then 0
    else
      var e := log[|log| - 1];
      CountSince(log[..|log| - 1], agent, origin) + if e.agent == agent && e.ts >= origin then 1 else 0
  }

  /** How many of an agent's envelopes carry a timestamp in the closed interval [lo, hi]. */
  function CountWithin(log: seq<Entry>, agent: string, lo: int, hi: int): nat {
    if log == [] then 0
    else
      var e := log[|log| - 1];
      CountWithin(log[..|log| - 1], agent, lo, hi) + if e.agent == agent && lo <= e.ts <= hi then 1 else 0
  }

  lemma {:induction false} CountIsSize(log: seq<Entry>, agent: string, origin: int)
    ensures CountSince(log, agent, origin) == |set i | 0 <= i < |log| && log[i].agent == agent && log[i].ts >= origin|
  {
    var all := set i | 0 <= i < |log| && log[i].agent == agent && log[i].ts >= origin;
    assert log == [] ==> all == {};
    if log != [] {
      var n := |log| - 1;
      CountIsSize(log[..n], agent, origin);
      var before := set i | 0 <= i < n && log[..n][i].agent == agent && log[..n][i].ts >= origin;
      var last := log[n].agent == agent && log[n].ts >= origin;
      forall i ensures i in all <==> i in before || (i == n && last) {
        assert 0 <= i < n ==> log[..n][i] == log[i];
      }
      assert all == if last then before + {n} else before;
    }
  }

  /** The gate in `_execute`: refuse once the window holds `cap` envelopes. */
  method RateGate(log: seq<Entry>, agent: string, cap: Option<int>, windowNs: int, nowNs: int) returns (pass: bool, used: nat)
    ensures pass <==> Passes(log, agent, cap, windowNs, nowNs)
    ensures cap.Some? ==> used == CountSince(log, agent, Max(0, nowNs - windowNs))
    ensures cap.Some? ==>
              used == |set i | 0 <= i < |log| && log[i].agent == agent && log[i].ts >= 0 && log[i].ts >= nowNs - windowNs|
    ensures pass <==> cap.None? || used < cap.value
  {
    if cap.Some? {
      CountIsSize(log, agent, Max(0, nowNs - windowNs));
      assert (set i | 0 <= i < |log| && log[i].agent == agent && log[i].ts >= 0 && log[i].ts >= nowNs - windowNs) ==
             (set i | 0 <= i < |log| && log[i].agent == agent && log[i].ts >= Max(0, nowNs - windowNs));
    }
    if cap.None? {
      return true, 0;
    }
    var start := Max(0, nowNs - windowNs);
    used := 0;
    for i := 0 to |log|
      invariant used == CountSince(log[..i], agent, start)
    {
      assert log[..i + 1][..i] == log[..i];
      if log[i].agent == agent && log[i].ts >= start {
        used := used + 1;
      }
    }
    assert log[..|log|] == log;
    return used < cap.value, used;
  }

  predicate Passes(log: seq<Entry>, agent: string, cap: Option<int>, windowNs: int, nowNs: int) {
    cap.None? || CountSince(log, agent, Max(0, nowNs - windowNs)) < cap.value
  }

  // ------------------------------------------------------------------
  // Runs of any number of signing loops
  // ------------------------------------------------------------------

  datatype Config = Config(owner: nat -> string, cap: string -> Option<int>, windowNs: int)

  datatype Event = Check(loop: nat, t: int) | Sign(loop: nat, t: int)

  /** `cleared` holds the loops whose last check passed, with the time of that check. */
  datatype State = State(log: seq<Entry>, cleared: map<nat, int>)

  function Next(cfg: Config, st: State, ev: Event): State {
    match ev
    case Check(l, t) =>
      if Passes(st.log, cfg.owner(l), cfg.cap(cfg.owner(l)), cfg.windowNs, t)
      then st.(cleared := st.cleared[l := t])
      else st.(cleared := st.cleared - {l})
    case Sign(l, t) =>
      State(st.log + [Entry(cfg.owner(l), t)], st.cleared - {l})
  }

  function After(cfg: Config, evs: seq<Event>): State {
    if evs == [] then State([], map[])
    else Next(cfg, After(cfg, evs[..|evs| - 1]), evs[|evs| - 1])
  }

  /** A loop signs only what its last check let through; the clock starts at or after 0 and never
      goes back. */
  predicate IsRun(cfg: Config, evs: seq<Event>) {
    evs == [] ||
    var n := |evs| - 1;
    && IsRun(cfg, evs[..n])
    && evs[n].t >= 0 && (n > 0 ==> evs[n - 1].t <= evs[n].t)
    && (evs[n].Sign? ==> evs[n].loop in After(cfg, evs[..n]).cleared)
  }

  /** At most one loop signs for `agent`. */
  ghost predicate OneLoop(cfg: Config, agent: string) {
    forall k: nat, l: nat :: cfg.owner(k) == agent && cfg.owner(l) == agent ==> k == l
  }

  function Now(evs: seq<Event>): int {
    if evs == [] then 0 else evs[|evs| - 1].t
  }

  lemma {:induction false} LogInThePast(cfg: Config, evs: seq<Event>)
    requires IsRun(cfg, evs)
    ensures Now(evs) >= 0
    ensures forall i :: 0 <= i < |After(cfg, evs).log| ==> 0 <= After(cfg, evs).log[i].ts <= Now(evs)
  {
    if evs != [] {
      LogInThePast(cfg, evs[..|evs| - 1]);
    }
  }

  lemma {:induction false} WithinSince(log: seq<Entry>, agent: string, lo: int, hi: int, origin: int)
    requires forall i :: 0 <= i < |log| ==> log[i].ts >= lo ==> log[i].ts >= origin
    ensures CountWithin(log, agent, lo, hi) <= CountSince(log, agent, origin)
  {
    if log != [] {
      WithinSince(log[..|log| - 1], agent, lo, hi, origin);
    }
  }

  lemma Logged(log: seq<Entry>, e: Entry, agent: string, lo: int, hi: int)
    ensures CountSince(log + [e], agent, lo) == CountSince(log, agent, lo) + if e.agent == agent && e.ts >= lo then 1 else 0
    ensures CountWithin(log + [e], agent, lo, hi) ==
            CountWithin(log, agent, lo, hi) + if e.agent == agent && lo <= e.ts <= hi then 1 else 0
  {
    assert (log + [e])[..|log|] == log;
  }

  /** A cleared loop's window still holds fewer than `cap`: only its own loop signs for its agent. */
  lemma {:induction false} ClearanceHolds(cfg: Config, evs: seq<Event>, l: nat)
    requires IsRun(cfg, evs) && OneLoop(cfg, cfg.owner(l))
    requires l in After(cfg, evs).cleared && cfg.cap(cfg.owner(l)).Some?
    ensures var st := After(cfg, evs);
            && st.cleared[l] <= Now(evs)
            && CountSince(st.log, cfg.owner(l), Max(0, st.cleared[l] - cfg.windowNs)) < cfg.cap(cfg.owner(l)).value
  {
    var n := |evs| - 1;
    var ev := evs[n];
    if ev.loop != l {
      ClearanceHolds(cfg, evs[..n], l);
      var log := After(cfg, evs[..n]).log;
      if ev.Sign? {
        assert cfg.owner(ev.loop) != cfg.owner(l);
        Logged(log, Entry(cfg.owner(ev.loop), ev.t), cfg.owner(l),
               Max(0, After(cfg, evs).cleared[l] - cfg.windowNs), 0);
      }
    }
  }

  /** No closed interval of the window's length ever holds more of an agent's signed envelopes than
      its cap, at any point of any run. */
  lemma {:induction false} RateBounded(cfg: Config, evs: seq<Event>, agent: string, lo: int)
    requires IsRun(cfg, evs) && OneLoop(cfg, agent)
    requires cfg.cap(agent).Some?
    ensures CountWithin(After(cfg, evs).log, agent, lo, lo + cfg.windowNs) <= Max(0, cfg.cap(agent).value)
  {
    if evs != [] {
      var pre, ev := evs[..|evs| - 1], evs[|evs| - 1];
      RateBounded(cfg, pre, agent, lo);
      if ev.Sign? {
        Logged(After(cfg, pre).log, Entry(cfg.owner(ev.loop), ev.t), agent, lo, lo + cfg.windowNs);
        if cfg.owner(ev.loop) == agent && ev.t <= lo + cfg.windowNs {
          RoomToSign(cfg, pre, ev.loop, lo, ev.t);
        }
      }
    }
  }

  /** When a cleared loop signs at `t`, every interval reaching `t` still has room. */
  lemma RoomToSign(cfg: Config, pre: seq<Event>, l: nat, lo: int, t: int)
    requires IsRun(cfg, pre) && OneLoop(cfg, cfg.owner(l))
    requires l in After(cfg, pre).cleared && cfg.cap(cfg.owner(l)).Some?
    requires Now(pre) <= t <= lo + cfg.windowNs
    ensures CountWithin(After(cfg, pre).log, cfg.owner(l), lo, lo + cfg.windowNs) < cfg.cap(cfg.owner(l)).value
  {
    ClearanceHolds(cfg, pre, l);
    LogInThePast(cfg, pre);
    var st := After(cfg, pre);
    var origin := Max(0, st.cleared[l] - cfg.windowNs);
    assert origin <= Max(0, lo);
    WithinSince(st.log, cfg.owner(l), lo, lo + cfg.windowNs, origin);
  }

  // ------------------------------------------------------------------
  // Why one loop
  // ------------------------------------------------------------------

  /** `k` checked signatures of one loop, all at time 0. */
  function Burst(l: nat, k: nat): seq<Event> {
    if k == 0 then [] else Burst(l, k - 1) + [Check(l, 0), Sign(l, 0)]
  }

  lemma {:induction false} BurstRuns(cfg: Config, l: nat, k: nat)
    requires cfg.windowNs >= 0 && cfg.cap(cfg.owner(l)).Some? && k <= cfg.cap(cfg.owner(l)).value
    ensures IsRun(cfg, Burst(l, k))
    ensures Burst(l, k) != [] ==> Now(Burst(l, k)) == 0
    ensures CountSince(After(cfg, Burst(l, k)).log, cfg.owner(l), 0) == k
  {
    if k > 0 {
      BurstRuns(cfg, l, k - 1);
      Push(cfg, Burst(l, k - 1), Check(l, 0));
      Push(cfg, Burst(l, k - 1) + [Check(l, 0)], Sign(l, 0));
      assert Burst(l, k) == Burst(l, k - 1) + [Check(l, 0)] + [Sign(l, 0)];
    }
  }

  lemma Push(cfg: Config, evs: seq<Event>, ev: Event)
    requires IsRun(cfg, evs) && ev.t == 0 && (evs != [] ==> Now(evs) == 0)
    requires ev.Sign? ==> ev.loop in After(cfg, evs).cleared
    ensures IsRun(cfg, evs + [ev]) && Now(evs + [ev]) == 0
    ensures After(cfg, evs + [ev]) == Next(cfg, After(cfg, evs), ev)
    ensures ev.Sign? ==> CountSince(After(cfg, evs + [ev]).log, cfg.owner(ev.loop), 0) ==
                         CountSince(After(cfg, evs).log, cfg.owner(ev.loop), 0) + 1
    ensures ev.Check? ==> After(cfg, evs + [ev]).log == After(cfg, evs).log
  {
    assert (evs + [ev])[..|evs|] == evs;
    var log := After(cfg, evs).log;
    Logged(log, Entry(cfg.owner(ev.loop), ev.t), cfg.owner(ev.loop), 0, 0);
  }

  /** Two loops of one agent can both pass the check before either signs, so for every positive cap
      some run exceeds it. */
  lemma TwoLoopsExceed(cfg: Config, k: nat, l: nat) returns (evs: seq<Event>)
    requires k != l && cfg.owner(k) == cfg.owner(l) && cfg.windowNs >= 0
    requires cfg.cap(cfg.owner(k)).Some? && cfg.cap(cfg.owner(k)).value > 0
    ensures IsRun(cfg, evs)
    ensures CountSince(After(cfg, evs).log, cfg.owner(k), 0) > cfg.cap(cfg.owner(k)).value
    ensures CountWithin(After(cfg, evs).log, cfg.owner(k), 0, cfg.windowNs) > cfg.cap(cfg.owner(k)).value
  {
    var c := cfg.cap(cfg.owner(k)).value;
    BurstRuns(cfg, k, c - 1);
    var both := BothCheck(cfg, Burst(k, c - 1), k, l);
    Push(cfg, both, Sign(k, 0));
    Push(cfg, both + [Sign(k, 0)], Sign(l, 0));
    evs := both + [Sign(k, 0)] + [Sign(l, 0)];
    LogInThePast(cfg, evs);
    SinceWithin(After(cfg, evs).log, cfg.owner(k), cfg.windowNs);
  }

  lemma BothCheck(cfg: Config, pre: seq<Event>, k: nat, l: nat) returns (evs: seq<Event>)
    requires IsRun(cfg, pre) && (pre != [] ==> Now(pre) == 0) && cfg.windowNs >= 0
    requires k != l && cfg.owner(k) == cfg.owner(l) && cfg.cap(cfg.owner(k)).Some?
    requires CountSince(After(cfg, pre).log, cfg.owner(k), 0) < cfg.cap(cfg.owner(k)).value
    ensures IsRun(cfg, evs) && evs != [] && Now(evs) == 0
    ensures After(cfg, evs).log == After(cfg, pre).log
    ensures k in After(cfg, evs).cleared && l in After(cfg, evs).cleared
  {
    Push(cfg, pre, Check(k, 0));
    Push(cfg, pre + [Check(k, 0)], Check(l, 0));
    evs := pre + [Check(k, 0)] + [Check(l, 0)];
  }

  lemma {:induction false} SinceWithin(log: seq<Entry>, agent: string, hi: int)
    requires forall i :: 0 <= i < |log| ==> log[i].ts <= hi
    ensures CountWithin(log, agent, 0, hi) == CountSince(log, agent, 0)
  {
    if log != [] {
      SinceWithin(log[..|log| - 1], agent, hi);
    }
  }

  /** No run ever puts more of the agent's envelopes into an interval of the window's length than its
      cap, if it has one, allows. */
  ghost predicate CapBinds(cfg: Config, agent: string) {
    forall evs, lo :: IsRun(cfg, evs) ==> WithinCap(cfg, evs, agent, lo)
  }

  predicate WithinCap(cfg: Config, evs: seq<Event>, agent: string, lo: int) {
    cfg.cap(agent).Some? ==> CountWithin(After(cfg, evs).log, agent, lo, lo + cfg.windowNs) <= Max(0, cfg.cap(agent).value)
  }

  /** An agent without a positive cap to spend signs nothing. */
  lemma {:induction false} NothingSigned(cfg: Config, evs: seq<Event>, agent: string, lo: int, hi: int)
    requires IsRun(cfg, evs) && cfg.cap(agent).Some? && cfg.cap(agent).value <= 0
    ensures CountWithin(After(cfg, evs).log, agent, lo, hi) == 0
    ensures forall l :: l in After(cfg, evs).cleared ==> cfg.owner(l) != agent
  {
    if evs != [] {
      var pre, ev := evs[..|evs| - 1], evs[|evs| - 1];
      NothingSigned(cfg, pre, agent, lo, hi);
      if ev.Sign? {
        Logged(After(cfg, pre).log, Entry(cfg.owner(ev.loop), ev.t), agent, lo, hi);
      }
    }
  }

  lemma {:induction false} EmptyInterval(log: seq<Entry>, agent: string, lo: int, hi: int)
    requires hi < lo
    ensures CountWithin(log, agent, lo, hi) == 0
  {
    if log != [] {
      EmptyInterval(log[..|log| - 1], agent, lo, hi);
    }
  }

  /** For every agent of every configuration: its cap binds every run exactly when at most one loop
      signs for it, or it has no cap, or the cap allows nothing, or the window is negative. */
  lemma CapBindsIff(cfg: Config, agent: string)
    ensures CapBinds(cfg, agent) <==>
            OneLoop(cfg, agent) || cfg.cap(agent).None? || cfg.cap(agent).value <= 0 || cfg.windowNs < 0
  {
    if cfg.cap(agent).None? {
    } else if OneLoop(cfg, agent) || cfg.cap(agent).value <= 0 || cfg.windowNs < 0 {
      forall evs, lo | IsRun(cfg, evs) ensures WithinCap(cfg, evs, agent, lo) {
        if OneLoop(cfg, agent) {
          RateBounded(cfg, evs, agent, lo);
        } else if cfg.cap(agent).value <= 0 {
          NothingSigned(cfg, evs, agent, lo, lo + cfg.windowNs);
        } else {
          EmptyInterval(After(cfg, evs).log, agent, lo, lo + cfg.windowNs);
        }
      }
    } else {
      var k: nat, l: nat :| cfg.owner(k) == agent && cfg.owner(l) == agent && k != l;
      var evs := TwoLoopsExceed(cfg, k, l);
      assert !WithinCap(cfg, evs, agent, 0);
    }
  }
}
