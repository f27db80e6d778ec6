/** When a pane probes its foreground process: the decision functions of `src/pane.rs` and the part of the
    detection loop that ties them together. Times are milliseconds on one clock. */
module AgentProbing {
  import opened Bytes

  const AGENT_MISS_CONFIRMATION_ATTEMPTS: nat := 6
  const PROCESS_RECHECK_IDENTIFIED: nat := 5000
  const PROCESS_RECHECK_MISSING_FOREGROUND_GROUP: nat := 30000
  const PROCESS_ACQUISITION_WINDOW: nat := 8000
  const PROCESS_ACQUISITION_FAST_WINDOW: nat := 1500
  const PROCESS_ACQUISITION_FAST_RECHECK: nat := 500
  const PROCESS_ACQUISITION_SLOW_RECHECK: nat := 2000
  const PROCESS_ACQUISITION_IDLE_RESET: nat := 2000

  datatype ProbeInput = ProbeInput(
    currentAgent: Option<nat>,
    suppressedAgent: Option<nat>,
    foregroundPgid: Option<nat>,
    lastForegroundPgid: Option<nat>,
    hasProcessProbe: bool,
    acquisitionAge: Option<nat>,
    pendingForegroundShellClear: bool,
    pendingRestoreProbe: bool,
    elapsedSinceProcessCheck: nat)

  /** `foreground_group_changed` */
  predicate ForegroundGroupChanged(foreground: Option<nat>, last: Option<nat>) {
    foreground != last && (foreground.Some? || last.Some?)
  }

  /** The acquisition clause: inside the window, and the interval of its phase has passed. */
  predicate AcquisitionDue(age: Option<nat>, elapsed: nat) {
    && age.Some? && age.value <= PROCESS_ACQUISITION_WINDOW
    && elapsed >= if age.value <= PROCESS_ACQUISITION_FAST_WINDOW then PROCESS_ACQUISITION_FAST_RECHECK
                  else PROCESS_ACQUISITION_SLOW_RECHECK
  }

  /** `should_probe_foreground_job` */
  predicate ShouldProbe(input: ProbeInput) {
    var changed := ForegroundGroupChanged(input.foregroundPgid, input.lastForegroundPgid);
    if input.pendingForegroundShellClear || input.pendingRestoreProbe then true
    else if input.suppressedAgent.Some? then !input.hasProcessProbe || changed
    else if AcquisitionDue(input.acquisitionAge, input.elapsedSinceProcessCheck) then true
    else if input.currentAgent.None? then
      || !input.hasProcessProbe || changed
      || (input.foregroundPgid.None? && input.elapsedSinceProcessCheck >= PROCESS_RECHECK_MISSING_FOREGROUND_GROUP)
    else changed || input.elapsedSinceProcessCheck >= PROCESS_RECHECK_IDENTIFIED
  }

  /** The acquisition window: when it opened and when the content last changed. */
  datatype Window = Window(startedAt: Option<nat>, lastContentChangeAt: Option<nat>)

  /** `Instant::duration_since`, 0 for an earlier clock reading. */
  function Since(now: nat, earlier: nat): nat { if now >= earlier then now - earlier else 0 }

  predicate Expired(w: Window, now: nat)
    requires w.startedAt.Some?
  {
    Since(now, w.startedAt.value) > PROCESS_ACQUISITION_WINDOW
  }

  predicate Idle(w: Window, now: nat) {
    w.lastContentChangeAt.None? || Since(now, w.lastContentChangeAt.value) >= PROCESS_ACQUISITION_IDLE_RESET
  }

  /** `sync_content_change_acquisition` */
  function Synced(w: Window, agent: Option<nat>, suppressed: Option<nat>, groupChanged: bool, contentChanged: bool,
                  now: nat): Window {
    if agent.Some? || suppressed.Some? || groupChanged then w
    else if contentChanged then
      Window(if w.startedAt.None? || (Expired(w, now) && Idle(w, now)) then Some(now) else w.startedAt, Some(now))
    else if w.startedAt.Some? && w.lastContentChangeAt.Some? && Expired(w, now) && Idle(w, now) then Window(None, None)
    else w
  }

  class Acquisition {
    var startedAt: Option<nat>
    var lastContentChangeAt: Option<nat>

    function Contents(): Window
      reads this
    {
      Window(startedAt, lastContentChangeAt)
    }

    constructor ()
      ensures Contents() == Window(None, None)
    {
      startedAt, lastContentChangeAt := None, None;
    }

    method Sync(agent: Option<nat>, suppressed: Option<nat>, groupChanged: bool, contentChanged: bool, now: nat)
      modifies this
      ensures Contents() == Synced(old(Contents()), agent, suppressed, groupChanged, contentChanged, now)
    {
      if agent.Some? || suppressed.Some? || groupChanged {
        return;
      }
      if contentChanged {
        var shouldStart := startedAt.None?
          || (Since(now, startedAt.value) > PROCESS_ACQUISITION_WINDOW
              && (lastContentChangeAt.None? ||
                  Since(now, lastContentChangeAt.value) >= PROCESS_ACQUISITION_IDLE_RESET));
        if shouldStart {
          startedAt := Some(now);
        }
        lastContentChangeAt := Some(now);
        return;
      }
      if startedAt.None? || lastContentChangeAt.None? {
        return;
      }
      if Since(now, startedAt.value) > PROCESS_ACQUISITION_WINDOW
         && Since(now, lastContentChangeAt.value) >= PROCESS_ACQUISITION_IDLE_RESET {
        startedAt := None;
        lastContentChangeAt := None;
      }
    }
  }

  // --- The loop while no agent is known, none is suppressed and the process group stays ---

  /** A turn of the loop. `checks` says that the pane has a process that may be probed; `screen` is absent when
      the turn ends before the screen is read, and else says whether its content changed. */
  datatype Tick = Tick(now: nat, checks: bool, screen: Option<bool>) {
    predicate Changed() { screen == Some(true) }
  }

  datatype State = State(window: Window, lastCheck: nat, hasProbe: bool)

  function Age(s: State, now: nat): Option<nat> {
    if s.window.startedAt.Some? then Some(Since(now, s.window.startedAt.value)) else None
  }

  function InputAt(s: State, tick: Tick, pgid: Option<nat>): ProbeInput {
    ProbeInput(None, None, pgid, pgid, s.hasProbe, Age(s, tick.now), false, false, Since(tick.now, s.lastCheck))
  }

  /** The probe of this tick is owed to the acquisition window. */
  predicate AcquisitionProbe(s: State, tick: Tick) {
    tick.checks && AcquisitionDue(Age(s, tick.now), Since(tick.now, s.lastCheck))
  }

  function WindowAfter(w: Window, tick: Tick): Window {
    if tick.screen.None? then w else Synced(w, None, None, false, tick.screen.value, tick.now)
  }

  function Ticked(s: State, tick: Tick, pgid: Option<nat>): State {
    var probed :=
      if tick.checks && ShouldProbe(InputAt(s, tick, pgid)) then s.(lastCheck := tick.now, hasProbe := true) else s;
    probed.(window := WindowAfter(s.window, tick))
  }

  function AcquisitionProbes(s: State, ticks: seq<Tick>, pgid: Option<nat>): nat
    decreases |ticks|
  {
    if ticks == [] then 0
    else
      (if AcquisitionProbe(s, ticks[0]) then 1 else 0) +
      AcquisitionProbes(Ticked(s, ticks[0], pgid), ticks[1..], pgid)
  }

  /** Ticks in order from `now` on, every content change less than two seconds after the one before it. */
  predicate Burst(ticks: seq<Tick>, now: nat, lastChange: nat)
    decreases |ticks|
  {
    ticks == [] ||
    (&& now <= ticks[0].now
     && (ticks[0].Changed() ==> Since(ticks[0].now, lastChange) < PROCESS_ACQUISITION_IDLE_RESET)
     && Burst(ticks[1..], ticks[0].now, if ticks[0].Changed() then ticks[0].now else lastChange))
  }

  /** Most acquisition probes there can have been when the latest one came at this age. */
  function Quota(age: nat): nat {
    if age <= PROCESS_ACQUISITION_FAST_WINDOW then 1 + age / PROCESS_ACQUISITION_FAST_RECHECK
    else 4 + (age - PROCESS_ACQUISITION_FAST_WINDOW) / PROCESS_ACQUISITION_SLOW_RECHECK
  }

  lemma QuotaGrows(earlier: nat, age: nat)
    requires age <= PROCESS_ACQUISITION_WINDOW
    requires age >= earlier + if age <= PROCESS_ACQUISITION_FAST_WINDOW then PROCESS_ACQUISITION_FAST_RECHECK
                              else PROCESS_ACQUISITION_SLOW_RECHECK
    ensures Quota(earlier) + 1 <= Quota(age) <= 7
  {
  }

  /** In a burst, a running window is not restarted: it stays as it opened until it closes for good. A turn
      that does not read the screen leaves it alone. */
  lemma WindowStays(w: Window, tick: Tick, opening: nat, lastChange: nat)
    requires w == Window(Some(opening), Some(lastChange))
    requires tick.Changed() ==> Since(tick.now, lastChange) < PROCESS_ACQUISITION_IDLE_RESET
    ensures var v := WindowAfter(w, tick);
            v == Window(Some(opening), Some(if tick.Changed() then tick.now else lastChange))
            || (v == Window(None, None) && !tick.Changed() &&
                Since(tick.now, lastChange) >= PROCESS_ACQUISITION_IDLE_RESET)
  {
  }

  lemma {:induction false} ClosedWindowStaysClosed(s: State, ticks: seq<Tick>, pgid: Option<nat>, now: nat,
                                                   lastChange: nat)
    requires s.window == Window(None, None) && Burst(ticks, now, lastChange)
    requires Since(now, lastChange) >= PROCESS_ACQUISITION_IDLE_RESET
    ensures AcquisitionProbes(s, ticks, pgid) == 0
    decreases |ticks|
  {
    if ticks != [] {
      ClosedWindowStaysClosed(Ticked(s, ticks[0], pgid), ticks[1..], pgid, ticks[0].now, lastChange);
    }
  }

  /** With `count` probes so far, the latest at age `latest` of the open window, the rest stay within quota. */
  lemma {:induction false} WindowQuota(s: State, ticks: seq<Tick>, pgid: Option<nat>, opening: nat, now: nat,
                                       lastChange: nat, count: nat, latest: nat)
    requires s.window == Window(Some(opening), Some(lastChange)) && Burst(ticks, now, lastChange)
    requires opening <= now && lastChange <= now && s.lastCheck <= now
    requires count == 0 || (count <= Quota(latest) <= 7 && opening + latest <= s.lastCheck)
    ensures count + AcquisitionProbes(s, ticks, pgid) <= 7
    decreases |ticks|
  {
    if ticks != [] {
      var tick := ticks[0];
      var t := Ticked(s, tick, pgid);
      WindowStays(s.window, tick, opening, lastChange);
      var age := tick.now - opening;
      var hit := AcquisitionProbe(s, tick);
      if hit && count > 0 { QuotaGrows(latest, age); }
      if t.window.startedAt.None? {
        ClosedWindowStaysClosed(t, ticks[1..], pgid, tick.now, lastChange);
      } else {
        WindowQuota(t, ticks[1..], pgid, opening, tick.now, if tick.Changed() then tick.now else lastChange,
                    if hit then count + 1 else count, if hit then age else latest);
      }
    }
  }

  /** Bounded probing: whatever came before, one burst of content changes of any length causes at most seven
      probes of the acquisition window. */
  lemma BurstIsBounded(s: State, ticks: seq<Tick>, pgid: Option<nat>)
    requires ticks != [] && ticks[0].Changed() && Burst(ticks[1..], ticks[0].now, ticks[0].now)
    requires s.lastCheck <= ticks[0].now && (s.window.startedAt.Some? ==> s.window.startedAt.value <= ticks[0].now)
    ensures AcquisitionProbes(s, ticks, pgid) <= 7
  {
    var tick := ticks[0];
    var t := Ticked(s, tick, pgid);
    var hit := AcquisitionProbe(s, tick);
    var opening := t.window.startedAt.value;
    var age := tick.now - opening;
    WindowQuota(t, ticks[1..], pgid, opening, tick.now, tick.now, if hit then 1 else 0, if hit then age else 0);
  }

  /** Seven is reached: four probes half a second apart, then three two seconds apart. */
  lemma SevenIsReached(pgid: Option<nat>)
    ensures exists ticks: seq<Tick> ::
              && ticks != [] && ticks[0].Changed() && Burst(ticks[1..], ticks[0].now, ticks[0].now)
              && AcquisitionProbes(State(Window(None, None), 0, true), ticks, pgid) == 7
  {
    hide AcquisitionProbes, Burst;
    var n := NoMoreProbes(State(Window(Some(1000), Some(1000)), 8500, true), pgid);
    var g := OneMoreProbe(6500, 8500, [], pgid);
    var f := OneMoreProbe(4500, 6500, g, pgid);
    var e := OneMoreProbe(2500, 4500, f, pgid);
    var d := OneMoreProbe(2000, 2500, e, pgid);
    var c := OneMoreProbe(1500, 2000, d, pgid);
    var b := OneMoreProbe(1000, 1500, c, pgid);
    var a := OneMoreProbe(0, 1000, b, pgid);
    QuietIsBurst(a, 1000, 1000);
    OpeningTick(a, pgid);
  }

  lemma NoMoreProbes(s: State, pgid: Option<nat>) returns (n: nat)
    ensures n == 0 == AcquisitionProbes(s, [], pgid)
  {
    n := 0;
  }

  lemma OpeningTick(rest: seq<Tick>, pgid: Option<nat>)
    ensures var ticks := [Tick(1000, true, Some(true))] + rest;
            && ticks[1..] == rest
            && AcquisitionProbes(State(Window(None, None), 0, true), ticks, pgid)
               == AcquisitionProbes(State(Window(Some(1000), Some(1000)), 0, true), rest, pgid)
  {
    assert ([Tick(1000, true, Some(true))] + rest)[1..] == rest;
  }

  /** A quiet tick at `now`, in the window opened at 1000, that finds the last check at `check`. */
  lemma OneMoreProbe(check: nat, now: nat, rest: seq<Tick>, pgid: Option<nat>) returns (ticks: seq<Tick>)
    requires 1000 <= now <= 9000 && now - check >= if now <= 2500 then 500 else 2000
    ensures ticks == [Tick(now, true, Some(false))] + rest
    ensures AcquisitionProbes(State(Window(Some(1000), Some(1000)), check, true), ticks, pgid)
            == 1 + AcquisitionProbes(State(Window(Some(1000), Some(1000)), now, true), rest, pgid)
  {
    ticks := [Tick(now, true, Some(false))] + rest;
    assert ticks[1..] == rest;
  }

  lemma {:induction false} QuietIsBurst(ticks: seq<Tick>, now: nat, lastChange: nat)
    requires forall i :: 0 <= i < |ticks| ==> !ticks[i].Changed() && now <= ticks[i].now
    requires forall i, j :: 0 <= i < j < |ticks| ==> ticks[i].now <= ticks[j].now
    ensures Burst(ticks, now, lastChange)
    decreases |ticks|
  {
    if ticks != [] { QuietIsBurst(ticks[1..], ticks[0].now, lastChange); }
  }

  // --- Probes outside the acquisition window ---

  /** A finished release or restore, and any change of the foreground process group, asks for a probe at once. */
  lemma ChangesAreProbed(input: ProbeInput)
    requires input.pendingForegroundShellClear || input.pendingRestoreProbe ||
             input.foregroundPgid != input.lastForegroundPgid
    ensures ShouldProbe(input)
  {
  }

  /** The acquisition window asks for one every half second for a second and a half, then every two seconds up to
      its end at eight. */
  lemma AcquisitionPace(age: nat, elapsed: nat)
    ensures AcquisitionDue(Some(age), elapsed) <==>
            (age <= 1500 && elapsed >= 500) || (1500 < age <= 8000 && elapsed >= 2000)
    ensures !AcquisitionDue(None, elapsed)
  {
  }

  /** A pane with nothing going on: no window, no change of the process group, nothing pending. */
  datatype Calm = Calm(agent: Option<nat>, suppressed: Option<nat>, pgid: Option<nat>)

  function CalmInput(calm: Calm, probed: bool, elapsed: nat): ProbeInput {
    ProbeInput(calm.agent, calm.suppressed, calm.pgid, calm.pgid, probed, None, false, false, elapsed)
  }

  /** How often such a pane is probed, in milliseconds: with a known agent every five seconds, without one only while
      it has no process group, every thirty, and while an agent is suppressed never. */
  function Pace(calm: Calm): Option<nat> {
    if calm.suppressed.Some? then None
    else if calm.agent.Some? then Some(5000)
    else if calm.pgid.None? then Some(30000)
    else None
  }

  /** The first probe comes at once unless an agent is known. */
  lemma FirstProbe(calm: Calm, elapsed: nat)
    ensures calm.suppressed.Some? || calm.agent.None? ==> ShouldProbe(CalmInput(calm, false, elapsed))
    ensures calm.suppressed.None? && calm.agent.Some? ==>
            (ShouldProbe(CalmInput(calm, false, elapsed)) <==> elapsed >= 5000)
  {
  }

  /** The times at which it is probed, of those at which it is looked at, after a probe at `last`. */
  function ProbeTimes(calm: Calm, last: nat, times: seq<nat>): seq<nat>
    decreases |times|
  {
    if times == [] then []
    else if ShouldProbe(CalmInput(calm, true, Since(times[0], last))) then
      [times[0]] + ProbeTimes(calm, times[0], times[1..])
    else ProbeTimes(calm, last, times[1..])
  }

  predicate Sorted(times: seq<nat>, from: nat) {
    (forall i :: 0 <= i < |times| ==> from <= times[i]) && forall i, j :: 0 <= i < j < |times| ==> times[i] <= times[j]
  }

  /** Each at least `pace` after the one before it. */
  predicate Spaced(probes: seq<nat>, last: nat, pace: nat)
    decreases |probes|
  {
    probes == [] || (probes[0] >= last + pace && Spaced(probes[1..], probes[0], pace))
  }

  function LastOf(probes: seq<nat>, last: nat): nat {
    if probes == [] then last else probes[|probes| - 1]
  }

  /** Over any sequence of looks, probes come at that pace and no faster, and no look leaves one overdue; without a
      pace there is none. */
  lemma {:induction false} ProbesKeepPace(calm: Calm, last: nat, times: seq<nat>)
    requires Sorted(times, last)
    ensures var probes := ProbeTimes(calm, last, times);
            match Pace(calm)
            case None => probes == []
            case Some(pace) => Spaced(probes, last, pace) && LastOf(times, last) < LastOf(probes, last) + pace
    decreases |times|
  {
    if times != [] {
      var t, rest := times[0], times[1..];
      if ShouldProbe(CalmInput(calm, true, Since(t, last))) {
        ProbesKeepPace(calm, t, rest);
        var later := ProbeTimes(calm, t, rest);
        assert ([t] + later)[1..] == later;
        assert LastOf([t] + later, last) == LastOf(later, t);
      } else {
        ProbesKeepPace(calm, last, rest);
        LooksEnd(calm, last, times);
      }
      assert LastOf(times, last) == LastOf(rest, t);
    }
  }

  lemma LooksEnd(calm: Calm, last: nat, times: seq<nat>)
    requires Sorted(times, last) && times != [] && !ShouldProbe(CalmInput(calm, true, Since(times[0], last)))
    ensures Pace(calm).Some? ==> times[0] < last + Pace(calm).value
    ensures |times| == 1 ==> times[1..] == [] && ProbeTimes(calm, last, []) == []
  {
  }

  // --- The window opens and closes ---

  /** A content change opens the window where there is none, and opens it anew exactly when it is more than eight
      seconds old and nothing changed for two seconds; a quiet look closes it then. With an agent known or
      suppressed, or another process group, it is left alone. */
  lemma WindowReopensIff(since: nat, changed: nat, now: nat)
    requires since <= now && changed <= now
    ensures var over := now - since > 8000 && now - changed >= 2000;
            var w := Window(Some(since), Some(changed));
            && Synced(w, None, None, false, true, now) == Window(Some(if over then now else since), Some(now))
            && Synced(w, None, None, false, false, now) == (if over then Window(None, None) else w)
            && Synced(Window(None, None), None, None, false, true, now) == Window(Some(now), Some(now))
  {
  }

  lemma WindowLeftAlone(w: Window, agent: Option<nat>, suppressed: Option<nat>, groupChanged: bool,
                        contentChanged: bool, now: nat)
    requires agent.Some? || suppressed.Some? || groupChanged
    ensures Synced(w, agent, suppressed, groupChanged, contentChanged, now) == w
  {
  }

  // --- When an agent counts as gone ---

  datatype Presence = Presence(currentAgent: Option<nat>, consecutiveMisses: nat)

  /** `observe_process_probe` */
  function Observed(p: Presence, found: Option<nat>): Presence {
    if found.Some? then Presence(found, 0)
    else if p.currentAgent.None? || p.consecutiveMisses + 1 >= AGENT_MISS_CONFIRMATION_ATTEMPTS then Presence(None, 0)
    else p.(consecutiveMisses := p.consecutiveMisses + 1)
  }

  function ObservedAll(p: Presence, probes: seq<Option<nat>>): Presence {
    if probes == [] then p else Observed(ObservedAll(p, probes[..|probes| - 1]), probes[|probes| - 1])
  }

  class AgentDetectionPresence {
    var currentAgent: Option<nat>
    var consecutiveMisses: nat

    function Contents(): Presence
      reads this
    {
      Presence(currentAgent, consecutiveMisses)
    }

    constructor FromAgent(agent: Option<nat>)
      ensures Contents() == Presence(agent, 0)
    {
      currentAgent, consecutiveMisses := agent, 0;
    }

    method ClearCurrentAgent() returns (changed: bool)
      modifies this
      ensures Contents() == Presence(None, 0) && changed == (old(currentAgent) != None)
    {
      consecutiveMisses := 0;
      if currentAgent.None? {
        return false;
      }
      currentAgent := None;
      return true;
    }

    /** Reports whether the agent of the pane changed. */
    method ObserveProcessProbe(found: Option<nat>) returns (changed: bool)
      requires consecutiveMisses < AGENT_MISS_CONFIRMATION_ATTEMPTS
      modifies this
      ensures Contents() == Observed(old(Contents()), found)
      ensures changed == (currentAgent != old(currentAgent))
      ensures consecutiveMisses < AGENT_MISS_CONFIRMATION_ATTEMPTS
    {
      if found.Some? {
        consecutiveMisses := 0;
        if found == currentAgent {
          return false;
        }
        currentAgent := found;
        return true;
      }
      if currentAgent.None? {
        consecutiveMisses := 0;
        return false;
      }
      consecutiveMisses := consecutiveMisses + 1;
      if consecutiveMisses < AGENT_MISS_CONFIRMATION_ATTEMPTS {
        return false;
      }
      currentAgent := None;
      consecutiveMisses := 0;
      return true;
    }
  }

  /** The agent a history of probes last named, starting from `initial`, and the misses since. */
  function LastNamed(initial: Option<nat>, probes: seq<Option<nat>>): Option<nat> {
    if probes == [] then initial
    else if probes[|probes| - 1].Some? then probes[|probes| - 1]
    else LastNamed(initial, probes[..|probes| - 1])
  }

  function MissesSince(probes: seq<Option<nat>>): nat {
    if probes == [] || probes[|probes| - 1].Some? then 0 else 1 + MissesSince(probes[..|probes| - 1])
  }

  /** Over every history, the pane's agent is the one last named, until six probes in a row have missed it. */
  lemma {:induction false} PresenceIsLastNamed(initial: Option<nat>, probes: seq<Option<nat>>)
    ensures var p := ObservedAll(Presence(initial, 0), probes);
            && p.currentAgent == (if MissesSince(probes) < 6
                                  then LastNamed(initial, probes) else None)
            && p.consecutiveMisses == (if p.currentAgent.Some? then MissesSince(probes) else 0)
    decreases |probes|
  {
    if probes != [] { PresenceIsLastNamed(initial, probes[..|probes| - 1]); }
  }
}
