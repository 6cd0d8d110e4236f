/** What holds of the charger in every run, whatever the order of steps. */
module ChargerTheorems {
  import opened ChargerModel
  import opened ChargerHistory

  // ---------- the timers ----------

  /** Bounds on every timer at clock reading `now`. */
  ghost predicate Inv(s: State, now: int) {
    && (s.pluginWait == INVALID || SHUTDOWN_TIME_MS < s.pluginWait <= now + SHUTDOWN_TIME_MS)
    && (s.keyWait == INVALID || REBOOT_TIME < s.keyWait <= now + REBOOT_TIME)
    && (s.backlightWait == INVALID || 0 <= s.backlightWait < now)
    && LitUntil(s, s.pluginWait, now) && LitUntil(s, s.keyWait, now)
    && (s.keys[KEY_POWER].down ==> 1 <= s.keys[KEY_POWER].timestamp <= now)
    && (s.started && s.screenOn ==> s.backlightWait != INVALID)
    && (s.epollInterval == INVALID || s.epollInterval == TIMER_FAST_SEC * SEC_TO_MSEC)
  }

  /** A timer that is ahead was set by a step that also restarted the backlight timer, which runs longer. */
  ghost predicate LitUntil(s: State, wait: int, now: int) {
    wait != INVALID ==> if s.backlightWait == INVALID then wait <= now else wait <= s.backlightWait + 2001
  }

  lemma KeyStep(s: State, step: Step, code: nat)
    requires code <= KEY_MAX
    ensures var k := s.keys[code];
      Apply(s, step).0.keys[code] ==
      if IsKey(step, code) && k.down != (step.value != 0)
      then Key(true, step.value != 0, if step.value != 0 then step.now else k.timestamp) else k
  {
  }

  lemma StepKeeps(s: State, step: Step, last: int)
    requires Inv(s, last) && last <= step.now
    ensures Inv(Apply(s, step).0, step.now)
  {
    KeyStep(s, step, KEY_POWER);
    if step.KeyPass? { KeyPassKeeps(s, step.now, last); }
    if step.Charging? { ChargingKeeps(s, step.now, last); }
    hide KeyPassStep;
    hide ChargingStep;
  }

  lemma ChargingKeeps(s: State, now: Millis, last: int)
    requires Inv(s, last) && last <= now
    ensures Inv(ChargingStep(s, now).0, now)
  {
  }

  lemma KeyPassKeeps(s: State, now: Millis, last: int)
    requires Inv(s, last) && last <= now
    ensures Inv(KeyPassStep(s, now).0, now)
  {
    PowerKeyKeeps(s, now, last);
    hide PowerKey;
  }

  lemma PowerKeyKeeps(s: State, now: Millis, last: int)
    requires Inv(s, last) && last <= now
    ensures Inv(PowerKey(s, now).0, now)
  {
    if s.keys[KEY_POWER].down && now < s.keys[KEY_POWER].timestamp + REBOOT_TIME {
      assert PowerKey(s, now).0.backlightWait == now - 1;
    }
  }

  function LastTime(run: Run): int { if run == [] then 0 else run[|run| - 1].now }

  lemma {:induction false} ReachableInv(run: Run)
    ensures Inv(Reach(run), LastTime(run))
  {
    if run == [] {
    } else {
      ReachableInv(run[..|run| - 1]);
      StepKeeps(Reach(run[..|run| - 1]), run[|run| - 1], LastTime(run[..|run| - 1]));
    }
  }

  /** No timer is armed, or the unplug timer expired one millisecond ago. */
  predicate LooksIdle(s: State, now: int) {
    || (s.pluginWait == INVALID && s.keyWait == INVALID && s.backlightWait == INVALID)
    || s.pluginWait == now - 1
  }

  /** The interval in every reachable state: "forever" exactly when the timers look idle, and otherwise
      zero.  It is never positive, because whenever a timer is ahead the backlight timer is armed, and
      that one holds a moment already past. */
  lemma WaitIntervalExact(run: Run, now: Millis)
    requires LastTime(run) <= now
    ensures WaitInterval(Reach(run), now) == if LooksIdle(Reach(run), now) then -1 else 0
  {
    ReachableInv(run);
    hide Reach;
  }

  /** So it fits 32 bits, and unless it is "forever" it never passes an armed timer that is ahead. */
  lemma WaitIntervalBounds(run: Run, now: Millis)
    requires LastTime(run) <= now
    ensures var s := Reach(run); var w := WaitInterval(s, now);
      && -1 <= w <= 2000
      && (w >= 0 && s.pluginWait > now ==> now + w <= s.pluginWait)
      && (w >= 0 && s.keyWait > now ==> now + w <= s.keyWait)
      && (w == -1 <==> LooksIdle(s, now))
  {
    WaitIntervalExact(run, now);
  }

  /** The failing case at a real input: two seconds and a millisecond after the charger was found
      unplugged, the armed unplug timer yields "forever". */
  lemma SleepsForeverArmed()
    ensures Reach([Charging(1)]).pluginWait == 2001 && WaitInterval(Reach([Charging(1)]), 2002) == -1
  {
    ReachSnoc([], Charging(1));
    assert [] + [Charging(1)] == [Charging(1)];
  }

  lemma ReachSnoc(run: Run, step: Step)
    requires forall i :: 0 <= i < |run| ==> run[i].now <= step.now
    ensures Reach(run + [step]) == Apply(Reach(run), step).0
  {
    assert (run + [step])[..|run|] == run;
  }

  /** Whether waiting from `now` with `timeout` goes past the moment `d`. */
  predicate Passes(now: int, timeout: int, d: int) { timeout < 0 || now + timeout > d }

  /** The loop waits past a timer `d` that is ahead: it waits for ever because the unplug timer expired
      a millisecond ago, or it polls and `d` comes before the next poll. */
  predicate PassesAhead(s: State, now: Millis, d: int) {
    if s.epollInterval == INVALID then s.pluginWait == now - 1 else d < now + s.epollInterval
  }

  /** What the loop waits with in every reachable state: two seconds while charging; otherwise for ever
      if the timers look idle, and not at all if they do not.  It waits past a timer that is ahead if
      and only if `PassesAhead` says so. */
  lemma LoopTimeoutExact(run: Run, now: Millis)
    requires LastTime(run) <= now
    ensures var s := Reach(run); var t := LoopTimeout(s, now);
      && t == (if s.epollInterval != INVALID then 2000 else if LooksIdle(s, now) then -1 else 0)
      && (s.keyWait > now ==> (Passes(now, t, s.keyWait) <==> PassesAhead(s, now, s.keyWait)))
      && (s.pluginWait > now ==> (Passes(now, t, s.pluginWait) <==> PassesAhead(s, now, s.pluginWait)))
  {
    ReachableInv(run);
    WaitIntervalExact(run, now);
    hide WaitInterval;
    hide Reach;
  }

  lemma PassOverHeldKey(s: State)
    requires s.keys[KEY_POWER] == Key(true, true, 2)
    requires s.pluginWait == INVALID && s.keyWait == INVALID && s.epollInterval == 2000
    ensures var t := Apply(s, KeyPass(500)).0; t.keyWait == 2002 && LoopTimeout(t, 500) == 2000
  {
  }

  /** The failing case at a real input: while charging with a lit screen, the loop waits past the
      reboot deadline of a key that is being held. */
  lemma LoopPassesKeyDeadline()
    ensures var run := [Cycle(1, 1), KeyEvent(2, KEY_POWER, 1), KeyPass(500)];
      Reach(run).keyWait == 2002 && LoopTimeout(Reach(run), 500) == 2000
  {
    var r0: Run := [];
    assert Reach(r0) == Init;
    hide Reach;
    var r1: Run := r0 + [Cycle(1, 1)];
    var r2: Run := r1 + [KeyEvent(2, KEY_POWER, 1)];
    ReachSnoc(r0, r1[0]);
    assert Reach(r1).keys[KEY_POWER] == Key(false, false, 0);
    assert Reach(r1).pluginWait == INVALID && Reach(r1).keyWait == INVALID && Reach(r1).epollInterval == 2000;
    ReachSnoc(r1, r2[1]);
    assert Reach(r2).keys[KEY_POWER] == Key(true, true, 2);
    assert Reach(r2).pluginWait == INVALID && Reach(r2).keyWait == INVALID && Reach(r2).epollInterval == 2000;
    PassOverHeldKey(Reach(r2));
    ReachSnoc(r2, KeyPass(500));
    assert r2 + [KeyPass(500)] == [Cycle(1, 1), KeyEvent(2, KEY_POWER, 1), KeyPass(500)];
  }

  /** Once the first cycle has run, a lit screen always has its backlight timer armed. */
  lemma LitScreenIsTimed(run: Run, k: nat)
    requires k < |run| && run[k].Cycle?
    ensures Reach(run).started && (Reach(run).screenOn ==> Reach(run).backlightWait != INVALID)
  {
    ReachableInv(run);
    StartedForever(run, k);
  }

  lemma {:induction false} StartedForever(run: Run, k: nat)
    requires k < |run| && run[k].Cycle?
    ensures Reach(run).started
  {
    var n := |run| - 1;
    if k < n {
      assert run[..n][k] == run[k];
      StartedForever(run[..n], k);
    }
  }

  /** After a key pass over a key held for less than the reboot time, its deadline is on the timer
      exactly when no earlier deadline was; otherwise the earlier one stays there if it is still ahead
      or due, and no deadline is left if it had expired. */
  lemma RebootScheduledIff(s: State, now: Millis, last: int)
    requires Inv(s, last) && last <= now
    requires s.keys[KEY_POWER].down && now < s.keys[KEY_POWER].timestamp + REBOOT_TIME
    ensures var t := KeyPassStep(s, now).0; var d := s.keys[KEY_POWER].timestamp + REBOOT_TIME;
      && (t.keyWait == d <==> s.keyWait == INVALID || d <= s.keyWait)
      && (t.keyWait == s.keyWait != d <==> s.keyWait != INVALID && now <= s.keyWait < d)
      && (t.keyWait == INVALID <==> s.keyWait != INVALID && s.keyWait < now)
  {
  }

  /** Press, pass, release, press: the first press's deadline is still on the timer. */
  const PressedTwice: Run :=
    [KeyEvent(1, KEY_POWER, 1), KeyPass(2), KeyEvent(3, KEY_POWER, 0), KeyEvent(1500, KEY_POWER, 1)]

  lemma AfterPressedTwice()
    ensures Reach(PressedTwice).keyWait == 2001 && Reach(PressedTwice).keys[KEY_POWER] == Key(true, true, 1500)
  {
    var r0: Run := [];
    assert Reach(r0) == Init;
    hide Reach;
    hide Apply;
    var r1: Run := r0 + [KeyEvent(1, KEY_POWER, 1)];
    var r2: Run := r1 + [KeyPass(2)];
    var r3: Run := r2 + [KeyEvent(3, KEY_POWER, 0)];
    KeyFields(r0, r1[0]);
    assert Reach(r1).keyWait == INVALID && Reach(r1).keys[KEY_POWER] == Key(true, true, 1);
    KeyFields(r1, r2[1]);
    assert Reach(r2).keyWait == 2001 && Reach(r2).keys[KEY_POWER] == Key(true, true, 1);
    KeyFields(r2, r3[2]);
    assert Reach(r3).keyWait == 2001 && Reach(r3).keys[KEY_POWER] == Key(true, false, 1);
    KeyFields(r3, KeyEvent(1500, KEY_POWER, 1));
    assert r3 + [KeyEvent(1500, KEY_POWER, 1)] == PressedTwice;
  }

  /** What one more step does to the key timer and the power key's entry. */
  lemma KeyFields(run: Run, step: Step)
    requires forall i :: 0 <= i < |run| ==> run[i].now <= step.now
    ensures var s, t := Reach(run), Reach(run + [step]);
      && (IsKey(step, KEY_POWER) ==> t.keyWait == s.keyWait)
      && (step.KeyPass? && s.keyWait == INVALID && s.keys[KEY_POWER].down && step.now < s.keys[KEY_POWER].timestamp + REBOOT_TIME
          ==> t.keyWait == s.keys[KEY_POWER].timestamp + REBOOT_TIME)
      && t.keys[KEY_POWER] == if IsKey(step, KEY_POWER) && s.keys[KEY_POWER].down != (step.value != 0)
           then Key(true, step.value != 0, if step.value != 0 then step.now else s.keys[KEY_POWER].timestamp)
           else s.keys[KEY_POWER]
  {
    ReachSnoc(run, step);
    hide Reach;
    KeyStep(Reach(run), step, KEY_POWER);
    KeyWaitStep(Reach(run), step);
    hide Apply;
  }

  lemma KeyWaitStep(s: State, step: Step)
    ensures var t := Apply(s, step).0;
      && (IsKey(step, KEY_POWER) ==> t.keyWait == s.keyWait)
      && (step.KeyPass? && s.keyWait == INVALID && s.keys[KEY_POWER].down && step.now < s.keys[KEY_POWER].timestamp + REBOOT_TIME
          ==> t.keyWait == s.keys[KEY_POWER].timestamp + REBOOT_TIME)
  {
  }

  /** Both failing cases at a real input: a pass before the older deadline leaves that one on the timer
      instead of the held key's 3500, and a pass after it leaves none at all. */
  lemma ForgottenDeadline()
    ensures Reach(PressedTwice + [KeyPass(1600)]).keyWait == 2001
    ensures Reach(PressedTwice + [KeyPass(2100)]).keyWait == INVALID
    ensures Reach(PressedTwice + [KeyPass(2100)]).keys[KEY_POWER] == Key(true, true, 1500)
  {
    AfterPressedTwice();
    ReachSnoc(PressedTwice, KeyPass(1600));
    ReachSnoc(PressedTwice, KeyPass(2100));
    hide Reach;
  }

  /** A pass over a key that is not waiting for its deadline leaves the timer alone unless it expired. */
  lemma KeyTimerPass(s: State, now: Millis)
    requires !(s.keys[KEY_POWER].down && now < s.keys[KEY_POWER].timestamp + REBOOT_TIME)
    ensures var t := KeyPassStep(s, now).0;
      && (s.keyWait != INVALID && s.keyWait < now ==> t.keyWait == INVALID)
      && (s.keyWait == INVALID || now <= s.keyWait ==> t.keyWait == s.keyWait)
  {
  }

  /** The key timer is the deadline of the press at `j`. */
  predicate DeadlineOf(run: Run, j: int, wait: int) {
    0 <= j < |run| && IsKey(run[j], KEY_POWER) && run[j].value != 0 && wait == run[j].now + REBOOT_TIME
  }

  lemma KeyWaitMoves(s: State, step: Step)
    ensures var w := Apply(s, step).0.keyWait;
      w == INVALID || w == s.keyWait || (s.keys[KEY_POWER].down && w == s.keys[KEY_POWER].timestamp + REBOOT_TIME)
    ensures !step.KeyPass? ==> Apply(s, step).0.keyWait == s.keyWait
    ensures step.KeyPass? ==> Apply(s, step).0.keyWait == INVALID || step.now <= Apply(s, step).0.keyWait
  {
  }

  /** In every reachable state an armed key timer is two seconds after some press of the power key, and
      right after a key pass it is not in the past. */
  lemma {:induction false} KeyWaitIsDeadline(run: Run)
    ensures Reach(run).keyWait != INVALID ==> exists j :: DeadlineOf(run, j, Reach(run).keyWait)
    ensures run != [] && run[|run| - 1].KeyPass? ==> Reach(run).keyWait == INVALID || LastTime(run) <= Reach(run).keyWait
  {
    if run == [] {
    } else {
      var n := |run| - 1;
      var s := Reach(run[..n]);
      KeyWaitIsDeadline(run[..n]);
      KeyWaitMoves(s, run[n]);
      hide Apply;
      if s.keyWait != INVALID {
        var j :| DeadlineOf(run[..n], j, s.keyWait);
        assert DeadlineOf(run, j, s.keyWait) by { assert run[j] == run[..n][j]; }
      }
      if s.keys[KEY_POWER].down {
        var j := StampIsPress(run[..n]);
        assert DeadlineOf(run, j, s.keys[KEY_POWER].timestamp + REBOOT_TIME) by { assert run[j] == run[..n][j]; }
      }
    }
  }

  lemma StampIsPress(run: Run) returns (j: int)
    requires Reach(run).keys[KEY_POWER].down
    ensures DeadlineOf(run, j, Reach(run).keys[KEY_POWER].timestamp + REBOOT_TIME)
  {
    var h := KeyHistory(run, KEY_POWER);
    KeyIsSince(run, KEY_POWER);
    hide Reach;
    SinceSeen(h);
    j :| 0 <= j < |h| && h[j].Seen? && h[j].on && h[j].t == Since(h);
  }

  // ---------- cycles ----------

  ghost predicate HadCycle(run: Run) { exists i :: 0 <= i < |run| && run[i].Cycle? }

  lemma HadCycleStep(run: Run)
    requires run != []
    ensures HadCycle(run) <==> HadCycle(run[..|run| - 1]) || run[|run| - 1].Cycle?
  {
    var p := run[..|run| - 1];
    assert forall i :: 0 <= i < |p| ==> p[i] == run[i];
    if HadCycle(p) {
      var i :| 0 <= i < |p| && p[i].Cycle?;
      assert run[i].Cycle?;
    }
  }

  lemma StartedStep(s: State, step: Step)
    ensures Apply(s, step).0.started <==> s.started || step.Cycle?
    ensures step.Cycle? ==> Apply(s, step).1 == if s.started then Quiet else Wake
    ensures step.Report? || step.KeyEvent? ==> Apply(s, step).1 == Quiet
  {
  }

  lemma {:induction false} StartedIsHadCycle(run: Run)
    ensures Reach(run).started <==> HadCycle(run)
  {
    if run == [] {
    } else {
      StartedIsHadCycle(run[..|run| - 1]);
      StartedStep(Reach(run[..|run| - 1]), run[|run| - 1]);
      hide Apply;
      HadCycleStep(run);
      hide HadCycle;
    }
  }

  /** A cycle restarts the backlight timer if and only if it is the first; reports and key events do
      nothing visible. */
  lemma CycleWakesIff(run: Run, k: nat)
    requires k < |run| && !run[k].Charging? && !run[k].KeyPass? && !run[k].Screen?
    ensures EffectAt(run, k) == if run[k].Cycle? && !HadCycle(run[..k]) then Wake else Quiet
  {
    StartedIsHadCycle(run[..k]);
    StartedStep(Reach(run[..k]), run[k]);
    hide Reach;
    hide Apply;
  }

  /** The cycle at `j` is the last one and saw a charger at work. */
  ghost predicate LastCycleCharges(run: Run, j: int) {
    0 <= j < |run| && run[j].Cycle? && !Unplugged(run[j].reported) && forall i :: j < i < |run| ==> !run[i].Cycle?
  }

  lemma LastCycleStep(run: Run, j: int)
    requires run != []
    ensures var n := |run| - 1;
      LastCycleCharges(run, j) <==>
        if run[n].Cycle? then j == n && !Unplugged(run[n].reported) else LastCycleCharges(run[..n], j)
  {
    var n := |run| - 1;
    assert forall i :: 0 <= i < n ==> run[..n][i] == run[i];
  }

  lemma EpollStep(s: State, step: Step)
    ensures Apply(s, step).0.epollInterval ==
            if !step.Cycle? then s.epollInterval else if Unplugged(step.reported) then INVALID else 2000
  {
  }

  /** The loop polls every two seconds if and only if the last cycle saw a charger at work. */
  lemma {:induction false} PollsIffCharging(run: Run)
    ensures Reach(run).epollInterval == if exists j :: LastCycleCharges(run, j) then 2000 else INVALID
  {
    if run == [] {
    } else {
      var n := |run| - 1;
      PollsIffCharging(run[..n]);
      EpollStep(Reach(run[..n]), run[n]);
      hide Apply;
      forall j ensures LastCycleCharges(run, j) <==>
        if run[n].Cycle? then j == n && !Unplugged(run[n].reported) else LastCycleCharges(run[..n], j) {
        LastCycleStep(run, j);
      }
      LastCycleStep(run, n);
      hide LastCycleCharges;
    }
  }

  // ---------- unplugging ----------

  /** The charge state in force after `run`: the last one reported. */
  function LastReport(run: Run): int {
    if run == [] then CHARGE_STATE_RESERVED else
      var n := |run| - 1;
      if run[n].Cycle? || run[n].Report? then run[n].reported else LastReport(run[..n])
  }

  lemma ChargeStateStep(s: State, step: Step)
    ensures Apply(s, step).0.chargeState == if step.Cycle? || step.Report? then step.reported else s.chargeState
  {
  }

  lemma {:induction false} ChargeStateIsLastReport(run: Run)
    ensures Reach(run).chargeState == LastReport(run)
  {
    if run == [] {
    } else {
      ChargeStateIsLastReport(run[..|run| - 1]);
      ChargeStateStep(Reach(run[..|run| - 1]), run[|run| - 1]);
    }
  }

  /** What the step at `i` sees of the charger, if it looks at all. */
  function PlugObs(run: Run, i: nat): Obs
    requires i < |run|
  {
    if run[i].Charging? then Seen(run[i].now, Unplugged(LastReport(run[..i]))) else Nothing
  }

  function PlugHistory(run: Run): seq<Obs> { seq(|run|, i requires 0 <= i < |run| => PlugObs(run, i)) }

  lemma PlugHistoryStep(run: Run)
    requires run != []
    ensures var n := |run| - 1; PlugHistory(run)[..n] == PlugHistory(run[..n]) && PlugHistory(run)[n] == PlugObs(run, n)
  {
    var n := |run| - 1;
    forall i | 0 <= i < n ensures PlugObs(run, i) == PlugObs(run[..n], i) { assert run[..n][..i] == run[..i]; }
  }

  /** How one step moves the unplug timer, given the start of the current unplugged stretch. */
  lemma PluginWaitStep(s: State, step: Step, since: int, o: Obs)
    requires s.pluginWait == if since == INVALID then INVALID else since + SHUTDOWN_TIME_MS
    requires since == INVALID || since >= 1
    requires o == if step.Charging? then Seen(step.now, Unplugged(s.chargeState)) else Nothing
    ensures Apply(s, step).0.pluginWait ==
            var t := Extend(since, o); if t == INVALID then INVALID else t + SHUTDOWN_TIME_MS
    ensures step.Charging? ==>
            (Apply(s, step).1 == Shutdown <==> o.on && since != INVALID && since <= step.now - SHUTDOWN_TIME_MS)
  {
  }

  lemma {:induction false} PluginWaitIsSince(run: Run)
    ensures Reach(run).pluginWait ==
            var t := Since(PlugHistory(run)); if t == INVALID then INVALID else t + SHUTDOWN_TIME_MS
  {
    if run == [] {
    } else {
      var n := |run| - 1;
      var h := PlugHistory(run[..n]);
      PluginWaitIsSince(run[..n]);
      ChargeStateIsLastReport(run[..n]);
      PlugHistoryStep(run);
      if Since(h) != INVALID { SinceSeen(h); }
      PluginWaitStep(Reach(run[..n]), run[n], Since(h), PlugObs(run, n));
    }
  }

  /** The charging pass at `j`, two seconds or more before `now`, and all passes from there up to but
      not including `k` saw the charger unplugged. */
  ghost predicate UnpluggedFrom(run: Run, j: int, k: nat, now: int)
    requires k <= |run|
  {
    && 0 <= j < k && run[j].Charging? && run[j].now + SHUTDOWN_TIME_MS <= now
    && forall i :: j <= i < k && run[i].Charging? ==> Unplugged(LastReport(run[..i]))
  }

  lemma UnpluggedIsHeld(run: Run, k: nat, j: int, now: int)
    requires k <= |run|
    ensures UnpluggedFrom(run, j, k, now) <==> HeldFrom(PlugHistory(run[..k]), j, now - SHUTDOWN_TIME_MS)
  {
    var h := PlugHistory(run[..k]);
    forall i | 0 <= i < k ensures h[i] == PlugObs(run, i) { assert run[..k][..i] == run[..i]; }
    if UnpluggedFrom(run, j, k, now) {
      forall i | j <= i < k && h[i].Seen? ensures h[i].on { assert run[i].Charging?; }
    }
    if HeldFrom(h, j, now - SHUTDOWN_TIME_MS) {
      forall i | j <= i < k && run[i].Charging? ensures Unplugged(LastReport(run[..i])) { assert h[i].Seen? && h[i].on; }
    }
  }

  lemma PlugHistoryOrdered(run: Run)
    ensures Ordered(PlugHistory(run))
  {
  }

  lemma UnpluggedSince(run: Run, k: nat, now: int)
    requires k <= |run|
    ensures var t := Since(PlugHistory(run[..k]));
      (exists j :: UnpluggedFrom(run, j, k, now)) <==> t != INVALID && t <= now - SHUTDOWN_TIME_MS
  {
    var h := PlugHistory(run[..k]);
    PlugHistoryOrdered(run[..k]);
    SinceIsHeld(h, now - SHUTDOWN_TIME_MS);
    var limit := now - SHUTDOWN_TIME_MS;
    if j :| HeldFrom(h, j, limit) {
      UnpluggedIsHeld(run, k, j, now);
    }
    if j :| UnpluggedFrom(run, j, k, now) {
      UnpluggedIsHeld(run, k, j, now);
    }
  }

  /** A charging pass at `k` asks for shutdown if and only if it sees the charger unplugged, some
      earlier pass at least two seconds before did, and so did every pass in between. */
  lemma ShutdownIff(run: Run, k: nat)
    requires k < |run| && run[k].Charging?
    ensures EffectAt(run, k) == Shutdown <==>
            Unplugged(LastReport(run[..k])) && exists j :: UnpluggedFrom(run, j, k, run[k].now)
  {
    var h := PlugHistory(run[..k]);
    PluginWaitIsSince(run[..k]);
    ChargeStateIsLastReport(run[..k]);
    UnpluggedSince(run, k, run[k].now);
    if Since(h) != INVALID { SinceSeen(h); }
    PluginWaitStep(Reach(run[..k]), run[k], Since(h), PlugObs(run, k));
  }

  /** What the last charging pass saw; no pass counts as plugged in. */
  function WasUnplugged(run: Run): bool {
    if run == [] then false else
      var n := |run| - 1;
      if run[n].Charging? then Unplugged(LastReport(run[..n])) else WasUnplugged(run[..n])
  }

  lemma {:induction false} WasUnpluggedIsSince(run: Run)
    ensures WasUnplugged(run) <==> Since(PlugHistory(run)) != INVALID
  {
    if run == [] {
    } else {
      WasUnpluggedIsSince(run[..|run| - 1]);
      PlugHistoryStep(run);
    }
  }

  lemma ChargingWakes(s: State, now: Millis)
    ensures ChargingStep(s, now).1 == Wake <==> Unplugged(s.chargeState) != (s.pluginWait != INVALID)
    ensures ChargingStep(s, now).1 in {Quiet, Wake, Shutdown}
  {
  }

  /** A charging pass lights the screen and restarts the backlight timer if and only if it sees the
      charger come or go: its reading differs from that of the pass before. */
  lemma ChargingWakesIff(run: Run, k: nat)
    requires k < |run| && run[k].Charging?
    ensures EffectAt(run, k) == Wake <==> Unplugged(LastReport(run[..k])) != WasUnplugged(run[..k])
    ensures EffectAt(run, k) in {Quiet, Wake, Shutdown}
  {
    var h := PlugHistory(run[..k]);
    PluginWaitIsSince(run[..k]);
    ChargeStateIsLastReport(run[..k]);
    WasUnpluggedIsSince(run[..k]);
    if Since(h) != INVALID { SinceSeen(h); }
    ChargingWakes(Reach(run[..k]), run[k].now);
    hide Reach;
    hide ChargingStep;
  }

  // ---------- the power key ----------

  predicate IsKey(step: Step, code: nat) { step.KeyEvent? && step.code == code }

  function KeyObs(step: Step, code: nat): Obs {
    if IsKey(step, code) then Seen(step.now, step.value != 0) else Nothing
  }

  function KeyHistory(run: Run, code: nat): seq<Obs> {
    seq(|run|, i requires 0 <= i < |run| => KeyObs(run[i], code))
  }

  ghost predicate EverPressed(run: Run, code: nat) {
    exists i :: 0 <= i < |run| && IsKey(run[i], code) && run[i].value != 0
  }

  /** A key's entry: down and stamped since the start of the current stretch of presses, and marked `up`
      from the first press on. */
  ghost predicate KeyTells(key: Key, since: int, pressed: bool) {
    (key.down <==> since != INVALID) && (key.down ==> key.timestamp == since && key.up) && (key.up <==> pressed)
  }

  lemma EverPressedStep(run: Run, code: nat)
    requires run != []
    ensures var n := |run| - 1;
      EverPressed(run, code) <==> EverPressed(run[..n], code) || (IsKey(run[n], code) && run[n].value != 0)
  {
    var n := |run| - 1;
    assert forall i :: 0 <= i < n ==> run[..n][i] == run[i];
    if EverPressed(run[..n], code) {
      var i :| 0 <= i < n && IsKey(run[..n][i], code) && run[..n][i].value != 0;
      assert run[i] == run[..n][i];
    }
  }

  /** Every key's entry, told from the history of its events alone. */
  lemma {:induction false} KeyIsSince(run: Run, code: nat)
    requires code <= KEY_MAX
    ensures KeyTells(Reach(run).keys[code], Since(KeyHistory(run, code)), EverPressed(run, code))
  {
    if run == [] {
    } else {
      var n := |run| - 1;
      KeyIsSince(run[..n], code);
      assert KeyHistory(run, code)[..n] == KeyHistory(run[..n], code);
      EverPressedStep(run, code);
      KeyStep(Reach(run[..n]), run[n], code);
    }
  }

  /** The power key was pressed at `j`, at least two seconds before `now`, and not released before `k`. */
  ghost predicate KeyHeldFrom(run: Run, j: int, k: nat, now: int)
    requires k <= |run|
  {
    && 0 <= j < k && IsKey(run[j], KEY_POWER) && run[j].now + REBOOT_TIME <= now
    && forall i :: j <= i < k && IsKey(run[i], KEY_POWER) ==> run[i].value != 0
  }

  lemma KeyHeldIsHeld(run: Run, k: nat, j: int, now: int)
    requires k <= |run|
    ensures KeyHeldFrom(run, j, k, now) <==> HeldFrom(KeyHistory(run[..k], KEY_POWER), j, now - REBOOT_TIME)
  {
    var h := KeyHistory(run[..k], KEY_POWER);
    assert forall i :: 0 <= i < k ==> h[i] == KeyObs(run[i], KEY_POWER);
    if HeldFrom(h, j, now - REBOOT_TIME) {
      forall i | j <= i < k && IsKey(run[i], KEY_POWER) ensures run[i].value != 0 { assert h[i].Seen? && h[i].on; }
    }
  }

  lemma KeyHeldSince(run: Run, k: nat, now: int)
    requires k <= |run|
    ensures var t := Since(KeyHistory(run[..k], KEY_POWER));
      (exists j :: KeyHeldFrom(run, j, k, now)) <==> t != INVALID && t <= now - REBOOT_TIME
  {
    var h := KeyHistory(run[..k], KEY_POWER);
    SinceIsHeld(h, now - REBOOT_TIME);
    var limit := now - REBOOT_TIME;
    if j :| HeldFrom(h, j, limit) {
      KeyHeldIsHeld(run, k, j, now);
    }
    if j :| KeyHeldFrom(run, j, k, now) {
      KeyHeldIsHeld(run, k, j, now);
    }
  }

  lemma KeyPassOutcome(s: State, now: Millis, since: int, pressed: bool)
    requires KeyTells(s.keys[KEY_POWER], since, pressed)
    ensures KeyPassStep(s, now).1 ==
            if since != INVALID && since <= now - REBOOT_TIME then Reboot else if pressed then Wake else Quiet
  {
  }

  /** What a key pass does: reboot if and only if the key has been held for two seconds; otherwise
      wake the screen if the key was ever pressed, held or not; and nothing before the first press. */
  lemma KeyPassEffect(run: Run, k: nat)
    requires k < |run| && run[k].KeyPass?
    ensures EffectAt(run, k) == Reboot <==> exists j :: KeyHeldFrom(run, j, k, run[k].now)
    ensures EffectAt(run, k) == Wake <==> EverPressed(run[..k], KEY_POWER) && EffectAt(run, k) != Reboot
  {
    var h := KeyHistory(run[..k], KEY_POWER);
    KeyIsSince(run[..k], KEY_POWER);
    KeyHeldSince(run, k, run[k].now);
    KeyPassOutcome(Reach(run[..k]), run[k].now, Since(h), EverPressed(run[..k], KEY_POWER));
  }

  /** The failing case at a real input: one press and one release, and both passes after it wake. */
  lemma ReleaseWakesTwice()
    ensures var run := [KeyEvent(1, KEY_POWER, 1), KeyEvent(2, KEY_POWER, 0), KeyPass(3), KeyPass(4)];
      EffectAt(run, 2) == Wake && EffectAt(run, 3) == Wake
  {
    var run: Run := [KeyEvent(1, KEY_POWER, 1), KeyEvent(2, KEY_POWER, 0), KeyPass(3), KeyPass(4)];
    hide Reach;
    forall k: nat | k in {2, 3} ensures EffectAt(run, k) == Wake {
      assert EverPressed(run[..k], KEY_POWER) by { assert run[..k][0] == run[0]; }
      KeyPassEffect(run, k);
      assert forall j :: !KeyHeldFrom(run, j, k, run[k].now);
    }
  }

  // ---------- the screen ----------

  function EffectHistory(run: Run): (h: seq<Mark>)
    ensures |h| == |run|
  {
    if run == [] then [] else
      var n := |run| - 1;
      EffectHistory(run[..n]) + [Mark(run[n].now, EffectAt(run, n))]
  }

  lemma {:induction false} EffectHistoryAt(run: Run, i: nat)
    requires i < |run|
    ensures EffectHistory(run)[i] == Mark(run[i].now, EffectAt(run, i))
  {
    hide Apply;
    hide Reach;
    var n := |run| - 1;
    if i < n {
      EffectHistoryAt(run[..n], i);
      assert run[..n][..i] == run[..i];
    }
  }

  lemma {:induction false} EffectHistoryPrefix(run: Run, k: nat)
    requires k <= |run|
    ensures EffectHistory(run)[..k] == EffectHistory(run[..k])
  {
    hide EffectAt;
    if k == |run| {
      assert run[..k] == run;
    } else {
      EffectHistoryPrefix(run[..|run| - 1], k);
      assert run[..|run| - 1][..k] == run[..k];
    }
  }

  lemma BacklightStep(s: State, step: Step)
    ensures var (t, e) := Apply(s, step);
      t.backlightWait == match e case Wake => step.now - 1 case ScreenOff => INVALID case _ => s.backlightWait
  {
  }

  lemma {:induction false} BacklightIsTimer(run: Run)
    ensures Reach(run).backlightWait == Timer(EffectHistory(run))
  {
    if run == [] {
    } else {
      var n := |run| - 1;
      BacklightIsTimer(run[..n]);
      BacklightStep(Reach(run[..n]), run[n]);
      assert EffectHistory(run)[..n] == EffectHistory(run[..n]);
    }
  }

  lemma EffectHistorySorted(run: Run)
    ensures Sorted(EffectHistory(run))
  {
    forall i | 0 <= i < |run| ensures EffectHistory(run)[i].t == run[i].now { EffectHistoryAt(run, i); }
  }

  /** The screen times out at `k` if and only if a wake is pending and every wake before `k`, pending
      or not, is at least ten seconds old. */
  lemma ScreenOffIff(run: Run, k: nat)
    requires k < |run| && run[k].Screen?
    ensures var h := EffectHistory(run)[..k];
      EffectAt(run, k) == ScreenOff <==>
        && (exists i :: Pending(h, i))
        && (forall i :: 0 <= i < k && h[i].effect == Wake ==> h[i].t + BACKLIGHT_OFF_TIME_MS <= run[k].now)
  {
    hide Reach, EffectHistory, Timer, Pending, Sorted;
    EffectHistoryPrefix(run, k);
    BacklightIsTimer(run[..k]);
    EffectHistorySorted(run[..k]);
    ExpiredIff(EffectHistory(run[..k]), run[k].now);
    ScreenOutcome(Reach(run[..k]), run[k].now);
  }

  lemma ScreenOutcome(s: State, now: Millis)
    ensures ScreenStep(s, now).1 == ScreenOff <==> s.backlightWait != INVALID && now > s.backlightWait + BACKLIGHT_OFF_TIME_MS
  {
  }

  /** Steps that light the screen, and effects that put it out. */
  predicate Lights(step: Step, e: Effect) { e == Wake && !step.Cycle? }
  predicate Darkens(e: Effect) { e == ScreenOff || e == Reboot }

  lemma ScreenStepEffect(s: State, step: Step)
    ensures var (t, e) := Apply(s, step);
      t.screenOn == if e == ScreenOff || e == Reboot then false else if e == Wake && !step.Cycle? then true else s.screenOn
  {
  }

  /** The step at `i` put the screen out and nothing has lit it since. */
  ghost predicate DarkSince(run: Run, i: int) {
    && 0 <= i < |run| && Darkens(EffectAt(run, i))
    && forall j :: i < j < |run| ==> !Lights(run[j], EffectAt(run, j))
  }

  lemma EffectPrefix(run: Run, j: nat)
    requires j + 1 < |run|
    ensures EffectAt(run[..|run| - 1], j) == EffectAt(run, j)
  {
    hide Apply, Reach;
    assert run[..|run| - 1][..j] == run[..j];
  }

  lemma DarkSinceStep(run: Run, i: int)
    requires run != []
    ensures var n := |run| - 1;
      DarkSince(run, i) <==>
        (i == n && Darkens(EffectAt(run, n))) || (i < n && DarkSince(run[..n], i) && !Lights(run[n], EffectAt(run, n)))
  {
    hide EffectAt, Lights, Darkens;
    var n := |run| - 1;
    forall j | 0 <= j < n ensures EffectAt(run[..n], j) == EffectAt(run, j) && run[..n][j] == run[j] {
      EffectPrefix(run, j);
    }
  }

  /** The screen is dark if and only if some step put it out and no wake has lit it since. */
  lemma {:induction false} ScreenDarkIff(run: Run)
    ensures !Reach(run).screenOn <==> exists i :: DarkSince(run, i)
  {
    hide Apply;
    if run == [] {
    } else {
      var n := |run| - 1;
      ScreenDarkIff(run[..n]);
      ScreenStepEffect(Reach(run[..n]), run[n]);
      if i :| DarkSince(run, i) { DarkSinceStep(run, i); }
      DarkSinceStep(run, n);
      if i :| DarkSince(run[..n], i) { DarkSinceStep(run, i); }
    }
  }

  /** Because the key's mark is cleared only on a copy, one press keeps the screen lit for good: a
      screen pass within ten seconds of a later key pass never times out, unless that pass rebooted. */
  lemma PressKeepsScreenLit(run: Run, k: nat, m: nat)
    requires k < m < |run| && run[k].KeyPass? && run[m].Screen?
    requires EverPressed(run[..k], KEY_POWER) && EffectAt(run, k) != Reboot
    requires run[m].now < run[k].now + BACKLIGHT_OFF_TIME_MS
    ensures EffectAt(run, m) != ScreenOff
  {
    KeyPassEffect(run, k);
    ScreenOffIff(run, m);
    EffectHistoryAt(run, k);
    assert EffectHistory(run)[..m][k] == EffectHistory(run)[k];
  }
}
