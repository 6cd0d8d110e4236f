/** The charger thread in the form the program has: fields and a key table updated step by step. */
module ChargerService {
  import opened Hdf
  import opened ChargerModel

  class ChargerThread {
    var pluginWait: int
    var keyWait: int
    var backlightWait: int
    var started: bool
    var screenOn: bool
    var chargeState: int
    var epollInterval: int
    const keys: array<Key>

    ghost predicate Valid()
      reads this
    {
      keys.Length == KEY_MAX + 1
    }

    ghost function Snapshot(): State
      requires Valid()
      reads this, keys
    {
      State(pluginWait, keyWait, backlightWait, started, screenOn, chargeState, epollInterval, keys[..])
    }

    constructor ()
      ensures Valid() && fresh(keys) && Snapshot() == Init
    {
      pluginWait, keyWait, backlightWait := INVALID, INVALID, INVALID;
      started, screenOn, chargeState, epollInterval := false, true, CHARGE_STATE_RESERVED, INVALID;
      keys := new Key[KEY_MAX + 1](_ => Key(false, false, 0));
    }

    method UpdateWaitInterval(currentTime: Millis) returns (timeout: int)
      requires Valid()
      ensures timeout == WaitInterval(Snapshot(), currentTime)
    {
      var nextWait := INT64_MAX;
      timeout := INVALID;
      if pluginWait != INVALID {
        nextWait := pluginWait - currentTime;
      }
      if keyWait != INVALID && keyWait < nextWait {
        nextWait := keyWait;
      }
      if backlightWait != INVALID && backlightWait < nextWait {
        nextWait := backlightWait;
      }
      if nextWait != INVALID && nextWait != INT64_MAX {
        if nextWait - currentTime > 0 {
          timeout := nextWait - currentTime;
        } else {
          timeout := 0;
        }
      }
    }

    method CycleMatters(now: Millis, reported: int) returns (effect: Effect)
      requires Valid()
      modifies this
      ensures Valid() && (Snapshot(), effect) == Apply(old(Snapshot()), Cycle(now, reported))
    {
      effect := Quiet;
      if !started {
        started := true;
        backlightWait := now - 1;
        effect := Wake;
      }
      chargeState := reported;
      UpdateEpollInterval(chargeState);
    }

    method UpdateEpollInterval(state: int)
      requires Valid()
      modifies this`epollInterval
      ensures epollInterval == EpollInterval(state)
    {
      if state != CHARGE_STATE_NONE && state != CHARGE_STATE_RESERVED {
        epollInterval := TIMER_FAST_SEC * SEC_TO_MSEC;
      } else {
        epollInterval := INVALID;
      }
    }

    /** The timeout the thread's loop waits with, after its passes over the states. */
    method NextTimeout(now: Millis) returns (timeout: int)
      requires Valid()
      ensures timeout == LoopTimeout(Snapshot(), now)
    {
      timeout := epollInterval;
      var waitTimeout := UpdateWaitInterval(now);
      if timeout < 0 || (waitTimeout > 0 && waitTimeout < timeout) {
        timeout := waitTimeout;
      }
    }

    method UpdateBatteryInfo(ghost now: Millis, reported: int)
      requires Valid()
      modifies this
      ensures Valid() && Snapshot() == Apply(old(Snapshot()), Report(now, reported)).0
    {
      chargeState := reported;
    }

    method SetKeyWait(key: Key, timeout: int)
      requires Valid()
      modifies this`keyWait
      ensures keyWait == EarlierWait(old(keyWait), key.timestamp + timeout)
    {
      var nextMoment := key.timestamp + timeout;
      if keyWait == INVALID || nextMoment < keyWait {
        keyWait := nextMoment;
      }
    }

    method HandleChargingState(now: Millis) returns (effect: Effect)
      requires Valid()
      modifies this
      ensures Valid() && (Snapshot(), effect) == Apply(old(Snapshot()), Charging(now))
    {
      effect := Quiet;
      if chargeState == CHARGE_STATE_NONE || chargeState == CHARGE_STATE_RESERVED {
        if pluginWait == INVALID {
          backlightWait := now - 1;
          screenOn := true;
          pluginWait := now + SHUTDOWN_TIME_MS;
          effect := Wake;
        } else if now >= pluginWait {
          effect := Shutdown;
        }
      } else {
        if pluginWait != INVALID {
          backlightWait := now - 1;
          screenOn := true;
          effect := Wake;
        }
        pluginWait := INVALID;
      }
    }

    method HandleScreenState(now: Millis) returns (effect: Effect)
      requires Valid()
      modifies this
      ensures Valid() && (Snapshot(), effect) == Apply(old(Snapshot()), Screen(now))
    {
      effect := Quiet;
      if backlightWait != INVALID && now > backlightWait + BACKLIGHT_OFF_TIME_MS {
        screenOn := false;
        backlightWait := INVALID;
        effect := ScreenOff;
      }
    }

    method SetKeyState(code: nat, value: int, now: Millis)
      requires Valid()
      modifies keys
      ensures Valid() && Snapshot() == Apply(old(Snapshot()), KeyEvent(now, code, value)).0
    {
      var down := value != 0;
      if code > KEY_MAX {
        return;
      }
      if keys[code].down == down {
        return;
      }
      if down {
        keys[code] := keys[code].(timestamp := now);
      }
      keys[code] := keys[code].(down := down);
      keys[code] := keys[code].(up := true);
    }

    /** The power key's entry is copied; clearing `up` changes only the copy. */
    method HandlePowerKey(keycode: nat, now: Millis) returns (effect: Effect)
      requires Valid() && keycode <= KEY_MAX
      modifies this
      ensures Valid()
      ensures (Snapshot(), effect) == if keycode == KEY_POWER then PowerKey(old(Snapshot()), now) else (old(Snapshot()), Quiet)
    {
      effect := Quiet;
      var key := keys[keycode];
      if keycode == KEY_POWER {
        if key.down {
          var rebootTime := key.timestamp + REBOOT_TIME;
          if now >= rebootTime {
            screenOn := false;
            effect := Reboot;
          } else {
            SetKeyWait(key, REBOOT_TIME);
            screenOn := true;
            backlightWait := now - 1;
            effect := Wake;
          }
        } else {
          if key.up {
            screenOn := true;
            backlightWait := now - 1;
            effect := Wake;
          }
        }
      }
      key := key.(up := false);
    }

    method HandlePowerKeyState(now: Millis) returns (effect: Effect)
      requires Valid()
      modifies this
      ensures Valid() && (Snapshot(), effect) == Apply(old(Snapshot()), KeyPass(now))
    {
      effect := HandlePowerKey(KEY_POWER, now);
      if keyWait != INVALID && now > keyWait {
        keyWait := INVALID;
      }
    }

    /** One pass over all states; each part reads the clock for itself. */
    method HandleStates(t1: Millis, t2: Millis, t3: Millis) returns (effects: seq<Effect>)
      requires Valid()
      modifies this
      ensures Valid() && |effects| == 3
      ensures var r1 := Apply(old(Snapshot()), Charging(t1));
              var r2 := Apply(r1.0, KeyPass(t2));
              var r3 := Apply(r2.0, Screen(t3));
              Snapshot() == r3.0 && effects == [r1.1, r2.1, r3.1]
    {
      var e1 := HandleChargingState(t1);
      var e2 := HandlePowerKeyState(t2);
      var e3 := HandleScreenState(t3);
      effects := [e1, e2, e3];
    }
  }
}
