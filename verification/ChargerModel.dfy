/** The charger screen's state machine on values: three timers, a key table, the screen. */
module ChargerModel {
  import opened Hdf

  const INVALID := -1
  const SHUTDOWN_TIME_MS := 2000
  const REBOOT_TIME := 2000
  const BACKLIGHT_OFF_TIME_MS := 10000
  const TIMER_FAST_SEC := 2
  const SEC_TO_MSEC := 1000
  const KEY_MAX := 0x2ff
  const KEY_POWER := 116
  const CHARGE_STATE_NONE := 0
  const CHARGE_STATE_RESERVED := 4

  /** Monotonic clock readings: at least 1 ms after boot, far enough from overflow to add a timeout. */
  type Millis = t: int | 1 <= t <= INT64_MAX - BACKLIGHT_OFF_TIME_MS - 1 witness 1

  datatype Key = Key(up: bool, down: bool, timestamp: int)

  function NoKeys(): (k: seq<Key>)
    ensures |k| == KEY_MAX + 1 && k[KEY_POWER] == Key(false, false, 0)
  {
    seq(KEY_MAX + 1, _ => Key(false, false, 0))
  }

  type Keys = k: seq<Key> | |k| == KEY_MAX + 1 witness NoKeys()

  datatype State = State(
    pluginWait: int,
    keyWait: int,
    backlightWait: int,
    started: bool,
    screenOn: bool,
    chargeState: int,
    epollInterval: int,
    keys: Keys)

  /** The state `Init` leaves behind: the screen is lit, no timer runs. */
  const Init := State(INVALID, INVALID, INVALID, false, true, CHARGE_STATE_RESERVED, INVALID, NoKeys())

  /** What one step does to the outside: `Wake` restarts the backlight timer. */
  datatype Effect = Quiet | Wake | ScreenOff | Shutdown | Reboot

  predicate Unplugged(chargeState: int) {
    chargeState == CHARGE_STATE_NONE || chargeState == CHARGE_STATE_RESERVED
  }

  datatype Step =
    | Cycle(now: Millis, reported: int)
    | Report(now: Millis, reported: int)
    | Charging(now: Millis)
    | KeyPass(now: Millis)
    | Screen(now: Millis)
    | KeyEvent(now: Millis, code: nat, value: int)

  function ChargingStep(s: State, now: Millis): (State, Effect) {
    if Unplugged(s.chargeState) then
      if s.pluginWait == INVALID then
        (s.(backlightWait := now - 1, screenOn := true, pluginWait := now + SHUTDOWN_TIME_MS), Wake)
      else if now >= s.pluginWait then (s, Shutdown)
      else (s, Quiet)
    else if s.pluginWait != INVALID then
      (s.(backlightWait := now - 1, screenOn := true, pluginWait := INVALID), Wake)
    else (s, Quiet)
  }

  function ScreenStep(s: State, now: Millis): (State, Effect) {
    if s.backlightWait != INVALID && now > s.backlightWait + BACKLIGHT_OFF_TIME_MS then
      (s.(screenOn := false, backlightWait := INVALID), ScreenOff)
    else (s, Quiet)
  }

  function KeyEventStep(s: State, code: nat, value: int, now: Millis): State {
    var down := value != 0;
    if code > KEY_MAX || s.keys[code].down == down then s
    else s.(keys := s.keys[code := Key(true, down, if down then now else s.keys[code].timestamp)])
  }

  function EarlierWait(keyWait: int, moment: int): int {
    if keyWait == INVALID || moment < keyWait then moment else keyWait
  }

  function PowerKey(s: State, now: Millis): (State, Effect) {
    var key := s.keys[KEY_POWER];
    if key.down then
      if now >= key.timestamp + REBOOT_TIME then (s.(screenOn := false), Reboot)
      else
        (s.(keyWait := EarlierWait(s.keyWait, key.timestamp + REBOOT_TIME), screenOn := true, backlightWait := now - 1),
         Wake)
    else if key.up then (s.(screenOn := true, backlightWait := now - 1), Wake)
    else (s, Quiet)
  }

  function KeyPassStep(s: State, now: Millis): (State, Effect) {
    var (t, e) := PowerKey(s, now);
    (if t.keyWait != INVALID && now > t.keyWait then t.(keyWait := INVALID) else t, e)
  }

  /** The loop polls while charging and otherwise waits for events. */
  function EpollInterval(chargeState: int): int {
    if Unplugged(chargeState) then INVALID else TIMER_FAST_SEC * SEC_TO_MSEC
  }

  function CycleStep(s: State, now: Millis, reported: int): (State, Effect) {
    var t := s.(chargeState := reported, epollInterval := EpollInterval(reported));
    if s.started then (t, Quiet) else (t.(started := true, backlightWait := now - 1), Wake)
  }

  function Apply(s: State, step: Step): (State, Effect) {
    match step
    case Cycle(now, reported) => CycleStep(s, now, reported)
    case Report(now, reported) => (s.(chargeState := reported), Quiet)
    case Charging(now) => ChargingStep(s, now)
    case KeyPass(now) => KeyPassStep(s, now)
    case Screen(now) => ScreenStep(s, now)
    case KeyEvent(now, code, value) => (KeyEventStep(s, code, value, now), Quiet)
  }

  /** The sleep chosen by `UpdateWaitInterval`, with line 78's relative value kept as it is. */
  function WaitInterval(s: State, now: Millis): int {
    var w0 := if s.pluginWait != INVALID then s.pluginWait - now else INT64_MAX;
    var w1 := if s.keyWait != INVALID && s.keyWait < w0 then s.keyWait else w0;
    var w2 := if s.backlightWait != INVALID && s.backlightWait < w1 then s.backlightWait else w1;
    if w2 == INVALID || w2 == INT64_MAX then INVALID else if w2 - now > 0 then w2 - now else 0
  }

  /** What the thread's loop passes to `epoll_wait`; negative means for ever. */
  function LoopTimeout(s: State, now: Millis): int {
    var w := WaitInterval(s, now);
    if s.epollInterval < 0 || 0 < w < s.epollInterval then w else s.epollInterval
  }

  /** Steps in any order, at clock readings that never go back. */
  type Run = r: seq<Step> | forall i, j :: 0 <= i < j < |r| ==> r[i].now <= r[j].now witness []

  function Reach(run: Run): State {
    if run == [] then Init else Apply(Reach(run[..|run| - 1]), run[|run| - 1]).0
  }

  function EffectAt(run: Run, k: nat): Effect
    requires k < |run|
  {
    Apply(Reach(run[..k]), run[k]).1
  }
}
