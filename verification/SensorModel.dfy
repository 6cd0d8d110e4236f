/** The sensor callback registry as a state machine on values.

    `State` holds what the service keeps (subscriber lists and the death-recipient table) and what
    its environment keeps (recipients attached to remote objects, hardware subscriptions, delivered
    events).  Every public operation runs under one mutex, so each is one atomic step. */
module SensorModel {
  import opened Hdf

  const SENSOR_SUCCESS := 0
  const SENSOR_FAILURE := -1
  const SENSOR_INVALID_PARAM := -3
  const TRADITIONAL_SENSOR_TYPE := 0
  const MEDICAL_SENSOR_TYPE := 1

  datatype Option<+T> = None | Some(value: T)

  /** Identity of a client's remote object; callbacks are compared only through it. */
  type Remote = nat
  /** Identity of one `CallBackDeathRecipient` object. */
  type Recipient = nat

  /** A record handed over by the hardware layer; `memory` is what its data pointer reaches. */
  datatype SensorEvents = SensorEvents(
    sensorId: int, version: int, timestamp: int, option: int, mode: int, memory: seq<UInt8>, dataLen: nat)
  {
    ghost predicate Valid() { dataLen <= |memory| }
  }

  /** The argument of a data callback: a null event, an event without data, or a full event. */
  datatype Incoming = NullEvent | NullData | Sample(event: SensorEvents)
  {
    ghost predicate Valid() { Sample? ==> event.Valid() }
  }

  datatype HdfSensorEvents = HdfSensorEvents(
    sensorId: int, version: int, timestamp: int, option: int, mode: int, dataLen: nat, data: seq<UInt8>)

  /** One `OnDataEvent` call as the client sees it. */
  datatype Delivery = Delivery(to: Remote, group: int, event: HdfSensorEvents)

  /** Which entries of the hardware interface table are non-null. */
  datatype Hal = Hal(canRegister: bool, canUnregister: bool)

  /** What the environment answers during one operation. */
  datatype Env = Env(addOk: bool, halRet: int, removeOk: bool)

  datatype State = State(
    groups: map<int, seq<Remote>>,
    table: map<Remote, Recipient>,
    attached: map<Remote, set<Recipient>>,
    next: nat,
    live: set<int>,
    log: seq<Delivery>)
  {
    function Members(g: int): seq<Remote> { if g in groups then groups[g] else [] }
    function Attached(c: Remote): set<Recipient> { if c in attached then attached[c] else {} }
    ghost predicate Registered(c: Remote) {
      c in Members(TRADITIONAL_SENSOR_TYPE) || c in Members(MEDICAL_SENSOR_TYPE)
    }
    /** Number of groups `c` is registered in. */
    function Joined(c: Remote): nat {
      (if c in Members(TRADITIONAL_SENSOR_TYPE) then 1 else 0) + (if c in Members(MEDICAL_SENSOR_TYPE) then 1 else 0)
    }
  }

  const Init := State(map[], map[], map[], 0, {}, [])

  predicate InRange(g: int) { TRADITIONAL_SENSOR_TYPE <= g <= MEDICAL_SENSOR_TYPE }

  function OtherGroup(g: int): int { MEDICAL_SENSOR_TYPE - g }

  // ---------- pieces ----------

  /** `l` without its first `c`. */
  function Without(l: seq<Remote>, c: Remote): seq<Remote> {
    if l == [] then [] else if l[0] == c then l[1..] else [l[0]] + Without(l[1..], c)
  }

  function AddRecipient(s: State, c: Remote, ok: bool): State {
    if ok then
      s.(attached := s.attached[c := s.Attached(c) + {s.next}], table := s.table[c := s.next], next := s.next + 1)
    else
      s.(next := s.next + 1)
  }

  function RemoveRecipient(s: State, c: Remote, ok: bool): (State, int) {
    if c !in s.table then (s, HDF_FAILURE)
    else if ok then
      (s.(attached := s.attached[c := s.Attached(c) - {s.table[c]}], table := s.table - {c}), SENSOR_SUCCESS)
    else
      (s.(table := s.table - {c}), HDF_FAILURE)
  }

  /** What a client must be handed for a hardware record: each field, and the first `dataLen` bytes. */
  ghost predicate Copies(d: HdfSensorEvents, e: SensorEvents) {
    && d.sensorId == e.sensorId && d.version == e.version && d.timestamp == e.timestamp
    && d.option == e.option && d.mode == e.mode
    && d.dataLen == e.dataLen == |d.data| <= |e.memory|
    && forall i :: 0 <= i < e.dataLen ==> d.data[i] == e.memory[i]
  }

  function CopyEvent(e: SensorEvents): HdfSensorEvents
    requires e.Valid()
  {
    HdfSensorEvents(e.sensorId, e.version, e.timestamp, e.option, e.mode, e.dataLen, e.memory[..e.dataLen])
  }

  function Deliveries(l: seq<Remote>, g: int, e: HdfSensorEvents): seq<Delivery> {
    seq(|l|, k requires 0 <= k < |l| => Delivery(l[k], g, e))
  }

  // ---------- operations ----------

  function Register(hal: Hal, s: State, g: int, c: Remote, env: Env): (State, int) {
    if !hal.canRegister then (s, HDF_FAILURE)
    else if !InRange(g) then (s, SENSOR_INVALID_PARAM)
    else if g in s.groups && c in s.groups[g] then (s, SENSOR_SUCCESS)
    else
      var t := AddRecipient(s, c, env.addOk);
      if !env.addOk then (t, HDF_FAILURE)
      else if g in t.groups then (t.(groups := t.groups[g := t.groups[g] + [c]]), SENSOR_SUCCESS)
      else if env.halRet != SENSOR_SUCCESS then (RemoveRecipient(t, c, env.removeOk).0, env.halRet)
      else (t.(groups := t.groups[g := [c]], live := t.live + {g}), SENSOR_SUCCESS)
  }

  function Unregister(hal: Hal, s: State, g: int, c: Remote, env: Env): (State, int) {
    if !hal.canUnregister then (s, HDF_FAILURE)
    else if !InRange(g) then (s, SENSOR_INVALID_PARAM)
    else if c !in s.Members(g) then (s, HDF_FAILURE)
    else if |s.Members(g)| > 1 then
      (RemoveRecipient(s, c, env.removeOk).0.(groups := s.groups[g := Without(s.Members(g), c)]), SENSOR_SUCCESS)
    else if env.halRet != SENSOR_SUCCESS then (s, env.halRet)
    else
      (RemoveRecipient(s, c, env.removeOk).0.(groups := s.groups - {g}, live := s.live - {g}), SENSOR_SUCCESS)
  }

  /** One half of an obituary: leave group `g` if registered there. */
  function Leave(hal: Hal, s: State, g: int, c: Remote, env: Env): (State, Option<int>) {
    if c in s.Members(g) then
      var r := Unregister(hal, s, g, c, env);
      (r.0, Some(r.1))
    else (s, None)
  }

  function DataEvent(s: State, g: int, e: Incoming): (State, int)
    requires e.Valid()
  {
    if !e.Sample? then (s, SENSOR_FAILURE)
    else (s.(log := s.log + Deliveries(s.Members(g), g, CopyEvent(e.event))), SENSOR_SUCCESS)
  }

  // ---------- runs ----------

  /** `Died` carries the promoted object, or nothing when the weak pointer can no longer be promoted. */
  datatype Step =
    | DoRegister(g: int, c: Remote, env: Env)
    | DoUnregister(g: int, c: Remote, env: Env)
    | Died(promoted: Option<Remote>, env0: Env, env1: Env)
    | Data(g: int, e: Incoming)
  {
    ghost predicate Valid() { Data? ==> InRange(g) && e.Valid() }
  }

  /** What a step reports: a return code, or the codes of the removals an obituary attempted. */
  datatype Outcome = Code(ret: int) | Left(ret0: Option<int>, ret1: Option<int>)

  function Apply(hal: Hal, s: State, step: Step): (State, Outcome)
    requires step.Valid()
  {
    match step
    case DoRegister(g, c, env) => var r := Register(hal, s, g, c, env); (r.0, Code(r.1))
    case DoUnregister(g, c, env) => var r := Unregister(hal, s, g, c, env); (r.0, Code(r.1))
    case Died(None, _, _) => (s, Left(None, None))
    case Died(Some(c), env0, env1) =>
      var r0 := Leave(hal, s, TRADITIONAL_SENSOR_TYPE, c, env0);
      var r1 := Leave(hal, r0.0, MEDICAL_SENSOR_TYPE, c, env1);
      (r1.0, Left(r0.1, r1.1))
    case Data(g, e) => var r := DataEvent(s, g, e); (r.0, Code(r.1))
  }

  type Run = steps: seq<Step> | forall i :: 0 <= i < |steps| ==> steps[i].Valid() witness []

  function Reach(hal: Hal, run: Run): State {
    if run == [] then Init else Apply(hal, Reach(hal, run[..|run| - 1]), run[|run| - 1]).0
  }

  datatype Entry = Entry(step: Step, outcome: Outcome)

  /** The observable history of a run: each step with what it reported. */
  function Trace(hal: Hal, run: Run): (t: seq<Entry>)
    ensures |t| == |run|
  {
    if run == [] then [] else
      var n := |run| - 1;
      Trace(hal, run[..n]) + [Entry(run[n], Apply(hal, Reach(hal, run[..n]), run[n]).1)]
  }
}
