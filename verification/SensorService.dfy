/** The registry in the form the service has: maps of vectors changed in place.
    Each method is proved to perform the corresponding step of `SensorModel`. */
module SensorService {
  import opened Hdf
  import opened SensorModel

  const CALLBACK_COUNT_THRESHOLD := 1

  class SensorImpl {
    const hal: Hal
    // the service's own tables
    var groupCallbacks: map<int, seq<Remote>>
    var deathRecipients: map<Remote, Recipient>
    // the environment: attached recipients, recipient identities, hardware subscriptions, deliveries
    var attached: map<Remote, set<Recipient>>
    var created: nat
    var subscribed: set<int>
    var delivered: seq<Delivery>

    ghost function Snapshot(): State
      reads this
    {
      State(groupCallbacks, deathRecipients, attached, created, subscribed, delivered)
    }

    constructor (hal: Hal)
      ensures this.hal == hal && Snapshot() == Init
    {
      this.hal := hal;
      groupCallbacks, deathRecipients, attached, created, subscribed, delivered := map[], map[], map[], 0, {}, [];
    }

    /** `find_if` over a subscriber list: the first match, or the length. */
    static method FindCallback(list: seq<Remote>, c: Remote) returns (i: nat)
      ensures i <= |list| && c !in list[..i]
      ensures i < |list| ==> list[i] == c && list[..i] + list[i + 1..] == Without(list, c)
    {
      i := 0;
      while i < |list| && list[i] != c
        invariant i <= |list| && c !in list[..i]
      {
        i := i + 1;
      }
      if i < |list| {
        EraseIsWithout(list, i, c);
      }
    }

    method AddSensorDeathRecipient(c: Remote, addOk: bool) returns (ret: int)
      modifies this
      ensures Snapshot() == AddRecipient(old(Snapshot()), c, addOk)
      ensures ret == if addOk then SENSOR_SUCCESS else HDF_FAILURE
    {
      var recipient := created;
      created := created + 1;
      if !addOk {
        return HDF_FAILURE;
      }
      attached := attached[c := (if c in attached then attached[c] else {}) + {recipient}];
      deathRecipients := deathRecipients[c := recipient];
      return SENSOR_SUCCESS;
    }

    method RemoveSensorDeathRecipient(c: Remote, removeOk: bool) returns (ret: int)
      modifies this
      ensures (Snapshot(), ret) == RemoveRecipient(old(Snapshot()), c, removeOk)
    {
      if c !in deathRecipients {
        return HDF_FAILURE;
      }
      if removeOk {
        attached := attached[c := (if c in attached then attached[c] else {}) - {deathRecipients[c]}];
      }
      deathRecipients := deathRecipients - {c};
      if !removeOk {
        return HDF_FAILURE;
      }
      return SENSOR_SUCCESS;
    }

    method Register(groupId: int, c: Remote, env: Env) returns (ret: int)
      modifies this
      ensures (Snapshot(), ret) == SensorModel.Register(hal, old(Snapshot()), groupId, c, env)
    {
      if !hal.canRegister {
        return HDF_FAILURE;
      }
      if groupId < TRADITIONAL_SENSOR_TYPE || groupId > MEDICAL_SENSOR_TYPE {
        return SENSOR_INVALID_PARAM;
      }
      if groupId in groupCallbacks {
        var i := FindCallback(groupCallbacks[groupId], c);
        if i == |groupCallbacks[groupId]| {
          var addResult := AddSensorDeathRecipient(c, env.addOk);
          if addResult != SENSOR_SUCCESS {
            return HDF_FAILURE;
          }
          groupCallbacks := groupCallbacks[groupId := groupCallbacks[groupId] + [c]];
        }
        return SENSOR_SUCCESS;
      }
      var addResult := AddSensorDeathRecipient(c, env.addOk);
      if addResult != SENSOR_SUCCESS {
        return HDF_FAILURE;
      }
      ret := env.halRet;
      if ret != SENSOR_SUCCESS {
        var _ := RemoveSensorDeathRecipient(c, env.removeOk);
        return;
      }
      subscribed := subscribed + {groupId};
      groupCallbacks := groupCallbacks[groupId := [c]];
    }

    method Unregister(groupId: int, c: Remote, env: Env) returns (ret: int)
      modifies this
      ensures (Snapshot(), ret) == SensorModel.Unregister(hal, old(Snapshot()), groupId, c, env)
    {
      ret := UnregisterImpl(groupId, c, env);
    }

    method UnregisterImpl(groupId: int, c: Remote, env: Env) returns (ret: int)
      modifies this
      ensures (Snapshot(), ret) == SensorModel.Unregister(hal, old(Snapshot()), groupId, c, env)
    {
      if !hal.canUnregister {
        return HDF_FAILURE;
      }
      if groupId < TRADITIONAL_SENSOR_TYPE || groupId > MEDICAL_SENSOR_TYPE {
        return SENSOR_INVALID_PARAM;
      }
      if groupId !in groupCallbacks {
        return HDF_FAILURE;
      }
      var list := groupCallbacks[groupId];
      var i := FindCallback(list, c);
      if i == |list| {
        return HDF_FAILURE;
      }
      if |list| > CALLBACK_COUNT_THRESHOLD {
        var _ := RemoveSensorDeathRecipient(c, env.removeOk);
        groupCallbacks := groupCallbacks[groupId := list[..i] + list[i + 1..]];
        return SENSOR_SUCCESS;
      }
      ret := env.halRet;
      if ret != SENSOR_SUCCESS {
        return;
      }
      subscribed := subscribed - {groupId};
      var _ := RemoveSensorDeathRecipient(c, env.removeOk);
      groupCallbacks := groupCallbacks - {groupId};
    }

    method OnRemoteDied(promoted: Option<Remote>, env0: Env, env1: Env)
      modifies this
      ensures Snapshot() == Apply(hal, old(Snapshot()), Died(promoted, env0, env1)).0
    {
      if promoted == None {
        return;
      }
      LeaveGroup(TRADITIONAL_SENSOR_TYPE, promoted.value, env0);
      LeaveGroup(MEDICAL_SENSOR_TYPE, promoted.value, env1);
    }

    method LeaveGroup(groupId: int, c: Remote, env: Env)
      modifies this
      ensures Snapshot() == Leave(hal, old(Snapshot()), groupId, c, env).0
    {
      if groupId in groupCallbacks {
        var i := FindCallback(groupCallbacks[groupId], c);
        if i != |groupCallbacks[groupId]| {
          var _ := UnregisterImpl(groupId, c, env);
        }
      }
    }

    /** Both data callbacks; `groupId` is the constant each of them uses. */
    method SensorDataCallback(groupId: int, e: Incoming) returns (ret: int)
      requires e.Valid()
      modifies this
      ensures (Snapshot(), ret) == DataEvent(old(Snapshot()), groupId, e)
      ensures ret == if e.Sample? then SENSOR_SUCCESS else SENSOR_FAILURE
      ensures groupCallbacks == old(groupCallbacks) && old(delivered) <= delivered
      ensures var list := if e.Sample? && groupId in groupCallbacks then groupCallbacks[groupId] else [];
        && |delivered| == |old(delivered)| + |list|
        && forall k :: 0 <= k < |list| ==>
             var d := delivered[|old(delivered)| + k];
             d.to == list[k] && d.group == groupId && Copies(d.event, e.event)
    {
      if !e.Sample? {
        return SENSOR_FAILURE;
      }
      if groupId !in groupCallbacks {
        assert delivered + Deliveries([], groupId, CopyEvent(e.event)) == delivered;
        return SENSOR_SUCCESS;
      }
      var data: seq<UInt8> := [];
      var len := e.event.dataLen;
      while len > 0
        invariant 0 <= len <= e.event.dataLen
        invariant data == e.event.memory[..e.event.dataLen - len]
      {
        data := data + [e.event.memory[|data|]];
        len := len - 1;
      }
      var copy := HdfSensorEvents(e.event.sensorId, e.event.version, e.event.timestamp, e.event.option, e.event.mode,
                                  e.event.dataLen, data);
      var list := groupCallbacks[groupId];
      for k := 0 to |list|
        modifies `delivered
        invariant delivered == old(delivered) + Deliveries(list, groupId, copy)[..k]
      {
        delivered := delivered + [Delivery(list[k], groupId, copy)];
      }
      assert Deliveries(list, groupId, copy)[..|list|] == Deliveries(list, groupId, copy);
      return SENSOR_SUCCESS;
    }
  }

  lemma {:induction false} EraseIsWithout(list: seq<Remote>, i: nat, c: Remote)
    requires i < |list| && list[i] == c && c !in list[..i]
    ensures list[..i] + list[i + 1..] == Without(list, c)
  {
    if i == 0 {
    } else {
      assert list[0] in list[..i];
      var tail := list[1..];
      assert tail[..i - 1] == list[..i][1..];
      EraseIsWithout(tail, i - 1, c);
      hide Without;
      assert list[..i] == [list[0]] + tail[..i - 1] && list[i + 1..] == tail[i..];
      WithoutStep(list, c);
      Assoc([list[0]], tail[..i - 1], tail[i..]);
    }
  }

  lemma WithoutStep(list: seq<Remote>, c: Remote)
    requires list != [] && list[0] != c
    ensures Without(list, c) == [list[0]] + Without(list[1..], c)
  {
  }

  lemma Assoc(a: seq<Remote>, b: seq<Remote>, c: seq<Remote>)
    ensures a + b + c == a + (b + c)
  {
  }
}
