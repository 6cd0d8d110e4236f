# Verified model of the HDI peripheral services

This project models the parts of the peripheral HDI repository that hold real state or real round
trips, and proves what holds of them for every input, every run and every reachable state.

* **Sensor callback registry** (`SensorModel`, `SensorService`, `SensorTheorems`). Clients subscribe
  to one of two sensor groups, may die at any moment, and receive copies of hardware events. Every
  public operation runs under one mutex, so a run is a sequence of atomic steps in any order, with
  arbitrary answers of the hardware layer and of the remote objects.
* **Charger screen** (`ChargerModel`, `ChargerService`, `ChargerHistory`, `ChargerTheorems`). Three
  timers, a key table, the screen and a monotone clock, driven by steps in any order.
* **Codec callbacks** (`Sbuf`, `CodecMessages`, `CodecCallbackProxy`, `CodecCallbackStub`,
  `CodecCallbackTrip`). Messages written by the proxy and parsed by the stub, with the heap blocks
  and message buffers each side uses, for well-formed and malformed messages alike.
* **Capability catalogue** (`CapabilityModel`, `CapabilityService`). Loading, clearing, serving and
  fetching the eight groups of codec capabilities.
* **Audio samples** (`WavModel`, `AudioRender`, `AudioCapture`). Header recognition, the feeding loop
  of the player, and both capture modes of the recorder.
* **Log formats** (`LogFormat`). The in-place removal of privacy placeholders.

`Hdf` holds the return codes and fixed-width numbers they share.

The stateful code is written as classes whose methods are proved to perform a step of a value-level
state machine (`Snapshot() == Step(old(Snapshot()))`); the theorems are then about all runs of that
machine. Calls into code outside the repository (hardware, remote objects, allocation, drivers, the
clock) are parameters: each answer is arbitrary unless a row says otherwise.

## What the code does differently from what one might expect

Each of these has its exact condition and a lemma at a concrete input.

* The recipient table is keyed by the remote object only. A client in two groups keeps at least as
  many attached recipients as memberships, but its table entry disappears when it leaves one of them
  (`TableCompleteStep`, with `Orphans` as the exact guard), and recipients can stay attached for ever.
  Recipients and memberships balance exactly in the runs where no step leaks (`BalancedIff`, with
  `Leaked` as the exact count per step); `LeftoverRecipient` is a run that shows both, and
  `TwoGroupDeathLeaks` says that a client that dies in both groups leaves one behind whenever both
  removals go through.
* `HandlePowerKey` clears `up` on a copy of the key (battery/charger/src/charger_thread.cpp:346 and
  376), so after the first press every later pass wakes the screen (`KeyPassEffect`,
  `ReleaseWakesTwice`, `PressKeepsScreenLit`).
* `UpdateWaitInterval` takes a minimum over one relative and two absolute times (line 78), so it can
  answer "wait for ever" while timers are armed, exactly when the unplug deadline passed one
  millisecond ago (`SleepsForeverArmed`); otherwise it answers zero, in every reachable state, because
  a timer that is ahead implies a running backlight timer, which holds a moment already past
  (`WaitIntervalExact`). The thread's loop ignores a zero while it polls, so it can wait past a
  deadline (`LoopTimeoutExact`, `LoopPassesKeyDeadline`).
* `SetKeyWait` keeps the earlier of two deadlines even if it belongs to a press that is over. A new
  press's deadline is on the timer exactly when none earlier was; an earlier one stays in its place,
  and once that has expired no deadline is left (`RebootScheduledIff`, `ForgottenDeadline`).
* The stub frees every array block, but the block that the buffer decoder allocates for inline
  contents is not freed by the stub, whether or not the rest of the message is well formed
  (`RequestRetains` is the exact condition, `OneByteStays` an instance of both).
* Loading the catalogue adds to the total instead of setting it, so the total is right exactly when
  it started from zero (`Load`, `LoadTwice`). A failing load leaves its traces (`Abandoned`).
* Asking for more capabilities than there are fails, and still fills in all there are
  (`GetComponentCapabilityList`).
* A RIFF size of 2^31 or more turns negative and is passed on as a huge length, so the first read
  takes all that the file has left; it stays within the frame exactly when the frame holds that much
  (`FirstReadFitsIff`, `WideHeaderReadsAll`).
* Frames of 24 and 32 bit samples are sized as if they had 16 bits (`BufferSizeExact`, `ShortFrame`).
* The polling recorder need not stop when answers are shorter than one period: a guaranteed minimum
  answer makes it stop exactly when it is at least a period (`EndsIffPeriod`).
* `ReplaceHolder` skips the character after each deletion, so of two adjacent placeholders one
  survives (`AdjacentSurvives`), and of a run every other one (`RunSurvives`); it is right exactly when no two are adjacent
  (`StripDeletesAllIff`), as in formats where each follows a '%' (`LedFormatsAreCleaned`).

## Model

| member | source | states |
|---|---|---|
| SensorService.SensorImpl.Register | sensor/hdi_service/sensor_impl.cpp:265-318 | performs the registration step on lists, recipient table and hardware subscription, with the code's return value, for every answer of the environment |
| SensorService.SensorImpl.Unregister | sensor/hdi_service/sensor_impl.cpp:320-328 | performs the removal step |
| SensorService.SensorImpl.UnregisterImpl | sensor/hdi_service/sensor_impl.cpp:330-391 | performs the removal step, including the last-subscriber case and its failure |
| SensorService.SensorImpl.AddSensorDeathRecipient | sensor/hdi_service/sensor_impl.cpp:393-403 | attaches a fresh recipient and overwrites the client's table entry, or changes nothing but the identity counter on failure |
| SensorService.SensorImpl.RemoveSensorDeathRecipient | sensor/hdi_service/sensor_impl.cpp:405-419 | detaches the recipient the table names and drops the entry even when detaching fails |
| SensorService.SensorImpl.OnRemoteDied | sensor/hdi_service/sensor_impl.cpp:421-461 | performs the obituary step: leave the traditional group, then the medical one |
| SensorService.SensorImpl.SensorDataCallback | sensor/hdi_service/sensor_impl.cpp:36-104 | one delivery to every subscriber of the group in list order, each with sensorId, version, timestamp, option, mode and dataLen of the record and its first dataLen bytes; errors deliver nothing; the return value |
| SensorService.SensorImpl.FindCallback | sensor/hdi_service/sensor_impl.cpp:348-356 | the first match, and erasing there removes exactly that first occurrence |
| SensorTheorems.StepKeeps | sensor/hdi_service/sensor_impl.cpp:265-461 | every step keeps the invariant, and raises each client's surplus of attached recipients over memberships by exactly what it leaks |
| SensorTheorems.ReachableInv | sensor/hdi_service/sensor_impl.cpp:278-317 | in every reachable state a group is present iff the hardware is subscribed for it, its list is non-empty without repetition, table entries name attached recipients of registered clients, and every client has a recipient per group it is in |
| SensorTheorems.SurplusStep | sensor/hdi_service/sensor_impl.cpp:286-313 | a step raises the number of recipients over memberships by exactly what it leaks, so keeps it iff its guard for leaking is false |
| SensorTheorems.AttachedIsJoinedAndLeaked | sensor/hdi_service/sensor_impl.cpp:393-419 | in every reachable state a client has one recipient per group it is in plus exactly what the steps so far have leaked |
| SensorTheorems.BalancedIff | sensor/hdi_service/sensor_impl.cpp:363-419 | recipients equal memberships after a run iff no step of the run leaked |
| SensorTheorems.SurplusMonotone | sensor/hdi_service/sensor_impl.cpp:384-419 | from any point of a run on the surplus never shrinks, and stays iff no later step leaks |
| SensorTheorems.TwoGroupDeathLeaks | sensor/hdi_service/sensor_impl.cpp:430-460 | a client that dies in both groups keeps a recipient attached whenever both removals go through |
| SensorTheorems.LeftoverRecipient | sensor/hdi_service/sensor_impl.cpp:401-413 | after joining both groups and leaving one a client is registered without table entry; after leaving both one recipient is still attached |
| SensorTheorems.RegisterMembers | sensor/hdi_service/sensor_impl.cpp:278-317 | a registration appends its client to its own group iff it succeeds and is new there; success implies membership |
| SensorTheorems.UnregisterMembers | sensor/hdi_service/sensor_impl.cpp:342-390 | a removal takes out exactly its own client from its own group iff it succeeds, keeping the others in order |
| SensorTheorems.RegisterReturns | sensor/hdi_service/sensor_impl.cpp:265-318 | exactly when a registration succeeds, and its code in every other case |
| SensorTheorems.UnregisterReturns | sensor/hdi_service/sensor_impl.cpp:330-391 | exactly when a removal succeeds, and its code in every other case |
| SensorTheorems.ErrorsLeaveListsAlone | sensor/hdi_service/sensor_impl.cpp:265-382 | a failing registration leaves all lists unchanged, a failing removal leaves everything unchanged |
| SensorTheorems.LeaveFacts | sensor/hdi_service/sensor_impl.cpp:430-460 | one half of an obituary goes through iff the client is there and the group has others or the hardware agrees |
| SensorTheorems.ObituaryRemoves | sensor/hdi_service/sensor_impl.cpp:421-461 | the dead client is out of exactly the groups whose removal goes through; everyone else stays, in order |
| SensorTheorems.ObituaryFinal | sensor/hdi_service/sensor_impl.cpp:421-461 | with a cooperating hardware layer the dead client is in no group and a further obituary is a no-op |
| SensorTheorems.TableCompleteStep | sensor/hdi_service/sensor_impl.cpp:286-316 | a table that covers all registered clients keeps doing so across a step iff the step is not an orphaning one |
| SensorTheorems.TableIsRegistered | sensor/hdi_service/sensor_impl.cpp:363-413 | in runs where no client asks for two groups the table's keys are exactly the registered clients |
| SensorTheorems.TouchStep | sensor/hdi_service/sensor_impl.cpp:393-419 | each step adds, removes or leaves alone a client's table entry exactly as its guards say |
| SensorTheorems.EntryIff | sensor/hdi_service/sensor_impl.cpp:286-316 | in every run a client has a table entry iff the last step that touched it was an add |
| SensorTheorems.MembershipIsSubscription | sensor/hdi_service/sensor_impl.cpp:265-461 | membership in a list equals "joined and not quit since" read off the reported outcomes alone |
| SensorTheorems.DeliveryExact | sensor/hdi_service/sensor_impl.cpp:36-104 | in every run each client receives through each group exactly the non-null records that arrived while it was subscribed, each once, in order, field by field and byte by byte |
| ChargerService.ChargerThread.UpdateWaitInterval | battery/charger/src/charger_thread.cpp:71-98 | the sleep computed from the three timers, with the relative value at line 78 |
| ChargerService.ChargerThread.CycleMatters | battery/charger/src/charger_thread.cpp:165-177 | the first cycle arms the backlight timer; each takes over the reported charge state and the polling interval that goes with it |
| ChargerService.ChargerThread.UpdateEpollInterval | battery/interfaces/hdi_service/src/battery_thread.cpp:121-131 | two seconds while charging, otherwise no polling |
| ChargerService.ChargerThread.NextTimeout | battery/interfaces/hdi_service/src/battery_thread.cpp:341-345 | the timeout of the loop from the polling interval and the timers |
| ChargerService.ChargerThread.SetKeyWait | battery/charger/src/charger_thread.cpp:252-258 | keeps the earlier of the old and the new deadline |
| ChargerService.ChargerThread.HandleChargingState | battery/charger/src/charger_thread.cpp:260-293 | performs the charging step |
| ChargerService.ChargerThread.HandleScreenState | battery/charger/src/charger_thread.cpp:295-303 | performs the screen step |
| ChargerService.ChargerThread.SetKeyState | battery/charger/src/charger_thread.cpp:305-329 | performs the key-event step: codes beyond the table and repeats change nothing |
| ChargerService.ChargerThread.HandlePowerKeyState | battery/charger/src/charger_thread.cpp:331-341 | performs the key pass, dropping an expired deadline |
| ChargerService.ChargerThread.HandlePowerKey | battery/charger/src/charger_thread.cpp:343-377 | reboot, wake or nothing for the power key; the key table is unchanged |
| ChargerService.ChargerThread.HandleStates | battery/charger/src/charger_thread.cpp:64-69 | the three passes in order, each at its own clock reading |
| ChargerTheorems.ReachableInv | battery/charger/src/charger_thread.cpp:252-377 | bounds on every timer and stamp against the clock in every reachable state |
| ChargerTheorems.WaitIntervalExact | battery/charger/src/charger_thread.cpp:71-98 | in every reachable state the result is -1 iff nothing is armed or the unplug deadline was one millisecond ago, and 0 otherwise |
| ChargerTheorems.WaitIntervalBounds | battery/charger/src/charger_thread.cpp:71-98 | so it is in [-1, 2000] and unless -1 never sleeps past an armed timer that is ahead |
| ChargerTheorems.SleepsForeverArmed | battery/charger/src/charger_thread.cpp:77-95 | one charging pass at 1 ms, read at 2002 ms: -1 with the unplug timer armed |
| ChargerTheorems.LoopTimeoutExact | battery/interfaces/hdi_service/src/battery_thread.cpp:341-347 | in every reachable state the loop waits 2000 ms while it polls, otherwise for ever or not at all, exactly when; and it waits past an armed key or unplug timer iff it does not poll and the unplug timer expired a millisecond ago, or it polls and the timer ends before the poll |
| ChargerTheorems.LoopPassesKeyDeadline | battery/interfaces/hdi_service/src/battery_thread.cpp:341-345 | charging, screen lit, key held since 2 ms: at 500 ms the loop waits 2000 ms, past the deadline at 2002 |
| ChargerTheorems.PollsIffCharging | battery/interfaces/hdi_service/src/battery_thread.cpp:121-131 | in every run the polling interval is 2000 iff the last cycle saw a charger at work, and -1 otherwise |
| ChargerTheorems.CycleWakesIff | battery/charger/src/charger_thread.cpp:165-170 | a cycle restarts the backlight timer iff it is the first; reports and key events have no effect of their own |
| ChargerTheorems.LitScreenIsTimed | battery/charger/src/charger_thread.cpp:165-170 | once a cycle has run, a lit screen has its backlight timer armed |
| ChargerTheorems.RebootScheduledIff | battery/charger/src/charger_thread.cpp:252-258 | after a pass over a held key its deadline is on the timer iff no earlier one was; an earlier one stays iff it has not expired; none is left iff it had |
| ChargerTheorems.ForgottenDeadline | battery/charger/src/charger_thread.cpp:252-258 | a held key whose deadline is 3500: a pass at 1600 leaves 2001 on the timer, a pass at 2100 leaves none |
| ChargerTheorems.KeyTimerPass | battery/charger/src/charger_thread.cpp:331-341 | a pass over a key that is not waiting drops an expired deadline and leaves any other |
| ChargerTheorems.KeyWaitIsDeadline | battery/charger/src/charger_thread.cpp:252-258 | in every run an armed key timer is two seconds after some press, and right after a key pass it is not in the past |
| ChargerTheorems.ShutdownIff | battery/charger/src/charger_thread.cpp:260-293 | a charging pass asks for shutdown iff it sees the charger unplugged, some pass at least 2000 ms earlier did, and so did every pass in between |
| ChargerTheorems.ChargingWakesIff | battery/charger/src/charger_thread.cpp:268-290 | a charging pass lights the screen and restarts the backlight timer iff its reading differs from that of the pass before |
| ChargerTheorems.PluginWaitIsSince | battery/charger/src/charger_thread.cpp:268-291 | the unplug timer is the start of the current unplugged stretch plus 2000 |
| ChargerTheorems.KeyStep | battery/charger/src/charger_thread.cpp:305-329 | what one event does to the entry of any key: an edge marks it, a press stamps it, repeats, releases and other keys leave the stamp |
| ChargerTheorems.KeyIsSince | battery/charger/src/charger_thread.cpp:305-329 | in every run each key is down and stamped since the start of its current stretch of presses, and marked from the first press on |
| ChargerTheorems.KeyPassEffect | battery/charger/src/charger_thread.cpp:343-377 | a key pass reboots iff the key has been held at least 2000 ms, otherwise wakes iff the key was ever pressed |
| ChargerTheorems.ReleaseWakesTwice | battery/charger/src/charger_thread.cpp:367-376 | press, release and two passes: both wake |
| ChargerTheorems.BacklightIsTimer | battery/charger/src/charger_thread.cpp:270-301 | the backlight timer is determined by the history of wakes and timed screen-offs |
| ChargerTheorems.ScreenOffIff | battery/charger/src/charger_thread.cpp:295-303 | a screen pass times out iff a wake is pending and every earlier wake is at least 10000 ms old |
| ChargerTheorems.ScreenDarkIff | battery/charger/src/charger_thread.cpp:295-373 | the screen is dark iff some step put it out and nothing has lit it since |
| ChargerTheorems.ScreenStepEffect | battery/charger/src/charger_thread.cpp:271-370 | exactly which effects light the screen, put it out, or leave it |
| ChargerTheorems.PressKeepsScreenLit | battery/charger/src/charger_thread.cpp:366-376 | after any press, a screen pass within ten seconds of a later key pass never times out |
| ChargerHistory.SinceIsHeld | battery/charger/src/charger_thread.cpp:266-291 | a stretch of readings began by a limit iff some reading by then was never followed by an opposite one |
| ChargerHistory.ExpiredIff | battery/charger/src/charger_thread.cpp:297-301 | the timer has run out iff a wake is pending and all wakes are old enough |
| CodecMessages.ReadArrayIff | codec/hal/src/codec_callback_type_stub.c:52-82 | an array is parsed iff the message starts with its encoding |
| CodecMessages.ReadInfoEncoded | codec/hal/src/codec_callback_type_stub.c:84-111 | encoded event information parses back to itself, leaving the rest |
| CodecMessages.ReadInfoExact | codec/hal/src/codec_callback_type_stub.c:84-111 | whatever parses as event information is its encoding |
| CodecMessages.ReadHeadIff | codec/hal/src/codec_types.c:156-223 | the buffer's leading fields and contents parse iff encoded, in the three payload forms |
| CodecMessages.ReadBufferIff | codec/hal/src/codec_types.c:200-263 | a codec buffer is parsed iff the message starts with its encoding |
| CodecMessages.RequestIff | codec/hal/src/codec_callback_type_stub.c:235-256 | the stub understands a request as a call iff code and message prefix are those the proxy sends for it |
| CodecMessages.AcceptsIff | codec/hal/src/codec_callback_type_stub.c:119-256 | a request is accepted iff it starts with some message of the proxy for that code |
| CodecMessages.StubDecodesProxy | codec/hal/src/codec_callback_type_proxy.c:93-232 | every call decodes to itself, and no two calls of one code share a message |
| CodecMessages.EventLayout | codec/hal/src/codec_callback_type_proxy.c:53-118 | an event message item by item, and its code |
| CodecMessages.BufferLayout | codec/hal/src/codec_types.c:65-154 | a buffer-done message item by item, how many items the contents take by type and length, and the codes |
| CodecCallbackStub.Stub.FreeMem | codec/hal/src/codec_callback_type_stub.c:45-50 | frees a live block of positive length, once |
| CodecCallbackStub.Stub.ReadArray | codec/hal/src/codec_callback_type_stub.c:52-82 | succeeds iff the array parses and its block is granted; yields its contents; holds no block on failure, and which error it is |
| CodecCallbackStub.Stub.ReadEventInfo | codec/hal/src/codec_callback_type_stub.c:84-111 | both arrays and both words, or nothing allocated |
| CodecCallbackStub.Stub.SerStubEventHandler | codec/hal/src/codec_callback_type_stub.c:119-143 | calls the handler with the parsed event iff it parses and memory is granted; every array block is freed on every path |
| CodecCallbackStub.Stub.SerStubBufferDone | codec/hal/src/codec_callback_type_stub.c:145-233 | the same for both buffer-done requests; exactly one block stays allocated, with the inline bytes in it, iff inline contents were filled in |
| CodecCallbackStub.Stub.CodecBufferUnmarshalling | codec/hal/src/codec_types.c:156-198 | contents by type and length; the inline block is freed when the bytes run out |
| CodecCallbackStub.Stub.OmxCodecBufferBlockUnmarshalling | codec/hal/src/codec_types.c:200-263 | yields the parsed buffer; a filled inline block stays even if a later field is missing |
| CodecCallbackStub.Stub.OnRemoteRequest | codec/hal/src/codec_callback_type_stub.c:235-256 | for every code and message, calls the handler iff the request parses and memory is granted; what stays allocated is nothing, or the one block with the inline bytes, with the exact condition |
| CodecCallbackStub.OneByteStays | codec/hal/src/codec_types.c:175-194 | a request with one inline byte, and the same request cut off after it, both leave the block behind |
| CodecCallbackProxy.WriteArray | codec/hal/src/codec_callback_type_proxy.c:53-66 | appends the array's encoding iff it fits |
| CodecCallbackProxy.WriteEventInfo | codec/hal/src/codec_callback_type_proxy.c:68-91 | appends the event information's encoding iff it fits |
| CodecCallbackProxy.CodecBufferMarshalling | codec/hal/src/codec_types.c:65-95 | appends type, length and contents iff they fit |
| CodecCallbackProxy.OmxCodecBufferBlockMarshalling | codec/hal/src/codec_types.c:97-154 | appends the buffer's encoding iff it fits |
| CodecCallbackProxy.BuildMessage | codec/hal/src/codec_callback_type_proxy.c:98-123 | both buffers with the call's message iff they are granted and it fits; none outstanding otherwise |
| CodecCallbackTrip.ProxyCall | codec/hal/src/codec_callback_type_proxy.c:41-51 | an error without remote, the dispatcher's own failure, or what the stub does with the request and answers |
| CodecCallbackTrip.ProxySend | codec/hal/src/codec_callback_type_proxy.c:93-232 | end to end, the handler gets exactly the call made on the proxy, once, and its answer comes back, iff the buffers are granted, the message fits, the link works and the stub gets its memory; every buffer is recycled on every path, and a block stays iff the call gets through with inline contents |
| CapabilityModel.ReadCapEncoded | codec/hal/src/codec_types.c:543-664 | a capability parses back to itself, leaving the rest |
| CapabilityModel.CapLayout | codec/hal/src/codec_types.c:543-600 | a record's 297 items by index |
| CapabilityModel.ReadSomeEncoded | codec/hal/src/codec_component_manager_proxy.c:110-116 | reading up to n entries of a served catalogue yields the first n, or all there are |
| CapabilityModel.ReadCapsEncoded | codec/hal/src/codec_component_manager_proxy.c:110-116 | reading exactly n entries of a served catalogue yields the first n, and fails iff fewer were written |
| CapabilityService.CapabilityMarshalling | codec/hal/src/codec_types.c:543-600 | appends the capability's encoding iff it fits |
| CapabilityService.CapabilityUnmarshalling | codec/hal/src/codec_types.c:602-664 | reads exactly what parses as a capability; the caller's record is overwritten field by field and element by element as far as the message goes |
| CapabilityModel.OverwriteAll | codec/hal/src/codec_types.c:602-664 | when everything can be read, nothing of the old record is left |
| CapabilityModel.CutOverwrites | codec/hal/src/codec_types.c:602-664 | a message cut off inside a record overwrites exactly the fields and elements before the cut |
| CapabilityService.Catalogue.Load | codec/hal/src/codec_config_parser.c:320-373 | succeeds iff no group is missing and memory is granted; then every group holds its children, and the total is right iff it started from zero; a failing load leaves exactly the groups and total described by `Abandoned` |
| CapabilityService.Catalogue.AllocateGroups | codec/hal/src/codec_config_parser.c:344-362 | blocks of the right size for all present groups and the raised total, or the state at the first refused allocation |
| CapabilityService.Catalogue.FillGroups | codec/hal/src/codec_config_parser.c:364-369 | the children of every group, or of those before the first missing node |
| CapabilityService.LoadTwice | codec/hal/src/codec_config_parser.c:360 | one entry loaded twice without clearing: total 2, one entry served |
| CapabilityService.Catalogue.Clear | codec/hal/src/codec_config_parser.c:375-401 | nothing served, total zero, not initialised |
| CapabilityService.Catalogue.AllCapabilityMarshalling | codec/hal/src/codec_component_capability_config.c:26-51 | appends all entries, hardware before software, video before audio, encoders before decoders, iff they fit |
| CapabilityService.Catalogue.HandleGetNumCmd | codec/hal/src/codec_component_capability_config.c:73-86 | writes the total iff initialised and it fits |
| CapabilityService.Catalogue.HandleGetAllCapablityListCmd | codec/hal/src/codec_component_capability_config.c:88-101 | writes the whole catalogue iff initialised and it fits |
| CapabilityService.CatalogueLength | codec/hal/src/codec_component_capability_config.c:32-37 | serving order lists every entry of the eight groups |
| CapabilityService.GroupStands | codec/hal/src/codec_component_capability_config.c:32-37 | each group's entries stand together behind those of all groups ranked below it: hardware before software, then video before audio, then encoders before decoders |
| CapabilityService.GetComponentNum | codec/hal/src/codec_component_manager_proxy.c:42-77 | the server's total, or failure when anything on the way fails |
| CapabilityService.GetComponentCapabilityList | codec/hal/src/codec_component_manager_proxy.c:79-120 | succeeds iff 0 < count <= entries served (and the exchange works); the list starts with the first count entries, or with all there are when too many are asked for, each at the place its group's rank gives it, and is otherwise untouched |
| CapabilityService.FillList | codec/hal/src/codec_component_manager_proxy.c:110-116 | for any reply: succeeds iff count entries parse; the list holds the entries that parse, the next one overwritten as far as possible if one is lacking, and is otherwise untouched |
| CapabilityService.FetchAll | codec/hal/src/codec_component_manager_proxy.c:42-120 | asking for as many entries as announced returns the whole catalogue, unless it is empty |
| CapabilityService.LoadAndFetch | codec/hal/src/codec_component_capability_config.c:63-101 | what a fresh catalogue loads from a configuration is what a client fetches: every child, at the place its group's rank gives it |
| WavModel.LowWord | audio/sample/framework_render.c:246-251 | folding a tag of four or more characters leaves the little-endian word of its first four |
| WavModel.FourDigitsInjective | audio/sample/framework_render.c:269-272 | equal words have equal bytes |
| AudioRender.StringToInt | audio/sample/framework_render.c:241-252 | the 32-bit value for every ASCII string, and the little-endian word of the first four characters when there are four |
| AudioRender.BufferSizeExact | audio/sample/framework_render.c:329-344 | the buffer size of an accepted header never wraps and stays below 2^31; it is a whole period iff samples have 8 or 16 bits or there are no channels |
| AudioRender.ShortFrame | audio/sample/framework_render.c:329-344 | one channel of 24-bit samples gets 8192 of 12288 bytes |
| WavModel.HeaderLayout | audio/sample/framework_render.c:71-85 | every field of the header as the little-endian number of its bytes |
| AudioRender.Player.WavHeadAnalysis | audio/sample/framework_render.c:253-296 | accepts exactly the files tagged RIFF, WAVE and data at the fixed places with 8, 16, 24 or 32 bits; channels, sample rate and format are those at bytes 22, 24 and 34 |
| AudioRender.Player.InitPlayingAudioParam | audio/sample/framework_render.c:549-564 | the frame size follows the attributes iff the frame is allocated |
| AudioRender.FirstReadFitsIff | audio/sample/framework_render.c:526-527 | the first read stays within the frame iff the RIFF size is below 2^31 or the frame holds what the file has left |
| AudioRender.WideHeaderReadsAll | audio/sample/framework_render.c:515-527 | RIFF size 2^31, frame 8192, 8193 bytes left: the first read takes 8193 |
| AudioRender.Player.FrameStart | audio/sample/framework_render.c:504-547 | whenever no read can overrun the frame: terminates; the chunks are consecutive stretches of the file after the header, non-empty, within the frame, at most the RIFF size together; all of it if nothing interferes |
| AudioRender.Player.PlayingAudioFiles | audio/sample/framework_render.c:566-618 | success iff no file is open already, the file is playable and render object, allocation and thread cooperate; then sample rate, channels and frame size are those of the file's bytes and exactly the file's data, up to the RIFF size, is offered, and nothing otherwise |
| AudioCapture.CountBound | audio/sample/framework_capture.c:480-500 | the kilobyte counter never exceeds 15360 + 16 |
| AudioCapture.CountIsWritten | audio/sample/framework_capture.c:493-500 | the kilobyte counter against the bytes written: never more, and less by at most 1023 bytes per successful answer |
| AudioCapture.CountIsExact | audio/sample/framework_capture.c:493-500 | with answers of whole periods the file has gained exactly 1024 bytes per counted kilobyte |
| AudioCapture.WrittenHolds | audio/sample/framework_capture.c:493-494 | each successful answer stands right behind what was written before it; failed ones leave no trace |
| AudioCapture.FailsIsRun | audio/sample/framework_capture.c:482-493 | the failure count is the length of the run of failures that ends here |
| AudioCapture.GivesUpIff | audio/sample/framework_capture.c:482-492 | the loop gives up iff this attempt and all of the 300000 before it failed |
| AudioCapture.EnoughDataEnds | audio/sample/framework_capture.c:480-500 | the polling loop ends whenever each successful answer carries at least 1024 bytes |
| AudioCapture.ShortAnswersNeverEnd | audio/sample/framework_capture.c:480-500 | with successful answers below 1024 bytes and nobody closing, it never ends |
| AudioCapture.EndsIffPeriod | audio/sample/framework_capture.c:480-500 | every driver whose successful answers carry at least m bytes makes the loop end iff m is at least 1024 |
| AudioCapture.Recorder.FrameStartCapture | audio/sample/framework_capture.c:460-510 | for every driver and any number of watched attempts: ended iff one of them ends it, with the first such one; the file has gained exactly the successful answers so far, in order, as many bytes as the counter says up to 1023 per answer, and over 15360 kilobytes when it ends on size; the result says whether it gave up |
| AudioCapture.BacklogLaw | audio/sample/framework_capture.c:268-313 | over every sequence of notifications the backlog is accepted minus captured, never negative, and the file holds exactly the successful answers in order |
| AudioCapture.GoodHolds | audio/sample/framework_capture.c:302-308 | which answers count, each right behind those before it |
| AudioCapture.KilobytesOfBytes | audio/sample/framework_capture.c:305-307 | the listener's kilobytes against the bytes captured |
| AudioCapture.Recorder.AudioPnpSvcEvenReceived | audio/sample/framework_capture.c:268-316 | performs one notification: count it, then retry the whole backlog |
| AudioCapture.Recorder.RegisterListen | audio/sample/framework_capture.c:318-345 | resets both counters once a capture is given, keeps the file, and answers 0 iff the listener could be registered |
| LogFormat.Find | battery/utils/include/battery_log.h:119 | the first occurrence at or after an index, or none |
| LogFormat.ReplaceHolder | battery/utils/include/battery_log.h:115-123 | terminates for every text and placeholder and computes `Strip` |
| LogFormat.StripDeletesAllIff | battery/utils/include/battery_log.h:115-123 | every placeholder is deleted iff no two of them are adjacent |
| LogFormat.DeleteAllIsUncovered | battery/utils/include/battery_log.h:119-122 | the reference deletes exactly the characters that lie in some occurrence |
| LogFormat.AdjacentSurvives | battery/utils/include/battery_log.h:120-121 | of two adjacent placeholders one survives |
| LogFormat.RunSurvives | battery/utils/include/battery_log.h:119-122 | of a run of n adjacent placeholders n/2 survive |
| LogFormat.LedPlaceholdersAreApart | battery/utils/include/battery_log.h:115-123 | placeholders that each follow a fixed other character are never adjacent |
| LogFormat.NothingAppears | battery/utils/include/battery_log.h:115-123 | deleting such placeholders brings no word together that was not there |
| LogFormat.LedFormatsAreCleaned | battery/utils/include/battery_log.h:125-131 | a format whose placeholders all follow a '%' comes out free of both kinds, with everything else kept |
| LogFormat.TwoPassesIff | battery/utils/include/battery_log.h:128-129 | both passes together delete everything iff each of them does |
| LogFormat.ReplaceHolders | battery/utils/include/battery_log.h:125-131 | the framed text, exactly when all placeholders are gone, and that they are in formats where each follows a '%' |

## Left out

- Camera: only interfaces and a menu-driven demo, so there is no behaviour to decide a property.
- Audio interface headers and `framework_event.c`: function tables and switches that only print.
- Menus, adapter loading, pause and resume in the audio samples, and floating-point volume.
- Display HAL, hot-plug handling, driver bind, init and release code, and one-line forwarding services.
- `codec/hdi_service/codec_proxy/codec_callback_proxy.c`: its matching stub is not part of this model.
- `SensorImpl::~SensorImpl` and the pass-through setters of the sensor service.
- Backlight, LED, vibrator and animation access, and the capacity and temperature shutdown checks: only the screen state is kept.
- Recycling of message buffers in the component manager proxy: its token-failure paths return without recycling, so the model has one `ready` flag for obtaining both buffers and writing the token.
- Null-pointer guards on handles, files, nodes and render objects, and opening the file, which only return an error before anything happens.
- Message buffers are sequences of typed items with a capacity in items, not bytes; a file descriptor written is never negative.
- Clock readings leave room to add a timeout below 2^63 (`Millis`), and key codes are not negative, since the code would index outside its table.
- ChargerService.ChargerThread.UpdateBatteryInfo: models only the charge state the program takes over, because the rest is display and shutdown checks.
- ChargerService.ChargerThread.CycleMatters: does not keep the battery capacity, which only labels the animation and feeds the capacity check.
- ChargerService.ChargerThread.UpdateEpollInterval: does not reprogram the kernel timer whose events only cause another battery report.
- SensorService.SensorImpl.SensorDataCallback: stands for both data callbacks, which differ only in their group constant.
- CodecCallbackStub.Stub.SerStubBufferDone: stands for both buffer-done requests, which differ only in the handler they call.
- CodecCallbackTrip.ProxySend: stands for the three proxy calls, which differ only in body and code; a buffer whose length disagrees with its payload is not a value of the model.
- CapabilityService.Catalogue.Load: children of a node are taken as parsed records; the attribute parsing of one node is not part of this model, and the total must fit 32 bits.
- CapabilityService.Catalogue.HandleGetNumCmd: requires a total that fits the 32-bit word it is written as.
- AudioRender.StringToInt: characters are ASCII, since beyond that the value depends on the signedness of `char`.
- AudioRender.Player.FrameStart: requires `FrameSuffices`, because the program has no defined behaviour once a read overruns the frame; `FirstReadFitsIff` shows that this is all it requires; pausing is not modelled.
- AudioRender.Player.PlayingAudioFiles: requires the same of playable files.
- AudioCapture.Recorder.FrameStartCapture: is watched for a given number of attempts, because the loop need not end; the number is arbitrary, and `EnoughDataEnds` supplies one by which it has ended whenever successful answers carry at least 1024 bytes.
- AudioCapture counters are unbounded integers, and `fwrite` is taken to write all it is given.
