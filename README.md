# RDK-B Power Manager: power-state core

This project models the power-state manager of the RDK-B power manager
daemon (`source/pwrMgr.c`). The daemon registers with the sysevent daemon,
subscribes to the `rdkb-power-transition` event and, for each notification
whose value is `POWER_TRANS_AC` or `POWER_TRANS_BATTERY`, launches the RDK-B
power manager script with that value as its argument and records the new
power state in `gCurPowerState`.

The model has two modules:

- `Decoder` (`decoder.dfy`): the power states (`None`, `AC`, `Batt` for
  `PWRMGR_STATE_NONE`, `PWRMGR_STATE_AC`, `PWRMGR_STATE_BATT`), the table
  `powerStateArr`, the string a C function sees in a NUL-terminated buffer,
  and the lookup loop that converts a value string into a state.
- `Manager` (`manager.dfy`): the class `PowerManager`, whose fields are the
  current state `cur` (`gCurPowerState`) and `actions`, the in-order list of
  shell launches made through `system()` (the power manager script with its
  argument, or a start of the sysevent daemon). Its methods model
  `PwrMgr_SetDefaults`, `PwrMgr_StateTranstion`, one iteration and the loop
  of `PwrMgr_sysevent_handler`, the retry loop of `PwrMgr_Register_sysevent`
  and the status of `PwrMgr_Init`. Each method is proved against
  specification functions (`NextState`, `ScriptFor`, `HandleState`,
  `RunState`, `RunLaunches`, `LastAttempt`, `Registered`), and the lemmas
  beside them state what those functions promise.

The sysevent library is replaced by inputs: the descriptor returned by the
k-th `sysevent_open` attempt is `open(k)`, and the notifications the handler
receives are a sequence of `Notification(err, name, val, vallen)` values,
where `name` and `val` are the character buffers the library fills in.
String comparisons made with `strcmp` compare the part of a buffer before
its first NUL (`CString`).

Notes on the code:

- Registration makes up to seven `sysevent_open` attempts: the first one
  plus `max_retries = 6` retries (source/pwrMgr.c:204-226).
- The values named in the file's header comment (source/pwrMgr.c:33-38),
  `ACTIVE_ON_AC` and `ACTIVE_ON_BATTERY`, are not in the table, so the code
  ignores them like any other unknown value.
- The event name is checked by the handler (source/pwrMgr.c:180), not by the
  value conversion; the table's `NONE` entry does match the string `"NONE"`,
  which then takes the same do-nothing branch as an unmatched value.
- The static `gCurPowerState` starts at zero, and the model takes that zero
  to be `PWRMGR_STATE_NONE`. This is an assumption: the enumeration is
  declared in `pwrMgr.h`, which is not part of this model; it rests on the
  table listing `PWRMGR_STATE_NONE` first and on the source indexing the
  table by state (source/pwrMgr.c:129, 135). The state becomes AC only once
  registration succeeds.

## Model

| member | source | states |
|---|---|---|
| Decoder.CString | source/pwrMgr.c:180 | the string `strcmp` compares is a prefix of the buffer, holds no NUL, and ends at the buffer's first NUL when there is one |
| Decoder.CStringOfTerminated | source/pwrMgr.c:180 | a buffer holding a string followed by NUL reads back as that string, whatever follows the NUL |
| Decoder.FirstMatchAt | source/pwrMgr.c:118-124 | the table search yields the state of the first entry whose text equals the value |
| Decoder.FirstMatchAbsent | source/pwrMgr.c:114-124 | when no entry's text equals the value, the search leaves the state at `PWRMGR_STATE_NONE` |
| Decoder.DecodeExact | source/pwrMgr.c:90-124 | conversion is exact and case-sensitive: AC if and only if the value is `POWER_TRANS_AC`, Batt if and only if it is `POWER_TRANS_BATTERY`, None for every other value (`NONE` and the empty string included) |
| Decoder.StateTextRoundTrip | source/pwrMgr.c:90-92 | every state's table text converts back to that state |
| Decoder.LookupState | source/pwrMgr.c:114-124 | the index loop with `break`, bounded by the three table entries, returns the converted state of the value |
| Manager.ValueTestIff | source/pwrMgr.c:182 | the test on the first character of the value buffer holds if and only if the value string handed to the transition step is non-empty |
| Manager.TransitionPolicy | source/pwrMgr.c:127-145 | `POWER_TRANS_AC` and `POWER_TRANS_BATTERY` each launch the script once with that argument and set their state whatever the current state is; any other value leaves the state and launches nothing |
| Manager.UnlistedValuesIgnored | source/pwrMgr.c:140-142 | `ACTIVE_ON_AC`, `ACTIVE_ON_BATTERY`, `NONE`, the empty string and a lower-case spelling change nothing and launch nothing |
| Manager.Requests | source/pwrMgr.c:180-183 | the transitions a run requests are the accepted values that name AC or Batt, never None |
| Manager.RunLaunchesFollowRequests | source/pwrMgr.c:161-191 | the launches of a run are one script launch per requested transition, in order, with that transition's text as argument |
| Manager.RunStateIsLastRequest | source/pwrMgr.c:161-191 | the state after a run is the last requested transition, or the starting state when none was requested |
| Manager.LaunchArgumentIsValue | source/pwrMgr.c:128-139 | for an accepted notification whose value names a transition, the one launch made is the power script with that very value as argument |
| Manager.LaunchArgumentsDecode | source/pwrMgr.c:128-139 | every launch of a run is the power script, and its argument converts back to the transition requested at the same position |
| Manager.TransitionNotificationAccepted | source/pwrMgr.c:170-183 | a `rdkb-power-transition` notification with a non-empty NUL-terminated value passes the handler's tests and hands that value to the transition step |
| Manager.BatteryOtherAcScenario | source/pwrMgr.c:161-191 | battery, an ignored notification, then AC, from the default state: two launches, battery then AC, and the device ends on AC |
| Manager.RepeatsNotSuppressed | source/pwrMgr.c:134-139 | a battery notification received twice while on battery launches the script twice and stays on battery |
| Manager.LastAttempt | source/pwrMgr.c:208-226 | the last attempt is the first successful one, or the seventh; every earlier attempt failed |
| Manager.LastAttemptIs | source/pwrMgr.c:208-226 | when attempts k to n - 1 fail and attempt n succeeds or is the seventh, attempt n is the last one made |
| Manager.RegistrationBounded | source/pwrMgr.c:204-232 | registration makes one to seven attempts, stops at the first success, and succeeds if and only if one of the first seven attempts would |
| Manager.Restarts | source/pwrMgr.c:222-225 | the launches made by failed attempts are all starts of the sysevent daemon, one per failure |
| Manager.PowerManager.constructor | source/pwrMgr.c:94 | the state starts at the zero value, taken to be `PWRMGR_STATE_NONE`, with nothing launched |
| Manager.PowerManager.SetDefaults | source/pwrMgr.c:100-105 | the state becomes AC |
| Manager.PowerManager.StateTransition | source/pwrMgr.c:112-146 | returns 0; the new state and the launches appended are those of the transition policy for the converted value |
| Manager.PowerManager.HandleNotification | source/pwrMgr.c:170-189 | a notification changes state and launches only through the transition step, and only when it passes the three tests |
| Manager.PowerManager.SyseventHandler | source/pwrMgr.c:161-191 | after receiving a sequence of notifications the state and the launches are those of the run over that sequence |
| Manager.PowerManager.RegisterSysevent | source/pwrMgr.c:201-233 | returns whether registration succeeded; on success the state becomes AC, on failure it is untouched; one daemon start is launched per failed attempt |
| Manager.PowerManager.Init | source/pwrMgr.c:239-278 | returns -1 when registration fails or the handler thread cannot be created and 0 otherwise; the state and launches are those of registration |

## Left out

- The sysevent library calls `sysevent_open`, `sysevent_setnotification` and `sysevent_getnotification` (source/pwrMgr.c:159, 170, 210): a foreign library and network client; their results are inputs (`open`, the notification sequence), and the subscription call, whose result the source ignores, is not modelled.
- The shells that `system()` starts and the `sleep(5)` calls (source/pwrMgr.c:131, 137, 223-224, 268): external processes and timing; a launch is an entry appended to `actions`.
- Manager.PowerManager.SyseventHandler: the source's `for(;;)` loop never ends; the model runs it over a finite sequence of notifications, any prefix of an infinite run.
- Manager.PowerManager.Init: thread creation, naming and joining (`pthread_create`, `pthread_setname_np`, `pthread_join`) are concurrency plumbing; `pthread_create`'s result is a parameter, and the handler is modelled as a separate call.
- `daemonize`, `checkIfAlreadyRunning` and `main` (source/pwrMgr.c:284-415): process and file I/O around the core; the branch of `main` guarded by `retry < max_retries` with `retry` always 0 has a dead `else`.
- The logging macros (source/pwrMgr.c:71-84), including the messages that index `powerStateArr` by the current state.
- The fixed buffer sizes `name[25]` and `val[42]` (source/pwrMgr.c:163) and the library's truncation into them; the buffers are sequences of any length, an empty value buffer is read as one starting with NUL, and a buffer with no NUL is read as the whole buffer, where `strcmp` would read past its end.
- The loop bound `PWRMGR_STATE_TOTAL` (source/pwrMgr.c:119) comes from `pwrMgr.h`, which is not part of this model; the lookup is bounded by the table's three entries. The comment at source/pwrMgr.c:89 says the table has `PWRMGR_STATE_TOTAL-1` entries, so the bound may be 4, and an unmatched value would then make the loop read one entry past `powerStateArr`; that read is not modelled.
