# hhkbconnstat — device-presence monitor

hhkbconnstat is a tray application that shows whether an HHKB Hybrid keyboard is
connected over Bluetooth LE. A background thread polls the operating system for
the connected BLE devices. The keyboard counts as present when some device name
starts with `"HHKB-Hybrid_"`. The thread then sets the tray icon to "connected"
or "disconnected" and sleeps 10 seconds when present, 500 milliseconds when
absent. The tray starts on the disconnected icon, and its only menu item, id
`"quit"`, exits with status 0.

This project models that core in Dafny:

- `wrappers.dfy` (module `Wrappers`): `Option` and `Result`.
- `presence.dfy` (module `Presence`): `is_hhkb_connected`. The device enumeration
  is an input: either the query failed, or it gave one entry per device whose
  name lookup resolved or failed. The `any` scan is a recursive function that
  goes left to right, stops at the first match and aborts at a failed lookup it
  reaches.
- `monitor.dfy` (module `Monitor`): `watch_device`. `Cycle` is one iteration
  and `Run` is the loop over a finite trace of cycle inputs. The class
  `Watcher` holds the tray icon, a simulated clock, a log of (icon, sleep)
  steps and the fault that ended the thread. Its methods `PollOnce` and
  `Watch` are proved against `Cycle` and `Run`.
- `tray_events.dfy` (module `TrayEvents`): the tray menu and the
  `on_system_tray_event` handler.

The model follows the code in two places where a more forgiving behaviour might be expected:

- A device whose name lookup fails is not skipped. `x.Name().unwrap()` panics,
  which ends the monitor thread. Because `any` short-circuits, this only
  happens when no earlier device matched. So with failed lookups the order of
  the devices matters (`UnresolvedAfterMatchIsNeverRead`).
- An enumeration failure, or a failure to read or set an icon, does not count
  as "absent". It ends the loop for good (`halted`).

## Model

| member | source | states |
|---|---|---|
| `Presence.IsHhkbConnected` | src-tauri/src/main.rs:55-69 | a failed device query aborts with `EnumerationFailed`; for a listed enumeration the result is `true` iff some entry resolves to a name with the prefix and every entry before it resolved, `false` iff every entry resolved and none has the prefix, and otherwise `NameLookupFailed` |
| `Presence.AnyMatchMeaning` | src-tauri/src/main.rs:55-59 | the scan gives `true` iff some entry resolves to a name with the prefix and every entry before it resolved; `false` iff every entry resolved and none has the prefix; any other outcome is `NameLookupFailed` |
| `Presence.PresentIffSomeNameHasPrefix` | src-tauri/src/main.rs:55-59 | when every name resolves, presence is exactly "some connected device name starts with `HHKB-Hybrid_`" |
| `Presence.EmptyListIsAbsent` | src-tauri/src/main.rs:56-58 | an empty device list gives not-connected |
| `Presence.PrefixExamples` | src-tauri/src/main.rs:58 | exact, case-sensitive prefix test: `HHKB-Hybrid_` and `HHKB-Hybrid_ABC123` match; `HHKB-Hybrid`, `hhkb-hybrid_X` and `XHHKB-Hybrid_` do not |
| `Presence.AnyMatchAppend` | src-tauri/src/main.rs:57-58 | scanning `a + b` reaches `b` only when `a` found no match and had no failed lookup |
| `Presence.NonMatchingNameIsIgnored` | src-tauri/src/main.rs:57-58 | inserting a resolved name without the prefix anywhere in the list never changes the result |
| `Presence.OrderIrrelevant` | src-tauri/src/main.rs:57-58 | when every name resolves, any permutation of the device list gives the same result |
| `Presence.UnresolvedAfterMatchIsNeverRead` | src-tauri/src/main.rs:58 | a failed lookup after a match is never reached (`true`); the same failed lookup before the match aborts the scan |
| `Monitor.Cycle` | src-tauri/src/main.rs:42-52 | a cycle succeeds iff presence was computed and the icon was set; it sets the connected icon iff present; it sleeps 10000 ms after the connected icon and 500 ms after the disconnected one; a failure is the fault of the step that failed |
| `Monitor.Run` | src-tauri/src/main.rs:41-53 | the loop emits at most one step per cycle input, and exactly one per input when no fault stops it |
| `Monitor.RunAppend` | src-tauri/src/main.rs:42-52 | running `a + b` is running `a` and then, if `a` did not fault, `b` from scratch: no state carries over between cycles |
| `Monitor.RunSteps` | src-tauri/src/main.rs:41-53 | step i of a run is what cycle i's own input yields; a run that stops early stops at its first faulting cycle, with that cycle's fault |
| `Monitor.RunCompletesIffNoCycleFaults` | src-tauri/src/main.rs:41-53 | the loop runs the whole trace iff no cycle faults |
| `Monitor.NoHysteresis` | src-tauri/src/main.rs:42-52 | two completed cycles with the same input emit the same (icon, sleep) step |
| `Monitor.RepeatedInputReemits` | src-tauri/src/main.rs:42-52 | n successful cycles on the same input set the icon n times, even though it does not change |
| `Monitor.SleepsFollowIcons` | src-tauri/src/main.rs:43-50 | every connected-icon step sleeps 10000 ms and every disconnected-icon step sleeps 500 ms |
| `Monitor.RunExtend` | src-tauri/src/main.rs:42-52 | one more cycle after a run with no fault appends that cycle's step and adds its sleep, or ends the run with that cycle's fault |
| `Monitor.RunStopped` | src-tauri/src/main.rs:41-53 | once a prefix of the trace has faulted, the rest of the trace has no effect |
| `Monitor.TotalSleepAppend` | src-tauri/src/main.rs:46-50 | the time slept over two runs of steps is the sum of the two |
| `Monitor.Watcher.constructor` | src-tauri/src/main.rs:20-22 | before any poll the tray shows the disconnected icon, no time has passed and nothing has been logged |
| `Monitor.Watcher.PollOnce` | src-tauri/src/main.rs:42-51 | returns `Cycle` of the input; on success sets the tray to the step's icon, advances the clock by its sleep and logs it; on a fault changes nothing but records the fault |
| `Monitor.Watcher.Watch` | src-tauri/src/main.rs:41-53 | after the loop over a trace: the log gains `Run`'s steps, the fault is `Run`'s, the clock advanced by the total sleep and the tray shows the last step's icon (or the old one if no step completed) |
| `Monitor.FreshWatcherIcon` | src-tauri/src/main.rs:41-53 | starting on the initial icon, the tray ends on the disconnected icon if no cycle completed, and otherwise on the icon that the last completed cycle's presence selects |
| `TrayEvents.OnTrayEvent` | src-tauri/src/main.rs:25-31 | an event asks to exit iff it is a click on the menu item with id `quit`, and then the exit status is 0; every other event is ignored |
| `TrayEvents.OnlyExactQuitIdExits` | src-tauri/src/main.rs:18-28 | the id is compared exactly: the label `Quit`, `QUIT`, `quit ` and a left click do nothing; `quit` exits with 0 |
| `TrayEvents.ExitCode` | src-tauri/src/main.rs:25-31 | over a sequence of tray events, the application exits iff a click on `quit` occurs, and then with status 0 |

## Left out

- The Windows enumeration calls (`GetDeviceSelectorFromConnectionStatus`, `FindAllAsyncAqsFilter`, `Size`, `GetAt`, `Name`): foreign OS APIs. They are replaced by the `Enumeration` input. Each failure is one `ListFailed` or `Unresolved` value.
- Icon files and the tray toolkit: reading `icons/*.ico` and `tray.set_icon` are replaced by the two `Icon` values. Their failure is one `iconOk` flag per cycle.
- The failure to read the initial icon at startup (line 21): it panics before the tray exists, so no monitor runs. This is not modelled.
- The Tauri builder, app setup and `app.exit`: UI framework glue. Exiting is the `Exit(0)` action.
- Thread spawning and the tray update across threads: concurrency. The loop runs on its own, over the inputs it is given.
- Real sleeping: the chosen interval is added to a simulated clock in milliseconds.
- The endless loop: it is modelled over finite traces of cycle inputs.
- Panics: they are modelled as the `halted` fault, which ends the loop. A panic's message and unwinding are not modelled.
- Names are Dafny strings (sequences of characters). The conversion from the OS's UTF-16 names to Rust strings is not modelled.
