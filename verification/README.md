# AHRS communications supervisor — a Dafny model

OpenPilot's `AHRSComms` module runs one RTOS task that keeps the flight
computer and the AHRS (attitude and heading reference) coprocessor in step.
On entry the task sets its system alarm to critical. Then, forever, once per
`UpdatePeriod` milliseconds, it:

1. refreshes its watchdog flag and reads the AHRS settings object;
2. exchanges objects with the AHRS over SPI (`AhrsSendObjects`);
3. takes the transport's status snapshot (`AhrsGetStatus`): a `linkOk` flag
   and two groups of counters, `remote` and `local`
   (`kickStarts`, `crcErrors`, `retries`, `invalidPacket`);
4. clears its alarm if `linkOk` holds, and sets it to warning otherwise;
5. fetches the `AhrsStatus` object, overwrites eight of its fields with
   snapshot values, and stores it back;
6. passes `UpdatePeriod / portTICK_RATE_MS` ticks to `vTaskDelayUntil`.

The model turns one pass through that loop into a pure function and folds it
over a finite sequence of per-cycle inputs.

- `ahrs_types.dfy` (`AhrsTypes`): 32-bit values, the tick length, the
  counters, the snapshot, the `AhrsStatus` object and the alarm levels.
  The object's unassigned fields are kept as a map, `others`, that the
  supervisor must carry through untouched.
- `ahrs_comms.dfy` (`AhrsComms`): the loop body. `AlarmAfter` is the alarm
  call, `Publish` the read-modify-write of the status object, `DelayTicks`
  the delay argument and `Step` one whole iteration. The file also holds the
  lemmas that pin these down: uniqueness of the published record, last write
  wins, the ignored local kickstart count and uniqueness of the floor
  quotient.
- `supervision.dfy` (`Supervision`): `Run`, the fold of `Step` over a
  sequence of inputs. It has a second, cycle-by-cycle definition
  (`Stepwise`), and lemmas prove the two agree in both directions. Further
  lemmas cover the alarm history, the final alarm, what the alarm does not
  depend on, and counter monotonicity. A concrete recovery scenario is
  included too.
- `task_loop.dfy` (`AhrsCommsTask`): the task written as the C code is
  written. `LoopBody` is the statements of one iteration. `SuperviseTask`
  is a `while` loop, bounded by its inputs, that is proved equal to the
  fold.

Each cycle's input is the snapshot plus the `UpdatePeriod` read from the
settings in that same cycle. The transport is not modelled, so a snapshot is
an arbitrary value. In particular, counters are not assumed to grow.

Some facts about the code that shape the model:

- The code fetches the `AhrsStatus` object, patches eight fields and stores
  it back. The model keeps every other field as it was (`Publish`,
  `PublishUnique`).
- The code never checks that the counters grow. The model proves only that
  published counters rise when the snapshots rise
  (`PublishedCountersFollowTransport`).
- Each cycle's delay uses the period read in that same cycle (`Run`:
  `cycles[i].delay` comes from `inputs[i]`).
- `lastSysTime` is passed to `vTaskDelayUntil` without ever being
  initialised (`ahrs_comms.c` lines 91 and 123). Only the tick count is
  modelled.

## Model

| member | source | states |
|---|---|---|
| AhrsComms.Start | flight/Modules/AHRSComms/ahrs_comms.c:93 | on entry to the loop the alarm is critical, a level that no alarm call of the loop produces, and the status object is the one in the object store |
| AhrsComms.AlarmAfter | flight/Modules/AHRSComms/ahrs_comms.c:104-108 | the alarm after a cycle is never critical; it is Ok exactly when `linkOk` holds and Warning exactly when it does not |
| AhrsComms.StepIgnoresPreviousAlarm | flight/Modules/AHRSComms/ahrs_comms.c:104-108 | the level held before a cycle (critical, warning or Ok) has no effect on the cycle's result |
| AhrsComms.Publish | flight/Modules/AHRSComms/ahrs_comms.c:109-121 | the stored object carries `linkOk`, the four remote counters and the local crc/retry/invalid counters of the snapshot, and every other field of the fetched object unchanged |
| AhrsComms.PublishUnique | flight/Modules/AHRSComms/ahrs_comms.c:109-121 | an object equals the published one if and only if it mirrors the snapshot and keeps the previous object's other fields |
| AhrsComms.PublishLastWins | flight/Modules/AHRSComms/ahrs_comms.c:112-121 | nothing from an earlier snapshot survives: publishing two snapshots in turn equals publishing only the second |
| AhrsComms.LocalKickStartsIgnored | flight/Modules/AHRSComms/ahrs_comms.c:112-119 | `local.kickStarts` is never copied: snapshots differing only in it publish the same object |
| AhrsComms.DelayTicks | flight/Modules/AHRSComms/ahrs_comms.c:123 | the tick count is the floor quotient of the period by the tick length: `ticks * rate <= period < (ticks + 1) * rate`, and it is 0 exactly when the period is shorter than one tick |
| AhrsComms.DelayTicksUnique | flight/Modules/AHRSComms/ahrs_comms.c:123 | any number with the floor property is the tick count, so the property characterises the delay completely |
| AhrsComms.Step | flight/Modules/AHRSComms/ahrs_comms.c:96-125 | one iteration yields a non-critical alarm that is Ok iff `linkOk`, a record mirroring the snapshot with its other fields untouched, and the delay computed from this cycle's period |
| Supervision.Run | flight/Modules/AHRSComms/ahrs_comms.c:96-125 | over any run, after every cycle i the alarm is not critical and is Ok iff snapshot i had `linkOk`, the record mirrors snapshot i only, other fields are those of the starting object (taking each fetched object to be the one stored in the previous cycle), and delay i comes from period i |
| Supervision.RunIsStepwise | flight/Modules/AHRSComms/ahrs_comms.c:96-125 | every cycle of the fold is the loop body applied to the state the previous cycles left |
| Supervision.StepwiseIsRun | flight/Modules/AHRSComms/ahrs_comms.c:96-125 | conversely, any sequence of cycles built that way is the fold, so the fold is the only such sequence |
| Supervision.RunSnoc | flight/Modules/AHRSComms/ahrs_comms.c:96-125 | one more input adds exactly one loop iteration, run from the state the shorter run ended in |
| Supervision.AlarmHistoryFromStart | flight/Modules/AHRSComms/ahrs_comms.c:93-108 | from the task's entry, the alarm after k cycles is critical for k = 0 and for no other k, and otherwise Ok or Warning according to snapshot k - 1 |
| Supervision.FinalAlarm | flight/Modules/AHRSComms/ahrs_comms.c:93-108 | after a non-empty run the alarm is not critical, and it is Ok iff the last snapshot had `linkOk` |
| Supervision.AlarmDependsOnlyOnLink | flight/Modules/AHRSComms/ahrs_comms.c:104 | two runs whose snapshots agree on `linkOk` cycle by cycle raise the same alarms, whatever the counters, periods and starting states |
| Supervision.LocalKickStartsNeverPublished | flight/Modules/AHRSComms/ahrs_comms.c:112-119 | runs whose inputs differ only in `local.kickStarts` produce identical states and delays |
| Supervision.PublishedCountersFollowTransport | flight/Modules/AHRSComms/ahrs_comms.c:112-119 | if the snapshots' counters never decrease from one cycle to the next, neither do the published ones |
| Supervision.ScenarioRecovery | flight/Modules/AHRSComms/ahrs_comms.c:93-119 | with the link down on cycle 1 and recovered after one remote kickstart on cycle 2, the alarm goes critical, then warning, then Ok; the records show `LinkRunning` false and then `AhrsKickstarts` 1 |
| AhrsCommsTask.LoopBody | flight/Modules/AHRSComms/ahrs_comms.c:104-123 | the statements of one iteration, written as in C, compute exactly the step function |
| AhrsCommsTask.RunOutcome | flight/Modules/AHRSComms/ahrs_comms.c:93-123 | after the task has run, the alarm is critical iff no cycle ran; otherwise it follows the last snapshot; the record mirrors the last snapshot, other fields untouched (taking each fetched object to be the one stored in the previous cycle); each delay comes from its own period |
| AhrsCommsTask.SuperviseTask | flight/Modules/AHRSComms/ahrs_comms.c:89-126 | the loop, run over finitely many inputs, ends in the fold's final state and delays; so it is critical iff no cycle ran, follows the last snapshot otherwise, and keeps the record's other fields (taking each fetched object to be the one stored in the previous cycle) |

## Left out

- `AHRSCommsInitialize` (task creation, stack size, priority, task monitor, watchdog registration, object initialisation): RTOS bookkeeping, not part of the loop's logic.
- `PIOS_WDG_UpdateFlag`: a side effect on the watchdog; it changes nothing the loop computes.
- `AhrsSendObjects` and how `AhrsGetStatus` produces its counters: the SPI transport (`ahrs_spi_comm.h`) is not part of this model. Each snapshot is an unconstrained input.
- `AHRSSettingsGet`: modelled only as the `updatePeriod` field of each cycle's input. The settings object's other fields are not read by the loop.
- `vTaskDelayUntil` timing: wall-clock wake times, absolute deadlines and drift are not modelled. `lastSysTime` is used without being initialised, so no deadline claim could follow from the code. Only the tick count passed to it is modelled.
- `AhrsStatusGet`: the fetched object is taken to be the one this task stored in the previous cycle (or, on the first cycle, the one in the store at entry). Writes to `AhrsStatus` by `AhrsSendObjects` or by other modules are not modelled.
- The infinite loop: it is modelled as a fold, and as a `while` loop bounded by its inputs.
- The alarm registry and `AhrsStatusSet` atomicity: `AlarmsClear` is modelled as "the level becomes Ok" and `AlarmsSet` as "the level becomes the given one". Concurrent readers are not modelled.
- Integer widths: counters, the eight assigned `AhrsStatus` fields and `UpdatePeriod` are all taken to be unsigned 32-bit values, so the copies from the snapshot into the record are exact (a narrower record field would truncate them), and the tick length is a 32-bit value of at least 1. The quotient cannot overflow, so no wrap-around arises. The real width of the transport's counters is defined in a header that is not part of this model.
