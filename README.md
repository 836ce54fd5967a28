# OTA check-and-apply cycle

This project models `ota_task`, the over-the-air update task of the ESP32
firmware, in both of its variants:

- `main/main.c`: checks every 30 seconds. It has a complete-data check and an explicit
  `esp_ota_set_boot_partition` call.
- `main/native_ota_example.c`: checks every 36000 ms. It has no complete-data check and no
  explicit set-boot call.

One cycle of the task goes through these steps:

1. It opens an HTTPS OTA session (`esp_https_ota_begin`).
2. It reads the candidate image's descriptor.
3. It compares the candidate's version string with the running image's version string using
   `strcmp`.
4. When the versions differ, it calls `esp_https_ota_perform` until the status is no longer
   "in progress".
5. It finishes the session and, on full success, restarts into the new image.
6. On every other path it finishes the session and sleeps for a fixed interval.

The ESP-IDF calls are not modelled. A cycle runs against a `Script`: the results those calls
return, fixed in advance. It records the calls it makes as a trace of `Event`s and returns an
`Outcome`.

The model has four modules:

- `CString` (`cstring.dfy`): `strcmp` on the characters before the NUL.
- `Esp` (`esp.dfy`): error codes, the scripted environment, the trace events and the perform
  loop shared by both variants. It also holds counting helpers over traces.
- `MainOta` (`main_ota.dfy`): the `main/main.c` task.
- `NativeOta` (`native_ota.dfy`): the `main/native_ota_example.c` task.

Each variant follows the same pattern:

- `OtaCycle` is an imperative method that follows the C body statement by statement.
- It is proved equal to the declarative function `Cycle`, and the safety rules of the task
  are proved about `Cycle` as lemmas.
- The outer `while(1)` is the method `OtaTask`. It loops over a finite list of per-cycle
  scripts and stops at a restart. It is proved equal to `Runs`, the concatenation of the
  cycles' traces, and also proved to keep the restart and delay counts.

Constants:

- `ESP_OK` is 0.
- `ESP_ERR_HTTPS_OTA_IN_PROGRESS` is 0x9001, that is `ESP_ERR_HTTPS_OTA_BASE` + 1.
- `CHECK_INTERVAL_MS` is 30000 in `main/main.c` and 36000 in `main/native_ota_example.c`.

## Model

| member | source | states |
|---|---|---|
| CString.Strcmp | main/main.c:85 | `strcmp` returns a value of sign -1, 0 or 1, and 0 for equal strings |
| CString.StrcmpZeroIff | main/main.c:85 | `strcmp(a, b) == 0` holds exactly when `a` and `b` are the same string |
| CString.StrcmpAntisymmetric | main/main.c:85 | swapping the arguments flips the sign of the result |
| Esp.ShouldUpdateIffDiffer | main/main.c:85 | the update decision `strcmp(new, current) != 0` is plain inequality, so a candidate that sorts lower is still taken; both variants use this decision |
| Esp.FirstTerminal | main/main.c:88-91 | the download loop ends at the first perform result that is not "in progress", and that index lies within the script |
| Esp.FirstTerminalFirst | main/main.c:88-91 | every perform result before that index is "in progress" |
| Esp.FirstTerminalAt | main/main.c:88-91 | `n` "in progress" results followed by any other status end the loop at call `n`, whatever follows |
| Esp.PerformLoop | main/main.c:88-91 | the loop makes `FirstTerminal + 1` perform calls and leaves with that call's status, which is not "in progress"; the same loop is main/native_ota_example.c:43-46 |
| MainOta.AfterDownloadCalls | main/main.c:93-107 | after the download loop, set-boot and restart happen once each exactly when the status is `ESP_OK`, all data arrived and the first finish succeeded; the outcome is a validation failure exactly when the status is `ESP_OK`, all data arrived and the first finish failed, and finish is then called twice, once otherwise; every other path ends with finish and then the delay |
| MainOta.OtaCycle | main/main.c:61-113 | one pass of the loop body makes exactly the calls of `Cycle` and returns its outcome |
| MainOta.UpdateIffVersionsDiffer | main/main.c:85 | after a successful begin, perform is called exactly when the version strings differ; the cycle skips the update exactly when they are equal; a candidate that `strcmp` orders lower is still downloaded |
| MainOta.PerformCallsToFirstTerminal | main/main.c:88-93 | on the update path there are `FirstTerminal + 1` perform calls; a final status other than `ESP_OK` ends the cycle as a transfer failure |
| MainOta.PerformCallCount | main/main.c:88-91 | `n` "in progress" results and then a different status give exactly `n + 1` perform calls |
| MainOta.BeginFailureSkipsSession | main/main.c:78-80 | when begin fails, the cycle is only the begin call and the delay of line 113: no descriptor read, perform, finish, set-boot or restart |
| MainOta.CommitOnlyAfterAllChecks | main/main.c:93-102 | set-boot and restart each occur once exactly when begin succeeded, the versions differ, the final perform status is `ESP_OK`, all data arrived and the first finish succeeded; otherwise never; set-boot is immediately followed by the restart that ends the trace |
| MainOta.SetBootResultIgnored | main/main.c:99-102 | the cycle is the same whatever `esp_ota_set_boot_partition` returns |
| MainOta.HandleReleased | main/main.c:95-107 | the cycle is a validation failure exactly when begin succeeded, the versions differ, the final perform status is `ESP_OK`, all data arrived and the first finish failed; finish is then called twice, once on every other path after a successful begin, and never when begin failed; every non-restarting cycle after a successful begin ends with finish and then the delay |
| MainOta.CycleLast | main/main.c:102-113 | a cycle's last call is the restart when it restarts and the 30000 ms delay otherwise |
| MainOta.CycleEnds | main/main.c:102-113 | a restarting cycle has one restart and no delay; every other cycle has no restart and exactly one 30000 ms delay |
| MainOta.TransferErrorScenario | main/main.c:85-113 | the running version is "1.0.0" and the candidate is "1.1.0". Three "in progress" results and then an error give four perform calls and a transfer failure. There is no set-boot and no restart, and the cycle ends with finish and the delay |
| MainOta.RunsRestarts | main/main.c:61-114 | when no earlier cycle restarted, the run holds a restart exactly when its last cycle restarted, and the restart is then the last call |
| MainOta.RunsDelays | main/main.c:61-113 | in such a run every cycle except a restarting last one contributes exactly one delay |
| MainOta.OtaTask | main/main.c:61-114 | the outer loop makes exactly the calls of its cycles in order; it stops early only at a restart, which is its last call and happens at most once; no earlier cycle restarted; the run holds one delay per non-restarting cycle |
| NativeOta.AfterDownloadCalls | main/native_ota_example.c:48-56 | after the download loop, the restart happens once exactly when the status is `ESP_OK` and the first finish succeeded; there is never a complete-data check, partition lookup or set-boot; the outcome is a validation failure exactly when the status is `ESP_OK` and the first finish failed, and finish is then called twice, once otherwise; every non-restart path ends with finish and then the delay |
| NativeOta.OtaCycle | main/native_ota_example.c:20-58 | one pass of the loop body makes exactly the calls of `Cycle` and returns its outcome |
| NativeOta.UpdateIffVersionsDiffer | main/native_ota_example.c:42 | after a successful begin, perform is called exactly when the version strings differ, and the update is skipped exactly when they are equal |
| NativeOta.PerformCallsToFirstTerminal | main/native_ota_example.c:43-48 | on the update path there are `FirstTerminal + 1` perform calls; a final status other than `ESP_OK` ends the cycle as a transfer failure |
| NativeOta.PerformCallCount | main/native_ota_example.c:43-46 | `n` "in progress" results and then a different status give exactly `n + 1` perform calls |
| NativeOta.BeginFailureSkipsSession | main/native_ota_example.c:35-37 | when begin fails, the cycle is only the begin call and the delay of line 58: no descriptor read, perform, finish or restart |
| NativeOta.RestartOnlyAfterChecks | main/native_ota_example.c:48-53 | the restart occurs once exactly when begin succeeded, the versions differ, the final perform status is `ESP_OK` and the first finish succeeded; it comes right after that finish and ends the trace |
| NativeOta.NoBootSelection | main/native_ota_example.c:48-53 | no path calls the complete-data check, the partition lookup or set-boot |
| NativeOta.BootAnswersIgnored | main/native_ota_example.c:48-53 | the cycle is the same whatever the complete-data answer and the set-boot result would be |
| NativeOta.HandleReleased | main/native_ota_example.c:49-56 | the cycle is a validation failure exactly when begin succeeded, the versions differ, the final perform status is `ESP_OK` and the first finish failed; finish is then called twice, once on every other path after a successful begin, and never when begin failed; every non-restarting cycle after a successful begin ends with finish and then the delay |
| NativeOta.CycleLast | main/native_ota_example.c:52-58 | a cycle's last call is the restart when it restarts and the 36000 ms delay otherwise |
| NativeOta.CycleEnds | main/native_ota_example.c:52-58 | a restarting cycle has one restart and no delay; every other cycle has no restart and exactly one 36000 ms delay |
| NativeOta.RunsRestarts | main/native_ota_example.c:20-59 | when no earlier cycle restarted, the run holds a restart exactly when its last cycle restarted, and the restart is then the last call |
| NativeOta.RunsDelays | main/native_ota_example.c:20-58 | in such a run every cycle except a restarting last one contributes exactly one delay of 36000 ms |
| NativeOta.OtaTask | main/native_ota_example.c:20-59 | the outer loop makes exactly the calls of its cycles in order; it stops early only at a restart, which is its last call and happens at most once; no earlier cycle restarted; the run holds one delay per non-restarting cycle |

## Notes on the code

- In `main/main.c`, the result of `esp_ota_set_boot_partition` is ignored (lines 99-102). The
  restart follows set-boot whatever it returns, so the model has no commit-error outcome.
- `main/native_ota_example.c` makes no explicit set-boot call. The restart directly follows a
  successful first finish (lines 49-52). `esp_https_ota_finish` is a library call whose body
  is not part of this model, so the model says nothing about what it does to the boot
  partition.
- `main/native_ota_example.c:18` sets `CHECK_INTERVAL_MS` to 36000 ms, which is 36 s. The
  comment beside it says one hour. The model keeps 36000 as written.

## Left out

- `wifi_event_handler` and `wifi_init` (main/main.c:19-57): Wi-Fi connection plumbing and
  event callbacks, not part of the update decision.
- `app_main` in both files: NVS, netif and event-loop setup, connection and task creation.
  - At main/main.c:119-124, `ret` is not reassigned after the NVS erase and re-init, so the
    final error check still tests the first error code. This is not modelled.
- What the ESP-IDF calls do inside (begin, get-descriptor, perform, is-complete, finish,
  next-partition, set-boot, restart) and `esp_app_get_description`. Their results come from
  the `Script`.
- The status returned by `esp_https_ota_get_img_desc`. Both tasks ignore it (main/main.c:82,
  main/native_ota_example.c:39). The `Script` has no field for it; its `candidate` stands for
  whatever `new_desc.version` holds when `strcmp` reads it, including after a failed read.
- Embedded NUL characters. C's `strcmp` stops at the first NUL, so a C string cannot hold one.
  Version strings here are the characters before the terminator and are assumed to contain
  no NUL; nothing in the model enforces that, and `CString.Strcmp` on strings with an inner
  NUL does not match C.
- The results of finish calls after the first one. Neither task reads them, so the model
  records only that the call happens.
- Whether finishing the same handle twice is harmless. That is up to the library, which is
  not part of this model.
- HTTP and TLS configuration: URL, timeouts, buffer and request sizes, partial download,
  certificate bundle. These are opaque values passed to the library.
- Logging (`ESP_LOGI`, `ESP_LOGE`).
- FreeRTOS timing and scheduling. `vTaskDelay(pdMS_TO_TICKS(ms))` is recorded as a `Delay(ms)`
  event; the conversion to ticks is not modelled.
- `esp_err_t` is a 32-bit integer in C. Here it is an unbounded `int`, because status codes
  are only compared for equality.
- `strcmp` may return any value of the right sign. The model returns -1, 0 or 1, because both
  tasks only test the result against 0.
- The fixed 32-character size of the version field in `esp_app_desc_t`. Version strings here
  have any length.
- Esp.PerformLoop: requires the scripted perform results to contain a status other than "in
  progress". A stream that stays "in progress" forever keeps the C loop spinning, and a
  terminating method cannot model that.
- MainOta.OtaCycle: requires, through `DownloadEnds`, that a cycle entering the download loop
  eventually leaves it. The non-terminating case is not modelled.
- NativeOta.OtaCycle: the same requirement applies, for the same reason.
- MainOta.OtaTask: runs over a finite list of cycle scripts, each of which must leave the
  download loop. The C loop may run forever; the model covers any finite prefix of it.
- NativeOta.OtaTask: the same restriction as MainOta.OtaTask.
