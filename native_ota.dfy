/**
 `ota_task` of main/native_ota_example.c: the same check cycle as
 main/main.c, but without the complete-data check and without an explicit
 `esp_ota_set_boot_partition` call, and with a pause of 36000 ms.
 */
module NativeOta {
  import opened CString
  import opened Esp

  /** The local constant `CHECK_INTERVAL_MS`: 36000 ms, that is 36 seconds
      (the comment beside it in the source says one hour). */
  const CHECK_INTERVAL_MS: nat := 36000

  /** Every success check of the update path passes: begin succeeded, the
      versions differ, the download loop ended with `ESP_OK` and the first
      finish succeeded. */
  predicate Commits(env: Script)
    requires DownloadEnds(env)
  {
    && env.begin == ESP_OK
    && ShouldUpdate(env.candidate, env.current)
    && env.performs[FirstTerminal(env.performs)] == ESP_OK
    && env.firstFinish == ESP_OK
  }

  /** How a cycle goes on once the download loop has ended with `err`: the
      first finish and the restart on success, and otherwise the finish at
      the end of the session and the delay. */
  function AfterDownload(env: Script, err: EspErr): Run
  {
    if err != ESP_OK then
      Run(TransferFailed(err), [Finish, Delay(CHECK_INTERVAL_MS)])
    else if env.firstFinish != ESP_OK then
      Run(ValidationFailed(env.firstFinish), [Finish, Finish, Delay(CHECK_INTERVAL_MS)])
    else
      Run(Restarted, [Finish, Restart])
  }

  /** The calls one cycle makes against `env`, and how it ends, stated
      declaratively: the download loop is `FirstTerminal + 1` perform calls. */
  function Cycle(env: Script): Run
    requires DownloadEnds(env)
  {
    if env.begin != ESP_OK then
      Run(BeginFailed(env.begin), [Begin, Delay(CHECK_INTERVAL_MS)])
    else if !ShouldUpdate(env.candidate, env.current) then
      Run(NoUpdate, [Begin, GetDesc, Finish, Delay(CHECK_INTERVAL_MS)])
    else
      var n := FirstTerminal(env.performs);
      var rest := AfterDownload(env, env.performs[n]);
      Run(rest.outcome, [Begin, GetDesc] + Repeat(Perform, n + 1) + rest.trace)
  }

  /** After the download loop, the restart happens once and only when the
      download and the first finish succeeded; the session is finished twice
      when the first finish failed and once otherwise; every path but the
      restart ends with one delay. Neither the complete-data check nor
      set-boot is ever called. */
  lemma AfterDownloadCalls(env: Script, err: EspErr)
    ensures var r := AfterDownload(env, err);
      && (r.outcome == Restarted <==> err == ESP_OK && env.firstFinish == ESP_OK)
      && Count(Perform, r.trace) == 0
      && Count(IsComplete, r.trace) == 0
      && Count(NextPartition, r.trace) == 0
      && Count(SetBoot, r.trace) == 0
      && Count(Restart, r.trace) == (if r.outcome == Restarted then 1 else 0)
      && Count(Delay(CHECK_INTERVAL_MS), r.trace) == (if r.outcome == Restarted then 0 else 1)
      && (r.outcome.ValidationFailed? <==> err == ESP_OK && env.firstFinish != ESP_OK)
      && Count(Finish, r.trace) == (if r.outcome.ValidationFailed? then 2 else 1)
      && (if r.outcome == Restarted then EndsWith(r.trace, Finish, Restart)
        else EndsWith(r.trace, Finish, Delay(CHECK_INTERVAL_MS)))
  {
    CountThree(Finish, Finish, Delay(CHECK_INTERVAL_MS));
  }

  /** On the download path a cycle is the begin, the descriptor read,
      `FirstTerminal + 1` perform calls and then what `AfterDownload` says. */
  lemma DownloadShape(env: Script)
    requires DownloadEnds(env) && env.begin == ESP_OK && ShouldUpdate(env.candidate, env.current)
    ensures var n := FirstTerminal(env.performs);
      var rest := AfterDownload(env, env.performs[n]);
      && Cycle(env).outcome == rest.outcome
      && Cycle(env).trace == [Begin, GetDesc] + Repeat(Perform, n + 1) + rest.trace
  {
  }

  /** So each call is counted in those three parts. */
  lemma DownloadCount(env: Script, x: Event)
    requires DownloadEnds(env) && env.begin == ESP_OK && ShouldUpdate(env.candidate, env.current)
    ensures var n := FirstTerminal(env.performs);
      Count(x, Cycle(env).trace)
        == Hit(x, Begin) + Hit(x, GetDesc) + (if x == Perform then n + 1 else 0)
          + Count(x, AfterDownload(env, env.performs[n]).trace)
  {
    var n := FirstTerminal(env.performs);
    CountDownload(x, n + 1, AfterDownload(env, env.performs[n]).trace);
  }

  /** One pass of the body of `ota_task`'s outer loop, call by call. */
  method OtaCycle(env: Script) returns (outcome: Outcome, trace: seq<Event>)
    requires DownloadEnds(env)
    ensures Run(outcome, trace) == Cycle(env)
  {
    var finishErr := ESP_OK;
    trace := [Begin];
    var err := env.begin;
    if err == ESP_OK {
      trace := trace + [GetDesc];
      if ShouldUpdate(env.candidate, env.current) {
        var calls;
        err, calls := PerformLoop(env.performs);
        trace := trace + Repeat(Perform, calls);
        ghost var pre := trace;
        assert pre == [Begin, GetDesc] + Repeat(Perform, FirstTerminal(env.performs) + 1);
        DownloadShape(env);
        if err == ESP_OK {
          finishErr := env.firstFinish;
          trace := trace + [Finish];
          if finishErr == ESP_OK {
            trace := trace + [Restart];
            outcome := Restarted;
            assert trace == pre + [Finish, Restart];
            return;
          }
          outcome := ValidationFailed(finishErr);
        } else {
          outcome := TransferFailed(err);
        }
      } else {
        outcome := NoUpdate;
      }
      trace := trace + [Finish];
    } else {
      outcome := BeginFailed(err);
    }
    trace := trace + [Delay(CHECK_INTERVAL_MS)];
  }

  /** After a successful begin, the download starts exactly when the two
      version strings differ (`strcmp != 0`); equal strings skip it, and a
      candidate that sorts lower than the running version is still
      downloaded. */
  lemma UpdateIffVersionsDiffer(env: Script)
    requires DownloadEnds(env) && env.begin == ESP_OK
    ensures Count(Perform, Cycle(env).trace) > 0 <==> env.candidate != env.current
    ensures Cycle(env).outcome == NoUpdate <==> env.candidate == env.current
    ensures Strcmp(env.candidate, env.current) < 0 ==> Count(Perform, Cycle(env).trace) > 0
  {
    ShouldUpdateIffDiffer(env.candidate, env.current);
    if ShouldUpdate(env.candidate, env.current) {
      DownloadCount(env, Perform);
    } else {
      CountFour(Begin, GetDesc, Finish, Delay(CHECK_INTERVAL_MS));
    }
  }

  /** On the download path there is one perform call per "in progress"
      result before the first other status, plus the one that returned it. */
  lemma PerformCallsToFirstTerminal(env: Script)
    requires DownloadEnds(env) && env.begin == ESP_OK && ShouldUpdate(env.candidate, env.current)
    ensures Count(Perform, Cycle(env).trace) == FirstTerminal(env.performs) + 1
    ensures var err := env.performs[FirstTerminal(env.performs)];
      err != ESP_OK ==> Cycle(env).outcome == TransferFailed(err)
  {
    DownloadCount(env, Perform);
    AfterDownloadCalls(env, env.performs[FirstTerminal(env.performs)]);
  }

  /** `n` "in progress" results followed by any other status make exactly
      `n + 1` perform calls, whatever the script holds after them; a final
      status other than `ESP_OK` ends the cycle as a transfer failure. */
  lemma PerformCallCount(env: Script, n: nat)
    requires env.begin == ESP_OK && env.candidate != env.current
    requires n < |env.performs| && env.performs[n] != ESP_ERR_HTTPS_OTA_IN_PROGRESS
    requires forall j :: 0 <= j < n ==> env.performs[j] == ESP_ERR_HTTPS_OTA_IN_PROGRESS
    ensures DownloadEnds(env)
    ensures Count(Perform, Cycle(env).trace) == n + 1
    ensures env.performs[n] != ESP_OK ==> Cycle(env).outcome == TransferFailed(env.performs[n])
  {
    FirstTerminalAt(env.performs, n);
    ShouldUpdateIffDiffer(env.candidate, env.current);
    PerformCallsToFirstTerminal(env);
  }

  /** When begin fails, nothing but the delay follows: no descriptor read,
      no download, no finish and no restart. */
  lemma BeginFailureSkipsSession(env: Script)
    requires env.begin != ESP_OK
    ensures DownloadEnds(env)
    ensures Cycle(env).trace == [Begin, Delay(CHECK_INTERVAL_MS)]
    ensures Cycle(env).outcome == BeginFailed(env.begin)
  {
  }

  /** The restart happens exactly when the download ended with `ESP_OK` and
      the first finish succeeded, at most once and as the last call, right
      after that finish. */
  lemma RestartOnlyAfterChecks(env: Script)
    requires DownloadEnds(env)
    ensures Count(Restart, Cycle(env).trace) == if Commits(env) then 1 else 0
    ensures Cycle(env).outcome == Restarted <==> Commits(env)
    ensures Commits(env) ==> EndsWith(Cycle(env).trace, Finish, Restart)
  {
    if env.begin == ESP_OK && ShouldUpdate(env.candidate, env.current) {
      DownloadShape(env);
      DownloadCount(env, Restart);
      AfterDownloadCalls(env, env.performs[FirstTerminal(env.performs)]);
    } else if env.begin == ESP_OK {
      CountFour(Begin, GetDesc, Finish, Delay(CHECK_INTERVAL_MS));
    }
  }

  /** No path checks for complete data, looks up the next partition or calls
      set-boot. */
  lemma NoBootSelection(env: Script)
    requires DownloadEnds(env)
    ensures Count(IsComplete, Cycle(env).trace) == 0
    ensures Count(NextPartition, Cycle(env).trace) == 0
    ensures Count(SetBoot, Cycle(env).trace) == 0
  {
    if env.begin == ESP_OK && ShouldUpdate(env.candidate, env.current) {
      DownloadCount(env, IsComplete);
      DownloadCount(env, NextPartition);
      DownloadCount(env, SetBoot);
      AfterDownloadCalls(env, env.performs[FirstTerminal(env.performs)]);
    } else if env.begin == ESP_OK {
      CountFour(Begin, GetDesc, Finish, Delay(CHECK_INTERVAL_MS));
    }
  }

  /** So neither the complete-data answer nor the set-boot result changes
      anything. */
  lemma BootAnswersIgnored(env: Script, complete: bool, r: EspErr)
    requires DownloadEnds(env)
    ensures DownloadEnds(env.(completeData := complete, setBoot := r))
    ensures Cycle(env.(completeData := complete, setBoot := r)) == Cycle(env)
  {
  }

  /** Whenever begin succeeded, the session is finished: right before the
      delay on every path that does not restart, twice when the first finish
      failed, once otherwise; a failed begin finishes nothing. */
  lemma HandleReleased(env: Script)
    requires DownloadEnds(env)
    ensures Count(Finish, Cycle(env).trace)
      == if env.begin != ESP_OK then 0 else if Cycle(env).outcome.ValidationFailed? then 2 else 1
    ensures Cycle(env).outcome.ValidationFailed? <==>
      && env.begin == ESP_OK && ShouldUpdate(env.candidate, env.current)
      && env.performs[FirstTerminal(env.performs)] == ESP_OK && env.firstFinish != ESP_OK
    ensures env.begin == ESP_OK && !Commits(env) ==>
      EndsWith(Cycle(env).trace, Finish, Delay(CHECK_INTERVAL_MS))
  {
    if env.begin != ESP_OK {
      assert Cycle(env).trace == [Begin, Delay(CHECK_INTERVAL_MS)];
    } else if !ShouldUpdate(env.candidate, env.current) {
      CountFour(Begin, GetDesc, Finish, Delay(CHECK_INTERVAL_MS));
    } else {
      DownloadShape(env);
      DownloadCount(env, Finish);
      AfterDownloadCalls(env, env.performs[FirstTerminal(env.performs)]);
    }
  }


  /** A cycle's last call is the restart when it restarts, and the delay of
      `CHECK_INTERVAL_MS` otherwise. */
  lemma CycleLast(env: Script)
    requires DownloadEnds(env)
    ensures |Cycle(env).trace| > 0
    ensures Cycle(env).trace[|Cycle(env).trace| - 1]
      == if Cycle(env).outcome == Restarted then Restart else Delay(CHECK_INTERVAL_MS)
  {
    if env.begin == ESP_OK && ShouldUpdate(env.candidate, env.current) {
      AfterDownloadCalls(env, env.performs[FirstTerminal(env.performs)]);
      DownloadShape(env);
    }
  }

  /** A cycle either restarts, once and without delay, or ends with exactly
      one delay of `CHECK_INTERVAL_MS` and no restart. */
  lemma CycleEnds(env: Script)
    requires DownloadEnds(env)
    ensures Count(Restart, Cycle(env).trace) == if Cycle(env).outcome == Restarted then 1 else 0
    ensures Count(Delay(CHECK_INTERVAL_MS), Cycle(env).trace)
      == if Cycle(env).outcome == Restarted then 0 else 1
  {
    if env.begin == ESP_OK && ShouldUpdate(env.candidate, env.current) {
      AfterDownloadCalls(env, env.performs[FirstTerminal(env.performs)]);
      DownloadShape(env);
      DownloadCount(env, Restart);
      DownloadCount(env, Delay(CHECK_INTERVAL_MS));
    } else if env.begin == ESP_OK {
      CountFour(Begin, GetDesc, Finish, Delay(CHECK_INTERVAL_MS));
    }
  }

  /** The calls of consecutive cycles, one cycle per script. */
  function Runs(envs: seq<Script>): seq<Event>
    requires forall i {:trigger DownloadEnds(envs[i])} :: 0 <= i < |envs| ==> DownloadEnds(envs[i])
  {
    if envs == [] then [] else Runs(envs[..|envs| - 1]) + Cycle(envs[|envs| - 1]).trace
  }

  /** Running one more cycle appends its calls to the run so far. */
  lemma RunsAppend(envs: seq<Script>, k: nat)
    requires k < |envs| && forall i {:trigger DownloadEnds(envs[i])} :: 0 <= i < |envs| ==> DownloadEnds(envs[i])
    ensures Runs(envs[..k + 1]) == Runs(envs[..k]) + Cycle(envs[k]).trace
  {
    assert envs[..k + 1][..k] == envs[..k];
  }

  /** One more pass of the outer loop after cycles none of which restarted:
      its calls are appended to the run, and the earlier cycles still did
      not restart. */
  lemma TaskStep(envs: seq<Script>, k: nat, trace: seq<Event>, outcome: Outcome, t: seq<Event>)
    requires k < |envs| && forall i {:trigger DownloadEnds(envs[i])} :: 0 <= i < |envs| ==> DownloadEnds(envs[i])
    requires trace == Runs(envs[..k]) && Run(outcome, t) == Cycle(envs[k])
    requires forall i {:trigger Cycle(envs[i])} :: 0 <= i < k - 1 ==> Cycle(envs[i]).outcome != Restarted
    requires 0 < k ==> Cycle(envs[k - 1]).outcome != Restarted
    ensures trace + t == Runs(envs[..k + 1])
    ensures outcome == Restarted <==> Cycle(envs[k]).outcome == Restarted
    ensures forall i {:trigger Cycle(envs[i])} :: 0 <= i < k ==> Cycle(envs[i]).outcome != Restarted
  {
    RunsAppend(envs, k);
  }

  /** In a run where no cycle but possibly the last restarted, there is a
      restart call exactly when the last cycle restarted, and then as the
      last call. */
  lemma {:induction false} RunsRestarts(envs: seq<Script>, k: nat)
    requires k <= |envs| && forall i {:trigger DownloadEnds(envs[i])} :: 0 <= i < |envs| ==> DownloadEnds(envs[i])
    requires forall i {:trigger Cycle(envs[i])} :: 0 <= i < k - 1 ==> Cycle(envs[i]).outcome != Restarted
    ensures var restarted := 0 < k && Cycle(envs[k - 1]).outcome == Restarted;
      var trace := Runs(envs[..k]);
      && Count(Restart, trace) == (if restarted then 1 else 0)
      && (restarted ==> trace[|trace| - 1] == Restart)
  {
    if k > 0 {
      RunsRestarts(envs, k - 1);
      RunsAppend(envs, k - 1);
      CycleEnds(envs[k - 1]);
      CycleLast(envs[k - 1]);
      CountAppend(Restart, Runs(envs[..k - 1]), Cycle(envs[k - 1]).trace);
    }
  }

  /** In such a run every cycle but a restarting last one contributed
      exactly one delay of `CHECK_INTERVAL_MS`. */
  lemma {:induction false} RunsDelays(envs: seq<Script>, k: nat)
    requires k <= |envs| && forall i {:trigger DownloadEnds(envs[i])} :: 0 <= i < |envs| ==> DownloadEnds(envs[i])
    requires forall i {:trigger Cycle(envs[i])} :: 0 <= i < k - 1 ==> Cycle(envs[i]).outcome != Restarted
    ensures Count(Delay(CHECK_INTERVAL_MS), Runs(envs[..k]))
      == if 0 < k && Cycle(envs[k - 1]).outcome == Restarted then k - 1 else k
  {
    if k > 0 {
      RunsDelays(envs, k - 1);
      RunsAppend(envs, k - 1);
      CycleEnds(envs[k - 1]);
      CountAppend(Delay(CHECK_INTERVAL_MS), Runs(envs[..k - 1]), Cycle(envs[k - 1]).trace);
    }
  }

  /** The outer `while(1)` of `ota_task`, run against the scripts of the
      first `|envs|` cycles. Only a restart leaves the loop early; every
      cycle before it ended with one delay, and the restart is the last
      call. */
  method OtaTask(envs: seq<Script>) returns (trace: seq<Event>, cycles: nat, restarted: bool)
    requires forall i {:trigger DownloadEnds(envs[i])} :: 0 <= i < |envs| ==> DownloadEnds(envs[i])
    ensures cycles <= |envs| && trace == Runs(envs[..cycles])
    ensures restarted <==> 0 < cycles && Cycle(envs[cycles - 1]).outcome == Restarted
    ensures forall i {:trigger Cycle(envs[i])} :: 0 <= i < cycles - 1 ==> Cycle(envs[i]).outcome != Restarted
    ensures !restarted ==> cycles == |envs|
    ensures Count(Restart, trace) == if restarted then 1 else 0
    ensures restarted ==> trace[|trace| - 1] == Restart
    ensures Count(Delay(CHECK_INTERVAL_MS), trace) == if restarted then cycles - 1 else cycles
  {
    trace, cycles, restarted := [], 0, false;
    while cycles < |envs| && !restarted
      invariant cycles <= |envs| && trace == Runs(envs[..cycles])
      invariant restarted <==> 0 < cycles && Cycle(envs[cycles - 1]).outcome == Restarted
      invariant forall i {:trigger Cycle(envs[i])} :: 0 <= i < cycles - 1 ==> Cycle(envs[i]).outcome != Restarted
    {
      var outcome, t := OtaCycle(envs[cycles]);
      TaskStep(envs, cycles, trace, outcome, t);
      trace := trace + t;
      cycles := cycles + 1;
      restarted := outcome == Restarted;
    }
    RunsRestarts(envs, cycles);
    RunsDelays(envs, cycles);
  }
}
