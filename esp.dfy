/**
 The ESP-IDF calls made by one OTA check cycle, seen from the caller's side.

 The bodies of `esp_https_ota_begin`, `esp_https_ota_get_img_desc`,
 `esp_https_ota_perform`, `esp_https_ota_is_complete_data_received`,
 `esp_https_ota_finish`, `esp_ota_get_next_update_partition`,
 `esp_ota_set_boot_partition`, `esp_restart` and `vTaskDelay` are not part of
 this model. Each cycle instead runs against a `Script`: the results those
 calls return, fixed in advance. What a cycle does is recorded as a trace of
 `Event`s, one per call, in call order.
 */
module Esp {
  import opened CString

  /** `esp_err_t`, the status code every ESP-IDF call returns. */
  type EspErr = int

  /** `ESP_OK` from esp_err.h. */
  const ESP_OK: EspErr := 0
  /** `ESP_ERR_HTTPS_OTA_IN_PROGRESS` from esp_https_ota.h
      (`ESP_ERR_HTTPS_OTA_BASE` 0x9000, plus one). */
  const ESP_ERR_HTTPS_OTA_IN_PROGRESS: EspErr := 0x9001

  /** One observable call made by the OTA task. */
  datatype Event =
    | Begin          // esp_https_ota_begin
    | GetDesc        // esp_https_ota_get_img_desc
    | Perform        // esp_https_ota_perform
    | IsComplete     // esp_https_ota_is_complete_data_received
    | Finish         // esp_https_ota_finish
    | NextPartition  // esp_ota_get_next_update_partition
    | SetBoot        // esp_ota_set_boot_partition
    | Restart        // esp_restart
    | Delay(ms: nat) // vTaskDelay(pdMS_TO_TICKS(ms))

  /** What the environment answers during one cycle:
      the result of `esp_https_ota_begin`; the version string of the
      candidate image's descriptor and of the running image's descriptor;
      the results of successive `esp_https_ota_perform` calls; the answer
      of `esp_https_ota_is_complete_data_received`; the result of the first
      `esp_https_ota_finish` (the only one either task reads); and the
      result of `esp_ota_set_boot_partition`. */
  datatype Script = Script(
    begin: EspErr,
    candidate: string,
    current: string,
    performs: seq<EspErr>,
    completeData: bool,
    firstFinish: EspErr,
    setBoot: EspErr)

  /** Which way one cycle ended. */
  datatype Outcome =
    | BeginFailed(err: EspErr)       // esp_https_ota_begin returned an error
    | NoUpdate                       // versions equal: session released unused
    | TransferFailed(err: EspErr)    // perform ended with a status other than ESP_OK
    | IncompleteData                 // perform said ESP_OK but not all data arrived
    | ValidationFailed(err: EspErr)  // the first esp_https_ota_finish failed
    | Restarted                      // the device restarts into the new image

  /** The outcome of one cycle together with the calls it made. */
  datatype Run = Run(outcome: Outcome, trace: seq<Event>)

  /** The update decision of both tasks: `strcmp(new, current) != 0`. */
  predicate ShouldUpdate(candidate: string, current: string)
  {
    Strcmp(candidate, current) != 0
  }

  /** The decision is plain string inequality: no version ordering, so a
      candidate that sorts lower than the running version is still taken. */
  lemma ShouldUpdateIffDiffer(candidate: string, current: string)
    ensures ShouldUpdate(candidate, current) <==> candidate != current
    ensures Strcmp(candidate, current) < 0 ==> ShouldUpdate(candidate, current)
  {
    StrcmpZeroIff(candidate, current);
  }

  /** The perform results hold some status other than "in progress", so the
      download loop ends. */
  predicate PerformEnds(performs: seq<EspErr>)
  {
    exists i :: 0 <= i < |performs| && performs[i] != ESP_ERR_HTTPS_OTA_IN_PROGRESS
  }

  /** A cycle that enters the download loop eventually leaves it. */
  predicate DownloadEnds(env: Script)
  {
    env.begin == ESP_OK && ShouldUpdate(env.candidate, env.current) ==> PerformEnds(env.performs)
  }

  /** The index of the perform call that ends the download loop: the first
      result that is not "in progress". */
  function FirstTerminal(performs: seq<EspErr>): (n: nat)
    requires PerformEnds(performs)
    ensures n < |performs| && performs[n] != ESP_ERR_HTTPS_OTA_IN_PROGRESS
  {
    if performs[0] != ESP_ERR_HTTPS_OTA_IN_PROGRESS then 0
    else
      assert PerformEnds(performs[1..]) by {
        var i :| 0 <= i < |performs| && performs[i] != ESP_ERR_HTTPS_OTA_IN_PROGRESS;
        assert performs[1..][i - 1] == performs[i];
      }
      1 + FirstTerminal(performs[1..])
  }

  /** Every perform result before `FirstTerminal` is "in progress". */
  lemma {:induction false} FirstTerminalFirst(performs: seq<EspErr>)
    requires PerformEnds(performs)
    ensures forall j :: 0 <= j < FirstTerminal(performs) ==> performs[j] == ESP_ERR_HTTPS_OTA_IN_PROGRESS
  {
    if performs[0] == ESP_ERR_HTTPS_OTA_IN_PROGRESS {
      FirstTerminalFirst(performs[1..]);
      forall j | 0 < j < FirstTerminal(performs)
        ensures performs[j] == ESP_ERR_HTTPS_OTA_IN_PROGRESS
      {
        assert performs[j] == performs[1..][j - 1];
      }
    }
  }

  /** The download loop `while (1) { err = esp_https_ota_perform(...); if
      (err != ESP_ERR_HTTPS_OTA_IN_PROGRESS) break; }`: it calls perform
      until a status other than "in progress" comes back, and returns that
      status with the number of calls made. */
  method PerformLoop(performs: seq<EspErr>) returns (err: EspErr, calls: nat)
    requires PerformEnds(performs)
    ensures calls == FirstTerminal(performs) + 1
    ensures err == performs[calls - 1] && err != ESP_ERR_HTTPS_OTA_IN_PROGRESS
  {
    ghost var n := FirstTerminal(performs);
    FirstTerminalFirst(performs);
    calls := 0;
    while true
      invariant calls <= n
      decreases n - calls
    {
      err := performs[calls];
      calls := calls + 1;
      if err != ESP_ERR_HTTPS_OTA_IN_PROGRESS {
        break;
      }
    }
  }

  /** `n` copies of `e`. */
  function Repeat(e: Event, n: nat): (r: seq<Event>)
    ensures |r| == n
    ensures forall i :: 0 <= i < n ==> r[i] == e
  {
    if n == 0 then [] else Repeat(e, n - 1) + [e]
  }

  /** How many times `e` occurs in the trace `s`. */
  function Count(e: Event, s: seq<Event>): (c: nat)
    ensures c <= |s|
  {
    if s == [] then 0
    else
      assert s == s[..|s| - 1] + [s[|s| - 1]];
      Count(e, s[..|s| - 1]) + if s[|s| - 1] == e then 1 else 0
  }

  /** 1 when the call `a` is `x`, 0 otherwise. */
  function Hit(x: Event, a: Event): nat
  {
    if x == a then 1 else 0
  }

  /** Counting in a three-call trace. */
  lemma CountThree(a: Event, b: Event, c: Event)
    ensures forall x :: Count(x, [a, b, c]) == Hit(x, a) + Hit(x, b) + Hit(x, c)
  {
    assert [a, b, c][..2] == [a, b] && [a, b][..1] == [a] && [a][..0] == [];
    forall x ensures Count(x, [a, b, c]) == Hit(x, a) + Hit(x, b) + Hit(x, c) {
      assert Count(x, [a]) == Hit(x, a);
      assert Count(x, [a, b]) == Hit(x, a) + Hit(x, b);
    }
  }

  /** Counting in a four-call trace. */
  lemma CountFour(a: Event, b: Event, c: Event, d: Event)
    ensures forall x :: Count(x, [a, b, c, d]) == Hit(x, a) + Hit(x, b) + Hit(x, c) + Hit(x, d)
  {
    CountThree(a, b, c);
    assert [a, b, c, d][..3] == [a, b, c];
  }

  /** Counting in a five-call trace. */
  lemma CountFive(a: Event, b: Event, c: Event, d: Event, e: Event)
    ensures forall x ::
      Count(x, [a, b, c, d, e]) == Hit(x, a) + Hit(x, b) + Hit(x, c) + Hit(x, d) + Hit(x, e)
  {
    CountFour(a, b, c, d);
    assert [a, b, c, d, e][..4] == [a, b, c, d];
  }

  /** Counting distributes over the concatenation of traces. */
  lemma {:induction false} CountAppend(e: Event, a: seq<Event>, b: seq<Event>)
    ensures Count(e, a + b) == Count(e, a) + Count(e, b)
  {
    if b != [] {
      assert (a + b)[..|a + b| - 1] == a + b[..|b| - 1];
      CountAppend(e, a, b[..|b| - 1]);
    } else {
      assert a + b == a;
    }
  }

  /** `Repeat(e, n)` holds `e` exactly `n` times and nothing else. */
  lemma {:induction false} CountRepeat(x: Event, e: Event, n: nat)
    ensures Count(x, Repeat(e, n)) == if x == e then n else 0
  {
    if n > 0 {
      CountRepeat(x, e, n - 1);
      CountAppend(x, Repeat(e, n - 1), [e]);
      assert Count(x, [e]) == if x == e then 1 else 0 by {
        assert [e][..0] == [];
      }
    }
  }

  /** Counting in a trace made of a begin, a descriptor read, `k` perform
      calls and then `rest`. */
  lemma CountDownload(x: Event, k: nat, rest: seq<Event>)
    ensures Count(x, [Begin, GetDesc] + Repeat(Perform, k) + rest)
      == Hit(x, Begin) + Hit(x, GetDesc) + (if x == Perform then k else 0) + Count(x, rest)
  {
    CountRepeat(x, Perform, k);
    assert Count(x, [Begin, GetDesc]) == Hit(x, Begin) + Hit(x, GetDesc) by {
      assert [Begin, GetDesc][..1] == [Begin];
    }
    CountAppend(x, [Begin, GetDesc], Repeat(Perform, k));
    CountAppend(x, [Begin, GetDesc] + Repeat(Perform, k), rest);
  }

  /** The trace ends with the call `x` followed by the call `y`. */
  predicate EndsWith(t: seq<Event>, x: Event, y: Event)
  {
    |t| >= 2 && t[|t| - 2] == x && t[|t| - 1] == y
  }

  /** `n` "in progress" results followed by a status other than "in
      progress" end the download loop at call `n`, whatever follows. */
  lemma FirstTerminalAt(performs: seq<EspErr>, n: nat)
    requires n < |performs| && performs[n] != ESP_ERR_HTTPS_OTA_IN_PROGRESS
    requires forall j :: 0 <= j < n ==> performs[j] == ESP_ERR_HTTPS_OTA_IN_PROGRESS
    ensures PerformEnds(performs) && FirstTerminal(performs) == n
  {
    FirstTerminalFirst(performs);
  }
}
