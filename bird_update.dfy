/** One BIRD update cycle (`BIRDConfig::_update`, entered through `update()`)
    and the decision a delayed retry (`request_delayed_update`) takes when
    it wakes up. The file write and the control-socket exchange are the
    cycle's result rather than performed effects; timestamps are inputs. */
module BirdUpdate {
  import opened Wrappers
  import opened BirdRender

  const NotEnabled: string := "BIRD is not enabled"
  /** Retries whose counter is above this log a starvation warning. */
  const StarvationThreshold: nat := 50
  /** `UNIX_EPOCH`, the value the last-update watermark starts with. */
  const Epoch: int := 0

  /** The process-wide `bird` options: output file, whether to reconfigure,
      the control socket path. */
  datatype BirdOptions = BirdOptions(generatedConf: string, doReconfigure: bool, controlSock: string)

  /** What one cycle does. */
  datatype Cycle =
    | Failed(message: string)
      // `_update` returns this error; nothing is written
    | Rescheduled(retryCounter: nat)
      // `request_delayed_update(retryCounter)` is called and `_update` returns Ok
    | Written(path: string, text: string, reconfigureSocket: Option<string>)
      // `text` replaces the file at `path`; then, if a socket is named,
      // `configure\n` is sent to it

  /** The caller of `_update` sees `Ok(())`. */
  predicate ReturnsOk(c: Cycle)
  {
    !c.Failed?
  }

  /** What a cycle with retry counter `delayTimes` does, given the outcome of
      loading the process configuration and the roster it renders. */
  function CycleSpec(config: Result<Option<BirdOptions>, string>, zones: seq<Zone>, delayTimes: nat): (c: Cycle)
    ensures ReturnsOk(c) <==> config.Ok? && config.value.Some?
    ensures c.Rescheduled? ==> c.retryCounter == delayTimes
  {
    match config
    case Err(e) => Failed(e)
    case Ok(None) => Failed(NotEnabled)
    case Ok(Some(opts)) =>
      match RenderSpec(zones)
      case Deferred => Rescheduled(delayTimes)
      case Rendered(text) => Written(opts.generatedConf, text, if opts.doReconfigure then Some(opts.controlSock) else None)
  }

  /** `_update(delay_times)`: load the options (a missing `bird` block is an
      error), render, and either reschedule with the same counter or write
      the text and ask for a reconfigure. */
  method Update(config: Result<Option<BirdOptions>, string>, zones: seq<Zone>, delayTimes: nat) returns (c: Cycle)
    ensures c == CycleSpec(config, zones, delayTimes)
  {
    var opts: BirdOptions;
    match config {
      case Err(e) =>
        return Failed(e);
      case Ok(None) =>
        return Failed(NotEnabled);
      case Ok(Some(o)) =>
        opts := o;
    }
    var outcome := Render(zones);
    match outcome {
      case Deferred =>
        c := Rescheduled(delayTimes);
      case Rendered(text) =>
        c := Written(opts.generatedConf, text, if opts.doReconfigure then Some(opts.controlSock) else None);
    }
  }

  /** `update()`: a fresh cycle starts with counter 0. */
  method Trigger(config: Result<Option<BirdOptions>, string>, zones: seq<Zone>) returns (c: Cycle)
    ensures c == CycleSpec(config, zones, 0)
  {
    c := Update(config, zones, 0);
  }

  /** Without a `bird` block the cycle fails with "BIRD is not enabled",
      whatever the roster: nothing is rendered, written or reconfigured. */
  lemma NotEnabledFails(zones: seq<Zone>, delayTimes: nat)
    ensures CycleSpec(Ok(None), zones, delayTimes) == Failed(NotEnabled)
    ensures !ReturnsOk(CycleSpec(Ok(None), zones, delayTimes))
  {
  }

  /** A locked BIRD zone makes the cycle return Ok, write nothing, and
      reschedule itself with the counter unchanged. */
  lemma LockedZoneReschedules(opts: BirdOptions, zones: seq<Zone>, delayTimes: nat)
    requires AnyBlocked(zones)
    ensures CycleSpec(Ok(Some(opts)), zones, delayTimes) == Rescheduled(delayTimes)
    ensures ReturnsOk(CycleSpec(Ok(Some(opts)), zones, delayTimes))
  {
  }

  /** Otherwise the whole rendered text goes to the configured file, headed
      by the generator line, and a reconfigure is asked for exactly when the
      options say so. */
  lemma UnlockedRosterWritten(opts: BirdOptions, zones: seq<Zone>, delayTimes: nat)
    requires !AnyBlocked(zones)
    ensures var c := CycleSpec(Ok(Some(opts)), zones, delayTimes);
      && c.Written?
      && c.path == opts.generatedConf
      && c.text == Join([Header] + AllLines(zones))
      && |c.text| >= |Header| && c.text[..|Header|] == Header
      && (c.reconfigureSocket.Some? <==> opts.doReconfigure)
      && (opts.doReconfigure ==> c.reconfigureSocket == Some(opts.controlSock))
  {
    HeaderFirstLine(zones);
  }

  /** What a delayed retry does after its sleep. */
  datatype RetryDecision =
    | Dropped
      // a newer update superseded it; nothing happens
    | Rerun(warn: bool, counter: nat)
      // a warning is logged when `warn`; then `_update(counter)` runs

  /** The task `request_delayed_update(delayTimes)` spawns: `captured` is
      the time taken when the request was made, `lastUpdate` the watermark
      it reads after sleeping. */
  function DelayedRetry(lastUpdate: int, captured: int, delayTimes: nat): RetryDecision
  {
    if lastUpdate <= captured then Rerun(delayTimes > StarvationThreshold, delayTimes + 1)
    else Dropped
  }

  /** A retry reruns the cycle exactly when no newer update has moved the
      watermark past its captured time, and then with the next counter; it
      warns exactly when the counter it was given is above the threshold
      (50), and it is
      never refused for a high counter. */
  lemma RetryGate(lastUpdate: int, captured: int, delayTimes: nat)
    ensures DelayedRetry(lastUpdate, captured, delayTimes).Rerun? <==> lastUpdate <= captured
    ensures DelayedRetry(lastUpdate, captured, delayTimes).Rerun? ==>
      && DelayedRetry(lastUpdate, captured, delayTimes).counter == delayTimes + 1
      && (DelayedRetry(lastUpdate, captured, delayTimes).warn <==> delayTimes > StarvationThreshold)
  {
  }

  /** Of two requests at t1 < t2, once the later one has advanced the
      watermark to t2, the earlier retry does nothing. */
  lemma SupersededRetryDropped(t1: int, t2: int, delayTimes: nat)
    requires t1 < t2
    ensures DelayedRetry(t2, t1, delayTimes) == Dropped
  {
  }

  /** A retry that runs against some watermark also runs against any older
      one, and one that is dropped stays dropped against any newer one. */
  lemma RetryMonotone(w: int, w': int, captured: int, delayTimes: nat)
    requires w' <= w
    ensures DelayedRetry(w, captured, delayTimes).Rerun? ==> DelayedRetry(w', captured, delayTimes).Rerun?
    ensures DelayedRetry(w', captured, delayTimes).Dropped? ==> DelayedRetry(w, captured, delayTimes).Dropped?
  {
  }

  /** While the watermark keeps its initial value, every retry requested
      after the epoch runs. */
  lemma EpochWatermarkNeverDrops(captured: int, delayTimes: nat)
    requires captured >= Epoch
    ensures DelayedRetry(Epoch, captured, delayTimes) == Rerun(delayTimes > StarvationThreshold, delayTimes + 1)
  {
  }

  /** What one run of `_update` reads: the outcome of `get_config()`, and
      the roster from `get_zones()` with each zone's `try_lock()` result. */
  datatype CycleInput = CycleInput(config: Result<Option<BirdOptions>, string>, zones: seq<Zone>)

  /** A cycle on this input defers: BIRD is enabled and a BIRD zone is locked. */
  predicate Defers(input: CycleInput)
  {
    input.config.Ok? && input.config.value.Some? && AnyBlocked(input.zones)
  }

  /** `next` is the cycle that runs, on what it reads (`input`), because
      `prev` deferred and the retry it requested, which captured the time
      `time`, passed the gate. */
  predicate Followed(lastUpdate: int, time: int, prev: Cycle, input: CycleInput, next: Cycle)
  {
    && prev.Rescheduled?
    && DelayedRetry(lastUpdate, time, prev.retryCounter).Rerun?
    && next == CycleSpec(input.config, input.zones, prev.retryCounter + 1)
  }

  /** In a chain `r` whose first cycle read `inputs[i]`, the cycle after
      cycle k followed it. */
  predicate FollowsAt(lastUpdate: int, inputs: seq<CycleInput>, captured: seq<int>, i: nat, r: seq<Cycle>, k: nat)
    requires |inputs| == |captured| + 1
  {
    && i + k < |captured|
    && k + 1 < |r|
    && Followed(lastUpdate, captured[i + k], r[k], inputs[i + k + 1], r[k + 1])
  }

  /** Cycle `i` of a chain, run with `counter`, and the cycles that follow
      it when each deferral's retry is taken into account. Cycle k reads
      `inputs[k]`, and the retry it requests captures the time
      `captured[k]`; the watermark is fixed. */
  function ChainFrom(lastUpdate: int, inputs: seq<CycleInput>, captured: seq<int>, i: nat, counter: nat): (r: seq<Cycle>)
    requires |inputs| == |captured| + 1 && i < |inputs|
    ensures 1 <= |r| <= |inputs| - i
    ensures r[0] == CycleSpec(inputs[i].config, inputs[i].zones, counter)
    ensures forall k :: 0 <= k < |r| - 1 ==> FollowsAt(lastUpdate, inputs, captured, i, r, k)
    ensures i + |r| < |inputs| ==>
      !r[|r| - 1].Rescheduled? || DelayedRetry(lastUpdate, captured[i + |r| - 1], r[|r| - 1].retryCounter).Dropped?
    decreases |captured| - i
  {
    var c := CycleSpec(inputs[i].config, inputs[i].zones, counter);
    if !c.Rescheduled? || i == |captured| then [c]
    else
      var retry := DelayedRetry(lastUpdate, captured[i], c.retryCounter);
      if retry.Dropped? then [c]
      else
        var rest := ChainFrom(lastUpdate, inputs, captured, i + 1, retry.counter);
        FollowsPrepend(lastUpdate, inputs, captured, i, i + 1, c, rest);
        [c] + rest
  }

  /** A cycle followed by a chain that starts one step later is a chain. */
  lemma FollowsPrepend(lastUpdate: int, inputs: seq<CycleInput>, captured: seq<int>, i: nat, next: nat,
                        c: Cycle, rest: seq<Cycle>)
    requires |inputs| == |captured| + 1 && i < |captured| && next == i + 1 && |rest| >= 1
    requires Followed(lastUpdate, captured[i], c, inputs[next], rest[0])
    requires forall k :: 0 <= k < |rest| - 1 ==> FollowsAt(lastUpdate, inputs, captured, next, rest, k)
    ensures forall k :: 0 <= k < |rest| ==> FollowsAt(lastUpdate, inputs, captured, i, [c] + rest, k)
  {
    forall k | 0 <= k < |rest|
      ensures FollowsAt(lastUpdate, inputs, captured, i, [c] + rest, k)
    {
      if k > 0 {
        assert FollowsAt(lastUpdate, inputs, captured, next, rest, k - 1);
      }
    }
  }

  /** The cycles run after `update()`, each on what it reads itself: a cycle
      follows exactly when its predecessor deferred and that deferral's
      retry passed the watermark gate, and then with the next counter; the
      chain stops after any other outcome or a dropped retry. */
  function RetryChain(lastUpdate: int, inputs: seq<CycleInput>, captured: seq<int>): (r: seq<Cycle>)
    requires |inputs| == |captured| + 1
    ensures 1 <= |r| <= |inputs|
    ensures r[0] == CycleSpec(inputs[0].config, inputs[0].zones, 0)
    ensures forall k :: 0 <= k < |r| - 1 ==> FollowsAt(lastUpdate, inputs, captured, 0, r, k)
    ensures |r| < |inputs| ==>
      !r[|r| - 1].Rescheduled? || DelayedRetry(lastUpdate, captured[|r| - 1], r[|r| - 1].retryCounter).Dropped?
  {
    ChainFrom(lastUpdate, inputs, captured, 0, 0)
  }

  /** When the first cycle finds no locked BIRD zone, nothing follows it; it
      writes exactly when BIRD is enabled. */
  lemma ChainStops(lastUpdate: int, inputs: seq<CycleInput>, captured: seq<int>)
    requires |inputs| == |captured| + 1 && !AnyBlocked(inputs[0].zones)
    ensures RetryChain(lastUpdate, inputs, captured) == [CycleSpec(inputs[0].config, inputs[0].zones, 0)]
    ensures RetryChain(lastUpdate, inputs, captured)[0].Written? <==> inputs[0].config.Ok? && inputs[0].config.value.Some?
  {
  }

  /** While the first `k` cycles defer and their retries are not
      superseded, cycle j runs with counter j for every j up to `k`, and
      cycle k is the cycle on its own input. */
  lemma {:induction false} DeferredPrefix(lastUpdate: int, inputs: seq<CycleInput>, captured: seq<int>, k: nat)
    requires |inputs| == |captured| + 1 && k <= |captured|
    requires forall j :: 0 <= j < k ==> Defers(inputs[j]) && lastUpdate <= captured[j]
    ensures |RetryChain(lastUpdate, inputs, captured)| > k
    ensures forall j :: 0 <= j < k ==> RetryChain(lastUpdate, inputs, captured)[j] == Rescheduled(j)
    ensures RetryChain(lastUpdate, inputs, captured)[k] == CycleSpec(inputs[k].config, inputs[k].zones, k)
  {
    if k > 0 {
      DeferredPrefix(lastUpdate, inputs, captured, k - 1);
      var r := RetryChain(lastUpdate, inputs, captured);
      var prev := inputs[k - 1];
      LockedZoneReschedules(prev.config.value.value, prev.zones, k - 1);
      assert r[k - 1] == Rescheduled(k - 1);
      assert DelayedRetry(lastUpdate, captured[k - 1], k - 1).Rerun?;
      assert |r| > k;
      assert FollowsAt(lastUpdate, inputs, captured, 0, r, k - 1);
    }
  }

  /** Starvation: while every cycle finds a BIRD zone locked and no newer
      update comes, every retry is followed; cycle k runs with counter k,
      and the retry it schedules warns exactly when k is above the
      threshold, that is from the 52nd retry on. */
  lemma StarvedChain(lastUpdate: int, inputs: seq<CycleInput>, captured: seq<int>)
    requires |inputs| == |captured| + 1
    requires forall k :: 0 <= k < |inputs| ==> Defers(inputs[k])
    requires forall k :: 0 <= k < |captured| ==> lastUpdate <= captured[k]
    ensures |RetryChain(lastUpdate, inputs, captured)| == |inputs|
    ensures forall k :: 0 <= k < |inputs| ==> RetryChain(lastUpdate, inputs, captured)[k] == Rescheduled(k)
    ensures forall k :: 0 <= k < |captured| ==>
      DelayedRetry(lastUpdate, captured[k], RetryChain(lastUpdate, inputs, captured)[k].retryCounter)
        == Rerun(k >= StarvationThreshold + 1, k + 1)
  {
    DeferredPrefix(lastUpdate, inputs, captured, |captured|);
    var last := inputs[|captured|];
    LockedZoneReschedules(last.config.value.value, last.zones, |captured|);
    var r := RetryChain(lastUpdate, inputs, captured);
    assert r[|captured|] == Rescheduled(|captured|);
    forall k | 0 <= k < |captured|
      ensures DelayedRetry(lastUpdate, captured[k], r[k].retryCounter) == Rerun(k >= StarvationThreshold + 1, k + 1)
    {
      assert r[k] == Rescheduled(k);
    }
  }

  /** Every cycle of a chain but the last deferred. */
  lemma OnlyDeferralsContinue(lastUpdate: int, inputs: seq<CycleInput>, captured: seq<int>, k: nat)
    requires |inputs| == |captured| + 1 && k < |RetryChain(lastUpdate, inputs, captured)| - 1
    ensures RetryChain(lastUpdate, inputs, captured)[k].Rescheduled?
  {
    var r := RetryChain(lastUpdate, inputs, captured);
    assert FollowsAt(lastUpdate, inputs, captured, 0, r, k);
  }

  /** A released lock: when the first `k` cycles defer, their retries are
      not superseded, and cycle k finds BIRD enabled and no locked BIRD
      zone, then cycle k writes its own roster's text and ends the chain. */
  lemma RecoveredChain(lastUpdate: int, inputs: seq<CycleInput>, captured: seq<int>, k: nat)
    requires |inputs| == |captured| + 1 && k <= |captured|
    requires forall j :: 0 <= j < k ==> Defers(inputs[j]) && lastUpdate <= captured[j]
    requires inputs[k].config.Ok? && inputs[k].config.value.Some? && !AnyBlocked(inputs[k].zones)
    ensures |RetryChain(lastUpdate, inputs, captured)| == k + 1
    ensures forall j :: 0 <= j < k ==> RetryChain(lastUpdate, inputs, captured)[j] == Rescheduled(j)
    ensures var c := RetryChain(lastUpdate, inputs, captured)[k];
      && c.Written?
      && c.path == inputs[k].config.value.value.generatedConf
      && c.text == Join([Header] + AllLines(inputs[k].zones))
  {
    DeferredPrefix(lastUpdate, inputs, captured, k);
    UnlockedRosterWritten(inputs[k].config.value.value, inputs[k].zones, k);
    var r := RetryChain(lastUpdate, inputs, captured);
    if |r| > k + 1 {
      OnlyDeferralsContinue(lastUpdate, inputs, captured, k);
      assert false;
    }
  }
}
