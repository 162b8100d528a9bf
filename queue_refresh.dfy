/** One pass of the controller's main loop (`Main`): list the queues whose
    names start with the configured prefix, start a monitor for each of
    them, wait for the refresh interval, then cancel the pass's monitors and
    list again. */
module QueueRefresh {
  import opened Settings
  import Int32
  import Monitor

  /** `ListQueuesResponse`: whether the HTTP status was OK, and the queue URLs. */
  datatype ListQueuesResponse = ListQueuesResponse(ok: bool, queueUrls: seq<string>)

  const FifoSuffix: string := ".fifo"

  /** `String.EndsWith`, compared character by character. */
  predicate EndsWith(s: string, suffix: string)
  {
    |suffix| <= |s| && s[|s| - |suffix|..] == suffix
  }

  /** A URL ending in `.fifo` is a FIFO queue; one without the dot is not. */
  lemma {:induction false} FifoSuffixOnly(name: string)
    ensures EndsWith(name + FifoSuffix, FifoSuffix)
    ensures !EndsWith(name + "fifo", FifoSuffix) || EndsWith(name, ".")
  {
    assert (name + FifoSuffix)[|name|..] == FifoSuffix;
    if EndsWith(name + "fifo", FifoSuffix) {
      var t := name + "fifo";
      assert t[|t| - 5] == '.';
      assert name[|name| - 1..] == ".";
    }
  }

  /** How a pass ends. */
  datatype Refresh =
    | RefreshAfter(ms: int)  // waits, cancels the pass's monitors, lists again
    | NeverRefresh           // `Task.Delay(-1)`: the loop waits forever
    | RetryAtOnce            // an exception was caught: lists again at once, cancelling nothing

  /** The queues a pass started monitors for, the number of FIFO queues it
      reported, and how it ends. */
  datatype Pass = Pass(monitored: seq<string>, fifoCount: nat, refresh: Refresh)

  /** The FIFO queues among `urls`, in their order (the `Where` filter). */
  function FifoQueues(urls: seq<string>): (fifo: seq<string>)
    ensures |fifo| <= |urls|
    ensures forall u :: u in fifo <==> u in urls && EndsWith(u, FifoSuffix)
  {
    if urls == [] then []
    else (if EndsWith(urls[0], FifoSuffix) then [urls[0]] else []) + FifoQueues(urls[1..])
  }

  /** `QueueUrlRefreshInMinutes * 60 * 1000` in `int` arithmetic. */
  function RefreshDelay(config: Config): int
  {
    Int32.Mul(Int32.Mul(config.queueUrlRefreshInMinutes, 60), 1000)
  }

  /** `Task.Delay(ms)` inside the loop's try: a negative delay other than -1
      throws and the catch starts the next pass at once. */
  function RefreshFor(ms: int): Refresh
  {
    if ms < -1 then RetryAtOnce else if ms == -1 then NeverRefresh else RefreshAfter(ms)
  }

  /** One pass, given what the queue listing answers. */
  function RunPass(config: Config, listing: Monitor.Call<ListQueuesResponse>): Pass
  {
    if listing.Threw? then Pass([], 0, RetryAtOnce)
    else if !listing.response.ok then Pass([], 0, RefreshFor(RefreshDelay(config)))
    else
      var urls := listing.response.queueUrls;
      Pass(urls, |FifoQueues(urls)|, RefreshFor(RefreshDelay(config)))
  }

  /** The body of the main loop as the source runs it: a monitor is started
      for each listed queue in turn. */
  method MonitorQueues(config: Config, listing: Monitor.Call<ListQueuesResponse>) returns (pass: Pass)
    ensures pass == RunPass(config, listing)
  {
    if listing.Threw? {
      return Pass([], 0, RetryAtOnce);
    }
    var monitored: seq<string> := [];
    var fifoCount := 0;
    if listing.response.ok {
      var queueUrls := listing.response.queueUrls;
      fifoCount := |FifoQueues(queueUrls)|;
      for i := 0 to |queueUrls|
        invariant monitored == queueUrls[..i]
      {
        monitored := monitored + [queueUrls[i]];
      }
      assert queueUrls[..|queueUrls|] == queueUrls;
    }
    pass := Pass(monitored, fifoCount, RefreshFor(RefreshDelay(config)));
  }

  /** Every listed queue is monitored, FIFO or not; the FIFO count covers
      only the FIFO ones. */
  lemma {:induction false} NonFifoQueueIsMonitored(
    config: Config, response: ListQueuesResponse, queueUrl: string)
    requires response.ok && queueUrl in response.queueUrls
    ensures queueUrl in RunPass(config, Monitor.Returned(response)).monitored
    ensures !EndsWith(queueUrl, FifoSuffix) ==> queueUrl !in FifoQueues(response.queueUrls)
    ensures RunPass(config, Monitor.Returned(response)).fifoCount <= |RunPass(config, Monitor.Returned(response)).monitored|
  {
  }

  /** The FIFO queues keep the listing's order: a FIFO queue listed right
      after others is reported right after theirs. */
  lemma {:induction false} FifoQueuesConcat(a: seq<string>, b: seq<string>)
    ensures FifoQueues(a + b) == FifoQueues(a) + FifoQueues(b)
    decreases |a|
  {
    if a == [] {
      assert a + b == b;
    } else {
      assert (a + b)[1..] == a[1..] + b;
      FifoQueuesConcat(a[1..], b);
    }
  }

  /** A listing that fails or is not OK starts no monitor. */
  lemma {:induction false} FailedListingMonitorsNothing(config: Config, listing: Monitor.Call<ListQueuesResponse>)
    requires listing.Threw? || !listing.response.ok
    ensures RunPass(config, listing).monitored == []
    ensures listing.Threw? ==> RunPass(config, listing).refresh == RetryAtOnce
  {
  }

  /** The default refresh interval of 30 minutes is 1800000 ms. */
  lemma {:induction false} DefaultRefreshIsHalfAnHour()
    ensures RefreshDelay(Defaults()) == 1800000
    ensures RefreshFor(RefreshDelay(Defaults())) == RefreshAfter(1800000)
  {
  }

  /** A refresh interval of up to 35791 minutes is that many minutes in milliseconds. */
  lemma {:induction false} RefreshDelayInRange(config: Config)
    requires 0 <= config.queueUrlRefreshInMinutes <= 35791
    ensures RefreshFor(RefreshDelay(config)) == RefreshAfter(config.queueUrlRefreshInMinutes * 60000)
  {
  }

  /** A refresh interval that wraps to a negative delay makes every pass
      start monitors and retry at once without cancelling them, so the
      monitors of earlier passes keep running beside the new ones. */
  lemma {:induction false} WrappedRefreshKeepsMonitors(config: Config, response: ListQueuesResponse)
    requires response.ok
    requires RefreshDelay(config) < -1
    ensures RunPass(config, Monitor.Returned(response)) ==
      Pass(response.queueUrls, |FifoQueues(response.queueUrls)|, RetryAtOnce)
  {
  }

  /** One minute more than 35791 already wraps the refresh delay negative. */
  lemma {:induction false} OversizedRefreshIntervalWraps(config: Config)
    requires config.queueUrlRefreshInMinutes == 35792
    ensures RefreshDelay(config) == -2147447296
  {
  }

  /** The loop never waits forever: the delay is a multiple of 1000 modulo 2^32. */
  lemma {:induction false} RefreshNeverWaitsForever(config: Config)
    ensures RefreshFor(RefreshDelay(config)) != NeverRefresh
  {
  }
}
