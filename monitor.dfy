/** One activation of a queue monitor (`MonitorQueue`): read the queue's
    message counts, start or stop the queue's ECS task, and choose when to
    look at the queue again. The running tasks are kept in a registry keyed
    by queue URL (`_runningECSTasks`), shared by all monitors. */
module Monitor {
  import opened Wrappers
  import opened OverrideParser
  import opened Settings
  import TagResolver
  import Text
  import Int32

  /** A call to an AWS client: the response it returned, or the exception it
      threw (a failed request, or the monitor's token being cancelled). */
  datatype Call<T> = Returned(response: T) | Threw

  /** The two fields of `Amazon.ECS.Model.Task` the controller reads. */
  datatype EcsTask = EcsTask(taskArn: string, clusterArn: string)

  /** `GetQueueAttributesResponse`: whether the HTTP status was OK, and the two counts asked for. */
  datatype QueueAttributes = QueueAttributes(
    ok: bool,
    approximateNumberOfMessages: int,
    approximateNumberOfMessagesNotVisible: int)

  /** `RunTaskResponse`: whether the HTTP status was OK, the failure reasons and the started tasks. */
  datatype RunTaskResponse = RunTaskResponse(ok: bool, failures: seq<string>, tasks: seq<EcsTask>)

  /** The one container override of a run request: the container's name and its environment entries. */
  datatype ContainerOverride = ContainerOverride(name: Option<string>, environment: seq<(string, string)>)

  /** `RunTaskRequest`, with its task override reduced to the one container override it holds. */
  datatype RunTaskRequest = RunTaskRequest(
    cluster: Option<string>,
    count: int,
    launchType: string,
    startedBy: string,
    taskDefinition: Option<string>,
    overrides: Option<ContainerOverride>)

  datatype StopTaskRequest = StopTaskRequest(cluster: string, task: string, reason: string)

  const StopReason: string := "Message count at 0"

  /** What the AWS clients answer during one activation. A call the
      activation does not make is never looked at. The stop call's answer is
      whether its HTTP status was OK; the tag call's is the queue's tags. */
  datatype Responses = Responses(
    attributes: Call<QueueAttributes>,
    queueTags: Call<map<string, string>>,
    runTask: Call<RunTaskResponse>,
    stopTask: Call<bool>)

  /** How an activation ends. */
  datatype Next =
    | CheckAgainIn(ms: int)  // `Task.Delay(ms)`, then `MonitorQueue` is called again
    | WaitForever            // `Task.Delay(-1)`: the monitor never wakes up
    | Ended                  // an exception reached the catch: the monitor is not re-armed

  /** The requests an activation sent, whether it counts the task as
      started, and how it ends. */
  datatype Activation = Activation(
    runRequest: Option<RunTaskRequest>,
    stopRequest: Option<StopTaskRequest>,
    ecsStarted: bool,
    next: Next)

  /** The registry after an activation, and the activation. */
  datatype Outcome = Outcome(tasks: map<string, EcsTask>, activation: Activation)

  /** Where an activation stands before it waits: the requests sent so far,
      the `ecsStarted` flag, and whether an exception was thrown. */
  datatype Progress = Progress(
    runRequest: Option<RunTaskRequest>,
    stopRequest: Option<StopTaskRequest>,
    ecsStarted: bool,
    threw: bool)

  /** The registry together with the progress of the activation. */
  datatype Stage = Stage(tasks: map<string, EcsTask>, progress: Progress)

  /** `_runningECSTasks`: at most one task per queue URL. */
  class TaskRegistry {
    var tasks: map<string, EcsTask>

    constructor()
      ensures tasks == map[]
    {
      tasks := map[];
    }

    /** `IDictionary.Add`: refuses a key that is already present (.NET throws
        `ArgumentException`), and reports it by returning false. */
    method Add(queueUrl: string, task: EcsTask) returns (added: bool)
      modifies this
      ensures added <==> queueUrl !in old(tasks)
      ensures tasks == if added then old(tasks)[queueUrl := task] else old(tasks)
    {
      if queueUrl in tasks {
        added := false;
      } else {
        tasks := tasks[queueUrl := task];
        added := true;
      }
    }

    /** `IDictionary.Remove`. */
    method Remove(queueUrl: string) returns (removed: bool)
      modifies this
      ensures removed <==> queueUrl in old(tasks)
      ensures tasks == old(tasks) - {queueUrl}
    {
      removed := queueUrl in tasks;
      tasks := tasks - {queueUrl};
    }
  }

  /** The environment of the container override: one entry per configured
      variable, in the configured order, its value resolved against the
      queue's tags. */
  function OverrideEnvironment(overrides: Dictionary, queueTags: map<string, string>): seq<(string, string)>
  {
    seq(|overrides|, j requires 0 <= j < |overrides| =>
      (overrides[j].0, TagResolver.Resolve(overrides[j].1, queueTags)))
  }

  /** The request for starting the queue's task; the container override is
      only attached when some environment variable is configured. */
  function RunRequest(config: Config, startTag: string, queueTags: map<string, string>): RunTaskRequest
  {
    var overrides := config.ecsTaskEnvironmentVariableOverride;
    RunTaskRequest(
      config.ecsClusterArn, 1, config.ecsTaskLaunchType, startTag, config.ecsTaskDefinitionArn,
      if |overrides| > 0
      then Some(ContainerOverride(config.ecsTaskOverrideContainerName, OverrideEnvironment(overrides, queueTags)))
      else None)
  }

  /** The queue's tags as the start branch uses them: what `ListQueueTags`
      answered, or no tags when it was not asked because no override is configured. */
  function TagsRead(r: Responses): map<string, string>
  {
    if r.queueTags.Returned? then r.queueTags.response else map[]
  }

  /** The start branch: enough messages, and no task registered for the queue. */
  function StartBranch(tasks: map<string, EcsTask>, config: Config, queueUrl: string, startTag: string, r: Responses): Stage
  {
    if |config.ecsTaskEnvironmentVariableOverride| > 0 && r.queueTags.Threw? then
      Stage(tasks, Progress(None, None, false, true))
    else
      var request := RunRequest(config, startTag, TagsRead(r));
      if r.runTask.Threw? then
        Stage(tasks, Progress(Some(request), None, false, true))
      else
        var response := r.runTask.response;
        if !response.ok || |response.failures| > 0 || |response.tasks| == 0 then
          Stage(tasks, Progress(Some(request), None, false, false))
        else
          // the first task is added; a second `Add` on the same key throws
          var added := tasks[queueUrl := response.tasks[0]];
          Stage(added, Progress(Some(request), None, |response.tasks| == 1, |response.tasks| > 1))
  }

  /** The stop branch: the queue is drained and a task is registered for it. */
  function StopBranch(tasks: map<string, EcsTask>, queueUrl: string, r: Responses): Stage
    requires queueUrl in tasks
  {
    var task := tasks[queueUrl];
    var request := StopTaskRequest(task.clusterArn, task.taskArn, StopReason);
    if r.stopTask.Threw? then
      Stage(tasks, Progress(None, Some(request), false, true))
    else if r.stopTask.response then
      Stage(tasks - {queueUrl}, Progress(None, Some(request), false, false))
    else
      Stage(tasks, Progress(None, Some(request), false, false))
  }

  /** The activation up to the wait: which branch the message counts select. */
  function Branches(tasks: map<string, EcsTask>, config: Config, queueUrl: string, startTag: string, r: Responses): Stage
  {
    if r.attributes.Threw? then
      Stage(tasks, Progress(None, None, false, true))
    else
      var attributes := r.attributes.response;
      var visible := attributes.approximateNumberOfMessages;
      if !attributes.ok then
        Stage(tasks, Progress(None, None, false, false))
      else if visible >= config.messageThreshold && queueUrl !in tasks then
        StartBranch(tasks, config, queueUrl, startTag, r)
      else if visible >= config.messageThreshold then
        Stage(tasks, Progress(None, None, true, false))
      else if visible == 0 && attributes.approximateNumberOfMessagesNotVisible == 0 && queueUrl in tasks then
        StopBranch(tasks, queueUrl, r)
      else
        Stage(tasks, Progress(None, None, false, false))
  }

  /** `Task.Delay(ms)`: a negative delay other than -1 throws, -1 waits forever. */
  function AfterDelay(ms: int): (n: Next)
    ensures n == Ended <==> ms < -1
    ensures n == WaitForever <==> ms == -1
    ensures n.CheckAgainIn? ==> 0 <= n.ms == ms
  {
    if ms < -1 then Ended else if ms == -1 then WaitForever else CheckAgainIn(ms)
  }

  /** `QueueMessageCountCheckIfBlankInSeconds * 1000` in `int` arithmetic. */
  function BlankDelay(config: Config): int
  {
    Int32.Mul(config.queueMessageCountCheckIfBlankInSeconds, 1000)
  }

  /** `QueueMessageCountCheckIfActiveInMinutes * 60 * 1000` in `int` arithmetic. */
  function ActiveDelay(config: Config): int
  {
    Int32.Mul(Int32.Mul(config.queueMessageCountCheckIfActiveInMinutes, 60), 1000)
  }

  /** How the activation ends, given where it stands. */
  function Finish(p: Progress, config: Config): Activation
  {
    Activation(p.runRequest, p.stopRequest, p.ecsStarted,
      if p.threw then Ended
      else if p.ecsStarted then AfterDelay(ActiveDelay(config))
      else AfterDelay(BlankDelay(config)))
  }

  /** One activation of the monitor of `queueUrl`, against the registry `tasks`. */
  function Activate(tasks: map<string, EcsTask>, config: Config, queueUrl: string, startTag: string, r: Responses): Outcome
  {
    var s := Branches(tasks, config, queueUrl, startTag, r);
    Outcome(s.tasks, Finish(s.progress, config))
  }

  /** The loop that fills the container override's environment. */
  method BuildEnvironment(overrides: Dictionary, queueTags: map<string, string>)
    returns (environment: seq<(string, string)>)
    ensures environment == OverrideEnvironment(overrides, queueTags)
  {
    environment := [];
    for i := 0 to |overrides|
      invariant |environment| == i
      invariant forall j :: 0 <= j < i ==>
        environment[j] == (overrides[j].0, TagResolver.Resolve(overrides[j].1, queueTags))
    {
      var value := TagResolver.ParseAndBuildEnvironmentVariable(overrides[i].1, queueTags);
      environment := environment + [(overrides[i].0, value)];
    }
  }

  /** The start branch as the source runs it. */
  method StartTask(registry: TaskRegistry, config: Config, queueUrl: string, startTag: string, r: Responses)
    returns (progress: Progress)
    requires queueUrl !in registry.tasks
    modifies registry
    ensures Stage(registry.tasks, progress) == StartBranch(old(registry.tasks), config, queueUrl, startTag, r)
  {
    var request := RunTaskRequest(
      config.ecsClusterArn, 1, config.ecsTaskLaunchType, startTag, config.ecsTaskDefinitionArn, None);
    if |config.ecsTaskEnvironmentVariableOverride| > 0 {
      if r.queueTags.Threw? {
        return Progress(None, None, false, true);
      }
      var environment := BuildEnvironment(config.ecsTaskEnvironmentVariableOverride, r.queueTags.response);
      request := request.(overrides := Some(ContainerOverride(config.ecsTaskOverrideContainerName, environment)));
    }
    if r.runTask.Threw? {
      return Progress(Some(request), None, false, true);
    }
    var response := r.runTask.response;
    progress := Progress(Some(request), None, false, false);
    if response.ok && |response.failures| == 0 && |response.tasks| > 0 {
      for i := 0 to |response.tasks|
        invariant i <= 1
        invariant registry.tasks == if i == 0 then old(registry.tasks) else old(registry.tasks)[queueUrl := response.tasks[0]]
      {
        var added := registry.Add(queueUrl, response.tasks[i]);
        if !added {
          return Progress(Some(request), None, false, true);
        }
      }
      progress := progress.(ecsStarted := true);
    }
  }

  /** The stop branch as the source runs it. */
  method StopTask(registry: TaskRegistry, queueUrl: string, r: Responses) returns (progress: Progress)
    requires queueUrl in registry.tasks
    modifies registry
    ensures Stage(registry.tasks, progress) == StopBranch(old(registry.tasks), queueUrl, r)
  {
    var task := registry.tasks[queueUrl];
    var request := StopTaskRequest(task.clusterArn, task.taskArn, StopReason);
    if r.stopTask.Threw? {
      return Progress(None, Some(request), false, true);
    }
    if r.stopTask.response {
      var _ := registry.Remove(queueUrl);
    }
    progress := Progress(None, Some(request), false, false);
  }

  /** The body of the task `MonitorQueue` schedules, up to the point where it
      waits and calls `MonitorQueue` again. */
  method MonitorActivation(registry: TaskRegistry, config: Config, queueUrl: string, startTag: string, r: Responses)
    returns (activation: Activation)
    modifies registry
    ensures Outcome(registry.tasks, activation) == Activate(old(registry.tasks), config, queueUrl, startTag, r)
  {
    var progress := Progress(None, None, false, false);
    if r.attributes.Threw? {
      progress := progress.(threw := true);
    } else {
      var attributes := r.attributes.response;
      if attributes.ok {
        if attributes.approximateNumberOfMessages >= config.messageThreshold && queueUrl !in registry.tasks {
          progress := StartTask(registry, config, queueUrl, startTag, r);
        } else if attributes.approximateNumberOfMessages >= config.messageThreshold && queueUrl in registry.tasks {
          progress := progress.(ecsStarted := true);
        } else if attributes.approximateNumberOfMessages == 0
          && attributes.approximateNumberOfMessagesNotVisible == 0
          && queueUrl in registry.tasks
        {
          progress := StopTask(registry, queueUrl, r);
        }
      }
    }
    if progress.threw {
      activation := Activation(progress.runRequest, progress.stopRequest, progress.ecsStarted, Ended);
    } else if !progress.ecsStarted {
      activation := Activation(progress.runRequest, progress.stopRequest, false, AfterDelay(BlankDelay(config)));
    } else {
      activation := Activation(progress.runRequest, progress.stopRequest, true, AfterDelay(ActiveDelay(config)));
    }
  }

  /** Each configured variable gives one entry, in the configured order and
      under its own name, so distinct names stay distinct. */
  lemma {:induction false} OverrideEnvironmentNames(overrides: Dictionary, queueTags: map<string, string>)
    ensures |OverrideEnvironment(overrides, queueTags)| == |overrides|
    ensures forall j :: 0 <= j < |overrides| ==> OverrideEnvironment(overrides, queueTags)[j].0 == overrides[j].0
    ensures DistinctKeys(overrides) ==> DistinctKeys(OverrideEnvironment(overrides, queueTags))
  {
  }

  /** A value without the tag marker is passed to the container as configured. */
  lemma {:induction false} PlainValueKept(overrides: Dictionary, queueTags: map<string, string>, j: nat)
    requires j < |overrides| && !Text.Contains(overrides[j].1, TagResolver.Marker)
    ensures OverrideEnvironment(overrides, queueTags)[j] == overrides[j]
  {
  }

  /** A queue without tags passes every configured value as it is. */
  lemma {:induction false} UntaggedQueueKeepsValues(overrides: Dictionary)
    ensures OverrideEnvironment(overrides, map[]) == overrides
  {
    forall j | 0 <= j < |overrides|
      ensures OverrideEnvironment(overrides, map[])[j] == overrides[j]
    {
      TagResolver.EmptyTagMapIsIdentity(overrides[j].1);
    }
  }

  /** Messages waiting and no task registered for the queue: a run answered
      with exactly one task and no failures registers that task under the
      queue's URL, and the monitor looks again after the active interval. */
  lemma {:induction false} StartRegistersTask(
    tasks: map<string, EcsTask>, config: Config, queueUrl: string, startTag: string, r: Responses, task: EcsTask)
    requires r.attributes.Returned? && r.attributes.response.ok
    requires r.attributes.response.approximateNumberOfMessages >= config.messageThreshold
    requires queueUrl !in tasks
    requires |config.ecsTaskEnvironmentVariableOverride| == 0 || r.queueTags.Returned?
    requires r.runTask == Returned(RunTaskResponse(true, [], [task]))
    ensures Activate(tasks, config, queueUrl, startTag, r) ==
      Outcome(tasks[queueUrl := task],
        Activation(Some(RunRequest(config, startTag, TagsRead(r))), None, true, AfterDelay(ActiveDelay(config))))
    ensures |config.ecsTaskEnvironmentVariableOverride| == 0 ==>
      Activate(tasks, config, queueUrl, startTag, r).activation.runRequest.value.overrides.None?
  {
  }

  /** A run that is refused, reports a failure or starts no task leaves the
      registry alone, and the monitor looks again after the idle interval. */
  lemma {:induction false} StartFailureRegistersNothing(
    tasks: map<string, EcsTask>, config: Config, queueUrl: string, startTag: string, r: Responses)
    requires r.attributes.Returned? && r.attributes.response.ok
    requires r.attributes.response.approximateNumberOfMessages >= config.messageThreshold
    requires queueUrl !in tasks
    requires |config.ecsTaskEnvironmentVariableOverride| == 0 || r.queueTags.Returned?
    requires r.runTask.Returned?
    requires !r.runTask.response.ok || r.runTask.response.failures != [] || r.runTask.response.tasks == []
    ensures Activate(tasks, config, queueUrl, startTag, r) ==
      Outcome(tasks,
        Activation(Some(RunRequest(config, startTag, TagsRead(r))), None, false, AfterDelay(BlankDelay(config))))
  {
  }

  /** A run answered with several tasks registers the first one; adding the
      second under the same URL throws, and the monitor of the queue ends. */
  lemma {:induction false} SecondTaskEndsMonitor(
    tasks: map<string, EcsTask>, config: Config, queueUrl: string, startTag: string, r: Responses)
    requires r.attributes.Returned? && r.attributes.response.ok
    requires r.attributes.response.approximateNumberOfMessages >= config.messageThreshold
    requires queueUrl !in tasks
    requires |config.ecsTaskEnvironmentVariableOverride| == 0 || r.queueTags.Returned?
    requires r.runTask.Returned?
    requires r.runTask.response.ok && r.runTask.response.failures == [] && |r.runTask.response.tasks| >= 2
    ensures Activate(tasks, config, queueUrl, startTag, r).tasks == tasks[queueUrl := r.runTask.response.tasks[0]]
    ensures Activate(tasks, config, queueUrl, startTag, r).activation ==
      Activation(Some(RunRequest(config, startTag, TagsRead(r))), None, false, Ended)
  {
  }

  /** Messages waiting and a task already registered: nothing is sent, the
      registry is unchanged, and the monitor looks again after the active interval. */
  lemma {:induction false} AlreadyRunningSendsNothing(
    tasks: map<string, EcsTask>, config: Config, queueUrl: string, startTag: string, r: Responses)
    requires r.attributes.Returned? && r.attributes.response.ok
    requires r.attributes.response.approximateNumberOfMessages >= config.messageThreshold
    requires queueUrl in tasks
    ensures Activate(tasks, config, queueUrl, startTag, r) ==
      Outcome(tasks, Activation(None, None, true, AfterDelay(ActiveDelay(config))))
  {
  }

  /** A drained queue (no visible and no in-flight messages) with a task
      registered, under a positive threshold: the registered task is asked
      to stop, and it leaves the registry exactly when the stop is answered OK. */
  lemma {:induction false} StopWhenDrained(
    tasks: map<string, EcsTask>, config: Config, queueUrl: string, startTag: string, r: Responses, stopped: bool)
    requires r.attributes.Returned? && r.attributes.response.ok
    requires r.attributes.response.approximateNumberOfMessages == 0
    requires r.attributes.response.approximateNumberOfMessagesNotVisible == 0
    requires config.messageThreshold > 0
    requires queueUrl in tasks
    requires r.stopTask == Returned(stopped)
    ensures Activate(tasks, config, queueUrl, startTag, r) ==
      Outcome(if stopped then tasks - {queueUrl} else tasks,
        Activation(None, Some(StopTaskRequest(tasks[queueUrl].clusterArn, tasks[queueUrl].taskArn, StopReason)),
          false, AfterDelay(BlankDelay(config))))
  {
  }

  /** With a threshold of zero or less an empty queue counts as busy: its
      task is never stopped. */
  lemma {:induction false} NonPositiveThresholdNeverStops(
    tasks: map<string, EcsTask>, config: Config, queueUrl: string, startTag: string, r: Responses)
    requires r.attributes.Returned? && r.attributes.response.ok
    requires r.attributes.response.approximateNumberOfMessages == 0
    requires config.messageThreshold <= 0
    requires queueUrl in tasks
    ensures Activate(tasks, config, queueUrl, startTag, r).tasks == tasks
    ensures Activate(tasks, config, queueUrl, startTag, r).activation.stopRequest.None?
    ensures Activate(tasks, config, queueUrl, startTag, r).activation.ecsStarted
  {
  }

  /** Counts that come back with a status other than OK change nothing. */
  lemma {:induction false} UnreadableCountsChangeNothing(
    tasks: map<string, EcsTask>, config: Config, queueUrl: string, startTag: string, r: Responses)
    requires r.attributes.Returned? && !r.attributes.response.ok
    ensures Activate(tasks, config, queueUrl, startTag, r) ==
      Outcome(tasks, Activation(None, None, false, AfterDelay(BlankDelay(config))))
  {
  }

  /** A count query that throws ends the monitor of the queue. */
  lemma {:induction false} FailedCountQueryEndsMonitor(
    tasks: map<string, EcsTask>, config: Config, queueUrl: string, startTag: string, r: Responses)
    requires r.attributes.Threw?
    ensures Activate(tasks, config, queueUrl, startTag, r) == Outcome(tasks, Activation(None, None, false, Ended))
  {
  }

  /** An activation touches the registry at its own queue's URL and nowhere else. */
  lemma {:induction false} OnlyOwnEntryChanges(
    tasks: map<string, EcsTask>, config: Config, queueUrl: string, startTag: string, r: Responses, other: string)
    requires other != queueUrl
    ensures other in Activate(tasks, config, queueUrl, startTag, r).tasks <==> other in tasks
    ensures other in tasks ==> Activate(tasks, config, queueUrl, startTag, r).tasks[other] == tasks[other]
  {
  }

  /** The requests follow the registry: a task is only started for a queue
      without one, and only the registered task is ever asked to stop. An
      activation that counts its task as started leaves one registered. */
  lemma {:induction false} RequestsFollowRegistry(
    tasks: map<string, EcsTask>, config: Config, queueUrl: string, startTag: string, r: Responses)
    ensures var a := Activate(tasks, config, queueUrl, startTag, r).activation;
      a.runRequest.Some? ==> queueUrl !in tasks && a.stopRequest.None? && a.runRequest.value.count == 1
    ensures var a := Activate(tasks, config, queueUrl, startTag, r).activation;
      a.stopRequest.Some? ==>
        && queueUrl in tasks && a.runRequest.None? && !a.ecsStarted
        && a.stopRequest.value == StopTaskRequest(tasks[queueUrl].clusterArn, tasks[queueUrl].taskArn, StopReason)
    ensures Activate(tasks, config, queueUrl, startTag, r).activation.ecsStarted ==>
      queueUrl in Activate(tasks, config, queueUrl, startTag, r).tasks
  {
  }

  /** An active interval of up to 35791 minutes is that many minutes in milliseconds. */
  lemma {:induction false} ActiveDelayInRange(config: Config)
    requires 0 <= config.queueMessageCountCheckIfActiveInMinutes <= 35791
    ensures ActiveDelay(config) == config.queueMessageCountCheckIfActiveInMinutes * 60000
  {
  }

  /** An idle interval of up to 2147483 seconds is that many seconds in milliseconds. */
  lemma {:induction false} BlankDelayInRange(config: Config)
    requires 0 <= config.queueMessageCountCheckIfBlankInSeconds <= 2147483
    ensures BlankDelay(config) == config.queueMessageCountCheckIfBlankInSeconds * 1000
  {
  }

  /** An active interval whose product wraps to a negative delay makes
      `Task.Delay` throw after every activation that sees a task running
      (the start of one, or one already registered), and the monitor ends. */
  lemma {:induction false} WrappedActiveIntervalEndsMonitor(
    tasks: map<string, EcsTask>, config: Config, queueUrl: string, startTag: string, r: Responses)
    requires ActiveDelay(config) < -1
    requires Activate(tasks, config, queueUrl, startTag, r).activation.ecsStarted
    ensures Activate(tasks, config, queueUrl, startTag, r).activation.next == Ended
  {
  }

  /** One minute more than 35791 already overflows: the product wraps to a
      negative delay. */
  lemma {:induction false} OversizedActiveIntervalEndsMonitor(config: Config)
    requires config.queueMessageCountCheckIfActiveInMinutes == 35792
    ensures ActiveDelay(config) == -2147447296
    ensures AfterDelay(ActiveDelay(config)) == Ended
  {
  }

  /** A product with 1000 is even modulo 2^32, so it never wraps to -1. */
  lemma {:induction false} ThousandsNeverMinusOne(x: int)
    ensures Int32.Mul(x, 1000) != -1
  {
  }

  /** Neither interval ever makes `Task.Delay` wait forever. */
  lemma {:induction false} DelaysNeverWaitForever(config: Config)
    ensures AfterDelay(BlankDelay(config)) != WaitForever
    ensures AfterDelay(ActiveDelay(config)) != WaitForever
  {
  }
}
