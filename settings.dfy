/** The controller's configuration (`Settings`): the defaults the static
    properties start with, and `LoadSettings`, which overwrites them from the
    process environment and validates the required ones. */
module Settings {
  import opened Wrappers
  import opened OverrideParser

  /** The process environment as `Environment.GetEnvironmentVariable` sees
      it: a variable that is not set reads as null, one set to nothing reads
      as the empty string. */
  type Environment = map<string, string>

  /** `int.TryParse`, taken as given: the texts that parse, each with the
      number it denotes. */
  type IntParser = imap<string, int>

  const AwsKeyVariable: string := "MD_AWS_KEY"
  const AwsSecretVariable: string := "MD_AWS_SECRET"
  const AwsRegionVariable: string := "MD_AWS_REGION"
  const QueuePrefixVariable: string := "MD_QUEUE_PREFIX"
  const MessageThresholdVariable: string := "MD_MESSAGE_THRESHOLD"
  const QueueUrlRefreshVariable: string := "MD_QUEUE_URL_REFRESH"
  const BlankCheckVariable: string := "MD_QUEUE_BLANK_MESSAGE_CHECK"
  const ActiveCheckVariable: string := "MD_QUEUE_ACTIVE_MESSAGE_REFRESH"
  const ClusterArnVariable: string := "MD_ECS_CLUSTER_ARN"
  const TaskArnVariable: string := "MD_ECS_TASK_ARN"
  const LaunchTypeVariable: string := "MD_ECS_TASK_LAUNCH"
  const ContainerEnvironmentVariable: string := "MD_ECS_TASK_CONTAINER_ENVIRONMENT"
  const ContainerNameVariable: string := "MD_ECS_TASK_CONTAINER_NAME"

  /** The system name of `RegionEndpoint.USEast1` and the name of `LaunchType.EC2`. */
  const DefaultRegion: string := "us-east-1"
  const DefaultLaunchType: string := "EC2"

  /** The values of the static properties; `None` is a C# null. The region
      and the launch type are kept by their names. */
  datatype Config = Config(
    awsKey: Option<string>,
    awsSecret: Option<string>,
    awsRegion: string,
    messageThreshold: int,
    queuePrefix: string,
    queueUrlRefreshInMinutes: int,
    queueMessageCountCheckIfBlankInSeconds: int,
    queueMessageCountCheckIfActiveInMinutes: int,
    ecsClusterArn: Option<string>,
    ecsTaskDefinitionArn: Option<string>,
    ecsTaskLaunchType: string,
    ecsTaskOverrideContainerName: Option<string>,
    ecsTaskEnvironmentVariableOverride: Dictionary)

  /** The property initialisers. */
  function Defaults(): Config
  {
    Config(None, None, DefaultRegion, 1, [], 30, 30, 5, None, None, DefaultLaunchType, None, [])
  }

  /** The exceptions `LoadSettings` lets escape: the three required-setting
      checks and whatever the override parser throws. */
  datatype SettingsError =
    | ClusterArnRequired
    | TaskArnRequired
    | ContainerNameRequired
    | BadOverrides(reason: OverrideError)

  /** The properties after loading, and the exception that stopped the load, if any. */
  datatype Loaded = Loaded(config: Config, error: Option<SettingsError>)

  function Lookup(env: Environment, name: string): Option<string>
  {
    if name in env then Some(env[name]) else None
  }

  /** `string.IsNullOrEmpty`. */
  predicate IsNullOrEmpty(v: Option<string>)
  {
    v.None? || v.value == []
  }

  /** `if (int.TryParse(value, out n)) property = n`: a missing variable does not parse. */
  function ParsedOr(env: Environment, parse: IntParser, name: string, current: int): int
  {
    var v := Lookup(env, name);
    if v.Some? && v.value in parse then parse[v.value] else current
  }

  /** `if (!string.IsNullOrEmpty(value)) property = value`. */
  function NonEmptyOr(env: Environment, name: string, current: string): string
  {
    if IsNullOrEmpty(Lookup(env, name)) then current else env[name]
  }

  /** What `LoadSettings` does to the properties `before` it runs: each step
      in the order of the source, stopping at the first exception with the
      properties assigned so far. */
  function Configure(env: Environment, parse: IntParser, before: Config): Loaded
  {
    var checked := ReadRequired(env, ReadOptional(env, parse, before));
    if checked.error.Some? then checked
    else StoreOverrides(checked.config, Lookup(env, ContainerEnvironmentVariable))
  }

  /** The required settings: both ARNs must be set, the launch type and the
      container name replace the old ones when not empty, and overrides
      without a container name are refused. */
  function ReadRequired(env: Environment, read: Config): Loaded
  {
    if ClusterArnVariable !in env then Loaded(read, Some(ClusterArnRequired))
    else
      var withCluster := read.(ecsClusterArn := Some(env[ClusterArnVariable]));
      if TaskArnVariable !in env then Loaded(withCluster, Some(TaskArnRequired))
      else
        var containerName := Lookup(env, ContainerNameVariable);
        var withTask := withCluster.(
          ecsTaskDefinitionArn := Some(env[TaskArnVariable]),
          ecsTaskLaunchType := NonEmptyOr(env, LaunchTypeVariable, withCluster.ecsTaskLaunchType),
          ecsTaskOverrideContainerName :=
            if IsNullOrEmpty(containerName) then withCluster.ecsTaskOverrideContainerName else containerName);
        if IsNullOrEmpty(containerName) && !IsNullOrEmpty(Lookup(env, ContainerEnvironmentVariable))
        then Loaded(withTask, Some(ContainerNameRequired))
        else Loaded(withTask, None)
  }

  /** The override step: the parsed dictionary replaces the property, or the
      parser's exception stops the load with the property unchanged. */
  function StoreOverrides(c: Config, overrides: Option<string>): Loaded
  {
    match ParseOverrides(overrides)
    case Err(e) => Loaded(c, Some(BadOverrides(e)))
    case Ok(dict) => Loaded(c.(ecsTaskEnvironmentVariableOverride := dict), None)
  }

  /** The first steps of `LoadSettings`, which cannot fail: the credentials,
      the region, the queue prefix and the four integer settings. */
  function ReadOptional(env: Environment, parse: IntParser, before: Config): Config
  {
    before.(
      awsKey := Lookup(env, AwsKeyVariable),
      awsSecret := Lookup(env, AwsSecretVariable),
      awsRegion := NonEmptyOr(env, AwsRegionVariable, before.awsRegion),
      queuePrefix := if QueuePrefixVariable in env then env[QueuePrefixVariable] else [],
      messageThreshold := ParsedOr(env, parse, MessageThresholdVariable, before.messageThreshold),
      queueUrlRefreshInMinutes := ParsedOr(env, parse, QueueUrlRefreshVariable, before.queueUrlRefreshInMinutes),
      queueMessageCountCheckIfBlankInSeconds :=
        ParsedOr(env, parse, BlankCheckVariable, before.queueMessageCountCheckIfBlankInSeconds),
      queueMessageCountCheckIfActiveInMinutes :=
        ParsedOr(env, parse, ActiveCheckVariable, before.queueMessageCountCheckIfActiveInMinutes))
  }

  /** The static class: one object holds every property. */
  class Settings {
    var awsKey: Option<string>
    var awsSecret: Option<string>
    var awsRegion: string
    var messageThreshold: int
    var queuePrefix: string
    var queueUrlRefreshInMinutes: int
    var queueMessageCountCheckIfBlankInSeconds: int
    var queueMessageCountCheckIfActiveInMinutes: int
    var ecsClusterArn: Option<string>
    var ecsTaskDefinitionArn: Option<string>
    var ecsTaskLaunchType: string
    var ecsTaskOverrideContainerName: Option<string>
    var ecsTaskEnvironmentVariableOverride: Dictionary

    function Snapshot(): Config
      reads this
    {
      Config(awsKey, awsSecret, awsRegion, messageThreshold, queuePrefix, queueUrlRefreshInMinutes,
             queueMessageCountCheckIfBlankInSeconds, queueMessageCountCheckIfActiveInMinutes,
             ecsClusterArn, ecsTaskDefinitionArn, ecsTaskLaunchType, ecsTaskOverrideContainerName,
             ecsTaskEnvironmentVariableOverride)
    }

    /** The property initialisers run. */
    constructor ()
      ensures Snapshot() == Defaults()
    {
      awsKey, awsSecret, awsRegion := None, None, DefaultRegion;
      messageThreshold, queuePrefix := 1, [];
      queueUrlRefreshInMinutes := 30;
      queueMessageCountCheckIfBlankInSeconds := 30;
      queueMessageCountCheckIfActiveInMinutes := 5;
      ecsClusterArn, ecsTaskDefinitionArn := None, None;
      ecsTaskLaunchType, ecsTaskOverrideContainerName := DefaultLaunchType, None;
      ecsTaskEnvironmentVariableOverride := [];
    }

    /** `LoadSettings`: assigns the properties one after another and throws
        (here: returns the error) when a required setting is missing or the
        overrides do not parse. */
    method LoadSettings(env: Environment, parse: IntParser) returns (error: Option<SettingsError>)
      modifies this
      ensures Snapshot() == Configure(env, parse, old(Snapshot())).config
      ensures error == Configure(env, parse, old(Snapshot())).error
    {
      ghost var before := Snapshot();
      LoadOptionalSettings(env, parse);
      assert Snapshot() == ReadOptional(env, parse, before);
      error := LoadRequiredSettings(env);
      if error.Some? {
        return;
      }
      error := ParseEnvironmentVariables(Lookup(env, ContainerEnvironmentVariable));
    }

    /** The steps of `LoadSettings` that cannot throw. */
    method LoadOptionalSettings(env: Environment, parse: IntParser)
      modifies this`awsKey, this`awsSecret, this`awsRegion, this`queuePrefix, this`messageThreshold,
               this`queueUrlRefreshInMinutes, this`queueMessageCountCheckIfBlankInSeconds,
               this`queueMessageCountCheckIfActiveInMinutes
      ensures awsKey == Lookup(env, AwsKeyVariable) && awsSecret == Lookup(env, AwsSecretVariable)
      ensures awsRegion == NonEmptyOr(env, AwsRegionVariable, old(awsRegion))
      ensures queuePrefix == if QueuePrefixVariable in env then env[QueuePrefixVariable] else []
      ensures messageThreshold == ParsedOr(env, parse, MessageThresholdVariable, old(messageThreshold))
      ensures queueUrlRefreshInMinutes == ParsedOr(env, parse, QueueUrlRefreshVariable, old(queueUrlRefreshInMinutes))
      ensures queueMessageCountCheckIfBlankInSeconds
              == ParsedOr(env, parse, BlankCheckVariable, old(queueMessageCountCheckIfBlankInSeconds))
      ensures queueMessageCountCheckIfActiveInMinutes
              == ParsedOr(env, parse, ActiveCheckVariable, old(queueMessageCountCheckIfActiveInMinutes))
    {
      awsKey := Lookup(env, AwsKeyVariable);
      awsSecret := Lookup(env, AwsSecretVariable);
      var awsRegionSetting := Lookup(env, AwsRegionVariable);
      if !IsNullOrEmpty(awsRegionSetting) {
        awsRegion := awsRegionSetting.value;
      }
      queuePrefix := if QueuePrefixVariable in env then env[QueuePrefixVariable] else [];
      messageThreshold := ParsedOr(env, parse, MessageThresholdVariable, messageThreshold);
      queueUrlRefreshInMinutes := ParsedOr(env, parse, QueueUrlRefreshVariable, queueUrlRefreshInMinutes);
      queueMessageCountCheckIfBlankInSeconds :=
        ParsedOr(env, parse, BlankCheckVariable, queueMessageCountCheckIfBlankInSeconds);
      queueMessageCountCheckIfActiveInMinutes :=
        ParsedOr(env, parse, ActiveCheckVariable, queueMessageCountCheckIfActiveInMinutes);
    }

    /** The steps of `LoadSettings` that check the required settings. */
    method LoadRequiredSettings(env: Environment) returns (error: Option<SettingsError>)
      modifies this`ecsClusterArn, this`ecsTaskDefinitionArn, this`ecsTaskLaunchType,
               this`ecsTaskOverrideContainerName
      ensures Loaded(Snapshot(), error) == ReadRequired(env, old(Snapshot()))
    {
      if ClusterArnVariable !in env {
        return Some(ClusterArnRequired);
      }
      ecsClusterArn := Some(env[ClusterArnVariable]);
      if TaskArnVariable !in env {
        return Some(TaskArnRequired);
      }
      ecsTaskDefinitionArn := Some(env[TaskArnVariable]);
      var launchType := Lookup(env, LaunchTypeVariable);
      if !IsNullOrEmpty(launchType) {
        ecsTaskLaunchType := launchType.value;
      }
      var environmentVariableOverrides := Lookup(env, ContainerEnvironmentVariable);
      var containerName := Lookup(env, ContainerNameVariable);
      if !IsNullOrEmpty(containerName) {
        ecsTaskOverrideContainerName := containerName;
      }
      if IsNullOrEmpty(containerName) && !IsNullOrEmpty(environmentVariableOverrides) {
        return Some(ContainerNameRequired);
      }
      error := None;
    }

    /** `ParseEnvironmentVariables` as the settings run it: the parsed
        dictionary becomes the override property, and an exception leaves
        the property as it was. */
    method ParseEnvironmentVariables(environmentVariableOverrides: Option<string>)
      returns (error: Option<SettingsError>)
      modifies this`ecsTaskEnvironmentVariableOverride
      ensures Loaded(Snapshot(), error) == StoreOverrides(old(Snapshot()), environmentVariableOverrides)
    {
      var environmentDictionary := OverrideParser.ParseEnvironmentVariables(environmentVariableOverrides);
      if environmentDictionary.Err? {
        return Some(BadOverrides(environmentDictionary.error));
      }
      ecsTaskEnvironmentVariableOverride := environmentDictionary.value;
      error := None;
    }
  }

  /** Integer settings whose variable is missing or does not parse keep
      their defaults: a threshold of 1 message, a refresh every 30 minutes,
      a check every 30 seconds when idle and every 5 minutes when active. */
  lemma {:induction false} IntegerDefaultsKept(env: Environment, parse: IntParser)
    requires forall name :: name in [MessageThresholdVariable, QueueUrlRefreshVariable, BlankCheckVariable, ActiveCheckVariable]
               ==> name !in env || env[name] !in parse
    ensures Configure(env, parse, Defaults()).config.messageThreshold == 1
    ensures Configure(env, parse, Defaults()).config.queueUrlRefreshInMinutes == 30
    ensures Configure(env, parse, Defaults()).config.queueMessageCountCheckIfBlankInSeconds == 30
    ensures Configure(env, parse, Defaults()).config.queueMessageCountCheckIfActiveInMinutes == 5
  {
    assert MessageThresholdVariable in [MessageThresholdVariable, QueueUrlRefreshVariable, BlankCheckVariable, ActiveCheckVariable];
    assert QueueUrlRefreshVariable in [MessageThresholdVariable, QueueUrlRefreshVariable, BlankCheckVariable, ActiveCheckVariable];
    assert BlankCheckVariable in [MessageThresholdVariable, QueueUrlRefreshVariable, BlankCheckVariable, ActiveCheckVariable];
    assert ActiveCheckVariable in [MessageThresholdVariable, QueueUrlRefreshVariable, BlankCheckVariable, ActiveCheckVariable];
  }

  /** Each of the four integer settings that parses replaces its property,
      whatever it held; one that is missing or does not parse leaves it. */
  lemma {:induction false} ParsedIntegerTaken(env: Environment, parse: IntParser, before: Config)
    ensures Configure(env, parse, before).config.messageThreshold ==
      if MessageThresholdVariable in env && env[MessageThresholdVariable] in parse
      then parse[env[MessageThresholdVariable]] else before.messageThreshold
    ensures Configure(env, parse, before).config.queueUrlRefreshInMinutes ==
      if QueueUrlRefreshVariable in env && env[QueueUrlRefreshVariable] in parse
      then parse[env[QueueUrlRefreshVariable]] else before.queueUrlRefreshInMinutes
    ensures Configure(env, parse, before).config.queueMessageCountCheckIfBlankInSeconds ==
      if BlankCheckVariable in env && env[BlankCheckVariable] in parse
      then parse[env[BlankCheckVariable]] else before.queueMessageCountCheckIfBlankInSeconds
    ensures Configure(env, parse, before).config.queueMessageCountCheckIfActiveInMinutes ==
      if ActiveCheckVariable in env && env[ActiveCheckVariable] in parse
      then parse[env[ActiveCheckVariable]] else before.queueMessageCountCheckIfActiveInMinutes
  {
  }

  /** Optional text settings that are unset or set to nothing keep their
      defaults: region us-east-1, launch type EC2, an empty queue prefix. */
  lemma {:induction false} TextDefaultsKept(env: Environment, parse: IntParser)
    requires IsNullOrEmpty(Lookup(env, AwsRegionVariable)) && IsNullOrEmpty(Lookup(env, LaunchTypeVariable))
    requires IsNullOrEmpty(Lookup(env, QueuePrefixVariable))
    ensures Configure(env, parse, Defaults()).config.awsRegion == DefaultRegion
    ensures Configure(env, parse, Defaults()).config.ecsTaskLaunchType == DefaultLaunchType
    ensures Configure(env, parse, Defaults()).config.queuePrefix == []
  {
  }

  /** Both ARNs are required, the cluster's first; a load that succeeds holds them. */
  lemma {:induction false} ArnsRequired(env: Environment, parse: IntParser, before: Config)
    ensures ClusterArnVariable !in env ==> Configure(env, parse, before).error == Some(ClusterArnRequired)
    ensures ClusterArnVariable in env && TaskArnVariable !in env ==>
              Configure(env, parse, before).error == Some(TaskArnRequired)
    ensures Configure(env, parse, before).error.None? ==>
              && Configure(env, parse, before).config.ecsClusterArn == Lookup(env, ClusterArnVariable)
              && Configure(env, parse, before).config.ecsTaskDefinitionArn == Lookup(env, TaskArnVariable)
              && ClusterArnVariable in env && TaskArnVariable in env
  {
  }

  /** Overrides need a container to apply to: with both ARNs set, the load
      stops for a missing container name exactly when the overrides are set
      and the name is not. */
  lemma {:induction false} ContainerNameRequiredForOverrides(env: Environment, parse: IntParser, before: Config)
    requires ClusterArnVariable in env && TaskArnVariable in env
    ensures Configure(env, parse, before).error == Some(ContainerNameRequired)
            <==> IsNullOrEmpty(Lookup(env, ContainerNameVariable))
                 && !IsNullOrEmpty(Lookup(env, ContainerEnvironmentVariable))
  {
  }

  /** A load succeeds exactly when the ARNs are set, the overrides have a
      container name if they are set, and they parse; it then holds the
      parsed overrides, one entry per variable. A load that fails in the
      parser leaves the previous overrides in place. */
  lemma {:induction false} LoadedOverrides(env: Environment, parse: IntParser, before: Config)
    ensures Configure(env, parse, before).error.None? <==>
              && ClusterArnVariable in env && TaskArnVariable in env
              && !(IsNullOrEmpty(Lookup(env, ContainerNameVariable))
                   && !IsNullOrEmpty(Lookup(env, ContainerEnvironmentVariable)))
              && ParseOverrides(Lookup(env, ContainerEnvironmentVariable)).Ok?
    ensures Configure(env, parse, before).error.None? ==>
              && Ok(Configure(env, parse, before).config.ecsTaskEnvironmentVariableOverride)
                 == ParseOverrides(Lookup(env, ContainerEnvironmentVariable))
              && DistinctKeys(Configure(env, parse, before).config.ecsTaskEnvironmentVariableOverride)
    ensures Configure(env, parse, before).error.Some? ==>
              Configure(env, parse, before).config.ecsTaskEnvironmentVariableOverride
              == before.ecsTaskEnvironmentVariableOverride
  {
    ParsedKeysDistinct(Lookup(env, ContainerEnvironmentVariable));
  }

  /** Loading again from the same environment after a load that succeeded
      changes nothing. */
  lemma {:induction false} ReloadIsStable(env: Environment, parse: IntParser, before: Config)
    requires Configure(env, parse, before).error.None?
    ensures Configure(env, parse, Configure(env, parse, before).config) == Configure(env, parse, before)
  {
  }

  /** A load that succeeds with overrides also holds the container name
      they apply to, so a run request never carries a nameless override. */
  lemma {:induction false} ContainerNamedWhenOverriding(env: Environment, parse: IntParser, before: Config)
    requires Configure(env, parse, before).error.None?
    requires Configure(env, parse, before).config.ecsTaskEnvironmentVariableOverride != []
    ensures Configure(env, parse, before).config.ecsTaskOverrideContainerName == Lookup(env, ContainerNameVariable)
    ensures !IsNullOrEmpty(Lookup(env, ContainerNameVariable))
  {
    var overrides := Lookup(env, ContainerEnvironmentVariable);
    if IsNullOrEmpty(overrides) {
      NoOverrides(overrides);
    }
  }
}
