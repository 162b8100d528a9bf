# MessageDelivery controller core in Dafny

MessageDelivery watches the SQS queues of an AWS region and runs one ECS
task per queue only while that queue has messages. This project models, and
proves properties of, four parts of the controller:

- **The configuration** (`Settings.LoadSettings`). Static properties start
  with their defaults. They are then overwritten from the process
  environment, and the required settings are validated.
- **The container-override parser** (`ParseEnvironmentVariables`,
  `GetCorrectMatch`). It reads `K1=V1:K2=V2` into an ordered dictionary.
  Single quotes protect a whole pair and double quotes protect a key or a
  value. The two regular expressions `'(.+?)'|[^:]+` and `"(.+?)"|[^=]+`
  are modelled by a hand-written scanner.
- **The template resolver** (`ParseAndBuildEnvironmentVariable`). It
  replaces placeholders `##MessageDelivery.Tag.<key>##` with the queue's
  tag values. The pattern `##MessageDelivery.Tag.(\w+)##` is modelled by a
  hand-written scanner: each unescaped `.` matches any character but a line
  feed, and `\w` is `IsWordChar`. A template is also read as a sequence of
  literal texts and placeholders. Resolving it replaces every placeholder
  whose key is a tag by the tag's value and keeps every other placeholder.
  This holds under two conditions. First, no placeholder may be readable
  across the end of another. Second, no tag value may spell a placeholder.
  `String.Replace` runs on the current string, so it can hit text that was
  never a match: text across a boundary, or a value put in by an earlier
  replace, which is then resolved a second time.
- **One activation of a queue monitor** (the body of `MonitorQueue`).
  - It reads the queue's message counts, then starts the queue's ECS task,
    counts a running one as busy, or stops it once the queue is drained.
  - It updates the shared registry of running tasks (a class over a map
    from queue URL to task).
  - It chooses when to look again. The delays are computed in 32-bit `int`
    arithmetic, which wraps around.
  - **One pass of the main loop** is modelled with it. The pass lists the
    queues and starts a monitor for every listed queue.

Each imperative piece of the source is a method: a loop with invariants,
or a class method that updates fields. Each method is proved equal to a
specification function, and the lemmas state the promised properties
about that function. Many lemmas about one activation or one pass state
the outcome of one branch. Dafny checks them by unfolding the definitions,
so their bodies are empty: they are statements of the branches, not proofs
with steps of their own.

Files:
- `wrappers.dfy`: Option and Result.
- `text.dfy`: ordinal `Contains`, `Replace` and a join helper.
- `tag_resolver.dfy`: the template resolver.
- `template_parts.dfy`: templates written as literal text and placeholders,
  and what resolving does to each placeholder in them.
- `override_parser.dfy`: the container-override parser.
- `settings.dfy`: the configuration.
- `int32.dfy`: C# `int` wrap-around.
- `monitor.dfy`: one monitor activation.
- `queue_refresh.dfy`: one pass of the main loop.

Where the system's written description and its code differ, the model
follows the code:
- `Main` counts the `.fifo` URLs only for its log line. It starts a monitor
  for every listed queue, FIFO or not.
- The code has no cluster scan, no stopping of duplicate tasks, no filtering
  by a skip tag, no confirmation of a stop, and no cool-down after an error.
  An error in the main loop starts the next pass at once. An error in a
  monitor ends that monitor for good.
- The started-by tag is `MDS-<ticks>`, not a name derived from the queue.

## Model

| member | source | states |
|---|---|---|
| TagResolver.ParseAndBuildEnvironmentVariable | src/Program.cs:196-216 | the loop returns `Resolve` of the template. A template without `##MessageDelivery` is returned as it is. |
| TagResolver.PlaceholderTextMatches | src/Program.cs:20 | any two non-newline characters in the two `.` positions and any non-empty word key spell a match of the pattern |
| TagResolver.MatchAtIsRegexMatch | src/Program.cs:20 | the scanner finds a match at an index exactly when the pattern matches there, and returns that match: marker, any char, `Tag`, any char, a maximal word run, `##` |
| TagResolver.MatchAtSound | src/Program.cs:20 | what the scanner returns at an index is a match of the pattern with its key |
| TagResolver.MatchAtBounds | src/Program.cs:20 | a match attempt at an index reports a match that starts there and lies inside the string |
| TagResolver.MatchAtComplete | src/Program.cs:20 | every match of the pattern at an index is found there, with its text and key |
| TagResolver.ScanMatchesPattern | src/Program.cs:201 | every match in the collection lies in the template and matches the pattern |
| TagResolver.ScanOrdered | src/Program.cs:201 | the matches come left to right without overlapping |
| TagResolver.ScanSound | src/Program.cs:201 | every match in the collection is exactly what the match attempt at its own index returns |
| TagResolver.ScanBounds | src/Program.cs:201 | the matches found from an index on lie inside the template, at or after that index |
| TagResolver.ScanComplete | src/Program.cs:201 | no match is missed: every index where the pattern matches lies inside a reported match |
| TagResolver.ScanFindsMarker | src/Program.cs:198-201 | a template with any match contains `##MessageDelivery` |
| TagResolver.ShortCircuitAgrees | src/Program.cs:198-212 | the marker short-cut never changes the result: resolving always equals applying every match of the original template in order |
| TagResolver.ApplyMatchesUnchanged | src/Program.cs:204-211 | matches whose key is not a tag, or whose text no longer occurs, leave the string unchanged |
| TagResolver.UnknownKeysLeaveTemplate | src/Program.cs:204-215 | a template none of whose placeholders names a tag of the queue is returned verbatim |
| TagResolver.EmptyTagMapIsIdentity | src/Program.cs:204-215 | with no tags every template comes back unchanged |
| TagResolver.PlaceholderReplacedEverywhere | src/Program.cs:201-211 | a placeholder whose key is a tag is replaced by the tag's value at every occurrence, and the text around it is kept |
| TagResolver.UnknownPlaceholderVerbatim | src/Program.cs:207-215 | a placeholder whose key is not a tag stays, at every occurrence |
| TagResolver.ResolveKnownKeyExample | src/Program.cs:201-211 | `##MessageDelivery.Tag.env##` with env=prod gives `prod` |
| TagResolver.ResolvePlainExample | src/Program.cs:198-199 | `plain` comes back as it is |
| TagResolver.ResolveUnknownKeyExample | src/Program.cs:207-215 | an unknown key leaves the placeholder in place |
| TagResolver.ResolveWildcardExample | src/Program.cs:20 | `##MessageDelivery-Tag-env##` also matches, because the dots are unescaped |
| TagResolver.WordRunEnd | src/Program.cs:20 | `\w+` is greedy: the run of word characters ends at the end of the string or at a non-word character |
| Text.NotContainsWithoutFirstChar | src/Program.cs:198 | `Contains` is false when the string lacks the first character of the text searched for |
| Text.ReplaceAllWithoutOccurrence | src/Program.cs:209 | `Replace` of a text that does not occur leaves the string unchanged |
| Text.ReplaceAllIdentity | src/Program.cs:209 | replacing a text by itself leaves the string unchanged |
| Text.ReplaceAllAtOccurrence | src/Program.cs:209 | an occurrence at the front is replaced and the scan resumes right behind it |
| Text.ReplaceAllSkipsPrefix | src/Program.cs:209 | a prefix without the first character of the text is copied unchanged |
| Text.ReplaceAllSkipsNoOccurrence | src/Program.cs:209 | a prefix at none of whose positions the text occurs is copied unchanged |
| Text.ReplaceAllJoin | src/Program.cs:209 | every separator of a join is replaced when no piece holds the separator's first character |
| TemplateParts.ScanParts | src/Program.cs:201 | the matches of a template written as parts are its placeholders, left to right, and nothing in its literal text |
| TemplateParts.ReplaceAllParts | src/Program.cs:209 | replacing one placeholder's text changes that placeholder wherever it occurs and no other part |
| TemplateParts.PlaceholdersResolved | src/Program.cs:196-216 | in a template of literal text and any number of placeholders, each with a key that is a tag is replaced by the tag's value and every other placeholder and all literal text are kept |
| TemplateParts.TwoPlaceholdersExample | src/Program.cs:201-211 | `##MessageDelivery.Tag.a##-##MessageDelivery.Tag.b##` with a=1 and b=2 gives `1-2`; with only a=1 it gives `1-##MessageDelivery.Tag.b##` |
| TemplateParts.ValueResolvedAgain | src/Program.cs:204-211 | when the value of `a` is the placeholder of `b`, the replace for `b` also resolves that value: `a##-##b` with a=`##MessageDelivery.Tag.b##` and b=X gives `X-X`, not the parts reading `##MessageDelivery.Tag.b##-X` |
| TemplateParts.OverlapReplacesAcrossPlaceholders | src/Program.cs:209 | `Replace` also hits a copy of a known placeholder that overlaps the closing `##` of an unknown one, so the unknown one is destroyed |
| OverrideParser.ParseEnvironmentVariables | src/Settings.cs:70-93 | the `TryAdd` loop returns `ParseOverrides` of the setting. A dictionary it produces has distinct keys. |
| OverrideParser.QuotedTokenIsShortest | src/Settings.cs:76 | the lazy `(.+?)` stops at the first closing quote that leaves a non-empty group without a line feed |
| OverrideParser.QuotedCandidateIsTaken | src/Settings.cs:76 | the quoted alternative wins whenever it can match |
| OverrideParser.PlainTokenIsRun | src/Settings.cs:76 | no match starts at a delimiter; otherwise the unquoted alternative takes the longest run without the delimiter |
| OverrideParser.MatchesShaped | src/Settings.cs:76 | every match is either `Q group Q` with a non-empty group free of line feeds, or a non-empty run without the delimiter and with an empty group |
| OverrideParser.TokenAt | src/Settings.cs:76 | a match attempt at an index reports a match that starts there and lies inside the string |
| OverrideParser.Matches | src/Settings.cs:76 | the collection holds no more matches than the string has characters |
| OverrideParser.GetCorrectMatch | src/Settings.cs:95-105 | the result is the group or the whole match, and it is empty only when both are |
| OverrideParser.CorrectMatchReading | src/Settings.cs:95-105 | `GetCorrectMatch` of such a match is non-empty. It is the text between the quotes, or the whole match. |
| OverrideParser.DelimitersOnlyHaveNoMatches | src/Settings.cs:76-77 | a string made only of delimiters yields no match |
| OverrideParser.SeparatorsOnlyRejected | src/Settings.cs:76-78 | a non-empty setting made only of `:` is rejected as formatted incorrectly |
| OverrideParser.NoOverrides | src/Settings.cs:73-74 | a null or empty setting gives an empty dictionary |
| OverrideParser.AddPairsParsed | src/Settings.cs:79-89 | when every pair parses, the loop gives those pairs in order if the keys are distinct, and "already defined" otherwise |
| OverrideParser.AddPairsDistinct | src/Settings.cs:87-88 | `TryAdd` keeps the dictionary's keys distinct |
| OverrideParser.ParsedKeysDistinct | src/Settings.cs:87-92 | every dictionary the parser produces has distinct keys |
| OverrideParser.MatchesRender | src/Settings.cs:76 | a written list of pieces is split back into exactly those pieces |
| OverrideParser.RenderedReadings | src/Settings.cs:95-104 | the pieces read back through `GetCorrectMatch` are the texts they were written from |
| OverrideParser.ParsePairRendered | src/Settings.cs:82-87 | a pair written as two pieces gives back its key and value; more pieces are badly formatted, and a single piece leaves the value missing |
| OverrideParser.ParseRendered | src/Settings.cs:76-89 | a written setting is parsed pair by pair from the pieces it was written from |
| OverrideParser.RoundTrip | src/Settings.cs:72-89 | parsing a written setting gives back its pairs in order, or "already defined" when a key repeats |
| OverrideParser.PlainRoundTrip | src/Settings.cs:72-89 | unquoted `K1=V1:K2=V2`, with keys and values free of `:`, `=` and opening quotes, parses back to exactly those pairs |
| OverrideParser.QuotedRoundTrip | src/Settings.cs:76-104 | `'K1="V1"':'K2="V2"'` parses back to those pairs, whatever `:` and `=` the values hold |
| OverrideParser.QuotedPairExample | src/Settings.cs:95-104 | `'A=x:y'` gives A=`x:y` |
| OverrideParser.QuotedValueExample | src/Settings.cs:82-87 | `A="x=y"` gives A=`x=y` |
| OverrideParser.ThreePiecesExample | src/Settings.cs:83-84 | `a=b=c` is rejected as formatted incorrectly |
| OverrideParser.MissingValueExample | src/Settings.cs:85-86 | `abc` fails on the missing value |
| OverrideParser.RepeatedKeyExample | src/Settings.cs:87-88 | `a=1:a=2` is rejected as already defined |
| Settings.Settings.constructor | src/Settings.cs:12-36 | the properties start at their defaults: region us-east-1, threshold 1, refresh 30 min, idle check 30 s, active check 5 min, launch type EC2, empty prefix and overrides |
| Settings.Settings.LoadSettings | src/Settings.cs:38-68 | the properties end as `Configure` says, and the returned error is the exception that stopped the load |
| Settings.Settings.LoadOptionalSettings | src/Settings.cs:40-53 | the credentials, the region, the prefix and the four integers are set as `ReadOptional` says, field by field |
| Settings.Settings.LoadRequiredSettings | src/Settings.cs:54-64 | the ARNs, the launch type and the container name are set, or the load stops, as `ReadRequired` says |
| Settings.Settings.ParseEnvironmentVariables | src/Settings.cs:66-67 | the overrides property takes the parsed dictionary, or stays as it was when the parser throws |
| Settings.IntegerDefaultsKept | src/Settings.cs:46-53 | integer settings that are missing or do not parse keep 1, 30, 30 and 5 |
| Settings.ParsedIntegerTaken | src/Settings.cs:46-53 | each of the threshold and the three intervals takes the parsed number when its variable is set and parses, and keeps its old value otherwise |
| Settings.TextDefaultsKept | src/Settings.cs:42-58 | a region, launch type or prefix that is unset or empty keeps us-east-1, EC2 and the empty prefix |
| Settings.ArnsRequired | src/Settings.cs:54-55 | a missing cluster ARN stops the load first, then a missing task ARN; a successful load holds both |
| Settings.ContainerNameRequiredForOverrides | src/Settings.cs:59-64 | with both ARNs set, the load stops for the container name exactly when the overrides are set and the name is not |
| Settings.LoadedOverrides | src/Settings.cs:54-67 | a load succeeds exactly when the ARNs are set, the name rule holds and the overrides parse. It then holds the parsed, duplicate-free dictionary. A failed load keeps the old overrides. |
| Settings.ContainerNamedWhenOverriding | src/Settings.cs:59-64 | a successful load with overrides holds the non-empty container name they apply to |
| Settings.ReloadIsStable | src/Settings.cs:38-68 | loading again from the same environment after a successful load changes nothing |
| Int32.Wrap | src/Program.cs:178 | a C# `int` product is the in-range value congruent to the mathematical product modulo 2^32 |
| Int32.WrapInRange | src/Program.cs:178 | a value already in range does not wrap |
| Int32.MulInRange | src/Program.cs:184 | a product that fits in an `int` is the plain product |
| Monitor.TaskRegistry.constructor | src/Program.cs:26 | the registry starts empty |
| Monitor.TaskRegistry.Add | src/Program.cs:135 | `Add` on a new URL registers the task; on a registered URL it fails and changes nothing |
| Monitor.TaskRegistry.Remove | src/Program.cs:166 | `Remove` deletes exactly that URL's entry |
| Monitor.BuildEnvironment | src/Program.cs:112-119 | the loop builds one entry per configured variable, in order, with the value resolved against the queue's tags |
| Monitor.StartTask | src/Program.cs:96-143 | the start branch sends the request and updates the registry as `StartBranch` says |
| Monitor.StopTask | src/Program.cs:155-171 | the stop branch asks to stop the registered task and updates the registry as `StopBranch` says |
| Monitor.MonitorActivation | src/Program.cs:87-191 | one activation leaves the registry and returns the requests, the `ecsStarted` flag and the next step as `Activate` says |
| Monitor.OverrideEnvironmentNames | src/Program.cs:112-119 | the override holds one entry per configured variable, in order and under its own name, so the names stay distinct |
| Monitor.PlainValueKept | src/Program.cs:117 | a configured value without the marker is passed on as configured |
| Monitor.UntaggedQueueKeepsValues | src/Program.cs:111-119 | for a queue without tags the override environment equals the configured dictionary |
| Monitor.StartRegistersTask | src/Program.cs:93-137 | enough messages, no task registered, and one task started without failures: that task is registered under the URL, the run request is built from the settings and the tags read (none when no override is configured, so the tag call is not needed), and the active interval follows |
| Monitor.StartFailureRegistersNothing | src/Program.cs:105-143 | a run that is not OK, reports failures or starts no task leaves the registry unchanged; the flag stays false and the idle interval follows, whatever the tag call did when no override is configured |
| Monitor.SecondTaskEndsMonitor | src/Program.cs:105-136 | a run with several tasks registers the first; the second `Add` throws and the monitor ends, whatever the tag call did when no override is configured |
| Monitor.AlreadyRunningSendsNothing | src/Program.cs:145-149 | enough messages with a task registered: no start and no stop is sent, the registry is unchanged, and the active interval follows |
| Monitor.StopWhenDrained | src/Program.cs:151-171 | a drained queue with a task registered sends a stop for that task; an OK answer removes exactly that URL, any other keeps the registry |
| Monitor.NonPositiveThresholdNeverStops | src/Program.cs:93-153 | with a threshold of 0 or less an empty queue counts as busy, so its task is never stopped |
| Monitor.UnreadableCountsChangeNothing | src/Program.cs:91 | counts answered with a status other than OK count as not started and change nothing |
| Monitor.FailedCountQueryEndsMonitor | src/Program.cs:188-191 | a count query that throws ends the monitor without rescheduling |
| Monitor.OnlyOwnEntryChanges | src/Program.cs:135-166 | an activation changes the registry only at its own URL |
| Monitor.RequestsFollowRegistry | src/Program.cs:93-172 | a task is started, one at a time, only for a queue without one; only the registered task is asked to stop; a started flag leaves a task registered |
| Monitor.ActiveDelayInRange | src/Program.cs:184 | an active interval of 0 to 35791 minutes waits that many minutes |
| Monitor.BlankDelayInRange | src/Program.cs:178 | an idle interval of 0 to 2147483 seconds waits that many seconds |
| Monitor.OversizedActiveIntervalEndsMonitor | src/Program.cs:184 | an active interval of 35792 minutes wraps to a negative delay; `Task.Delay` throws and the monitor ends |
| Monitor.ThousandsNeverMinusOne | src/Program.cs:178 | an `int` product with 1000 is never -1 |
| Monitor.DelaysNeverWaitForever | src/Program.cs:175-186 | neither interval makes `Task.Delay` wait forever |
| Monitor.AfterDelay | src/Program.cs:178-186 | a delay below -1 throws and ends the monitor, -1 waits forever, and any other delay waits that many milliseconds |
| Monitor.WrappedActiveIntervalEndsMonitor | src/Program.cs:184-191 | an activation that counts the queue as busy under an active interval that wraps below -1 ends the monitor |
| QueueRefresh.FifoQueues | src/Program.cs:62 | the FIFO list holds exactly the listed URLs ending in `.fifo`, and no more than were listed |
| QueueRefresh.FifoSuffixOnly | src/Program.cs:62 | a URL ending in `.fifo` passes the FIFO test; one ending in `fifo` without the dot does not |
| QueueRefresh.MonitorQueues | src/Program.cs:54-73 | the pass starts monitors, counts FIFO queues and ends as `RunPass` says |
| QueueRefresh.NonFifoQueueIsMonitored | src/Program.cs:62-67 | every listed queue is monitored, FIFO or not; a non-FIFO queue is not in the FIFO count |
| QueueRefresh.FifoQueuesConcat | src/Program.cs:62 | the FIFO filter keeps the listing's order |
| QueueRefresh.FailedListingMonitorsNothing | src/Program.cs:57-59 | a listing that throws or is not OK starts no monitor; a thrown one retries at once |
| QueueRefresh.DefaultRefreshIsHalfAnHour | src/Program.cs:71 | the default refresh waits 1800000 ms |
| QueueRefresh.RefreshDelayInRange | src/Program.cs:71 | a refresh interval of 0 to 35791 minutes waits that many minutes |
| QueueRefresh.WrappedRefreshKeepsMonitors | src/Program.cs:71-77 | a refresh interval that wraps below -1 starts the monitors, then retries at once without cancelling them |
| QueueRefresh.OversizedRefreshIntervalWraps | src/Program.cs:71 | 35792 minutes wraps to the negative delay -2147447296 |
| QueueRefresh.RefreshNeverWaitsForever | src/Program.cs:71 | the main loop never waits forever |

## Left out

- Scheduling and concurrency are not modelled. This covers `Task.Factory.StartNew`, the waits of `Task.Delay`, the cancellation tokens and the self-rescheduling of `MonitorQueue`. One activation or one pass returns what it would wait for and what it does next. A cancelled token shows up as a call that threw.
- Monitors run concurrently, and the shared, unsynchronised `Dictionary` is not thread-safe. The registry is modelled sequentially, one activation at a time.
- The AWS SDK calls are not modelled. Their answers are inputs: a response or an exception.
  - A response keeps only what the controller reads: the HTTP status as "OK or not", the counts, the failures, the tasks and the tags.
  - An ECS task is its two ARNs.
  - The client objects, credentials and region endpoints are not modelled.
- Console output and the client exception handler are not modelled. This includes the failure reason read for the log line.
- The clock is not modelled: the started-by tag `MDS-<ticks>` is an input.
- `Environment.GetEnvironmentVariable` is a map from variable name to value.
- `int.TryParse` is a given map from the texts that parse to their numbers. Its own rules are not modelled.
- `RegionEndpoint.GetBySystemName` and the conversion of a text to a `LaunchType` are kept as the names they are given.
- An exception from `LoadSettings` ends the process. The model returns it as an error together with the properties assigned so far.
- Only the two regular expressions of the parser and the tag pattern are modelled.
  - `\w` is ASCII letters, digits and underscore. Unicode word characters are not modelled.
  - `String.EndsWith(".fifo")` is culture-sensitive in .NET. It is modelled as an ordinal suffix test.
- The order in which a .NET `Dictionary` enumerates is taken to be insertion order. The override dictionary is only ever added to, so this holds in practice.
- The limit of 1000 queues per listing is applied by the service. It is not modelled.
- The test consumer project is not part of this model.
- Strings are sequences of Unicode scalar values, while .NET strings are sequences of UTF-16 code units. A character outside the Basic Multilingual Plane in one of the two `.` positions of the tag pattern matches in the model (`TagResolver.MatchAt`). In .NET the `.` takes only the high surrogate, and the low surrogate then fails to match. Lengths and indices count scalar values, not code units.
- TagResolver.PlaceholderReplacedEverywhere: covers only a template that holds one placeholder, repeated. Copies may be adjacent. Templates that mix placeholders are covered by TemplateParts.PlaceholdersResolved.
- TagResolver.UnknownPlaceholderVerbatim: covers only a template whose one placeholder is repeated. Copies may be adjacent. TemplateParts.PlaceholdersResolved keeps unknown placeholders in mixed templates too.
- TemplateParts.PlaceholdersResolved: needs the parts kept apart. Literal text holds no `#`, and every placeholder but the last is followed by non-empty text that does not start with `M`. Adjacent different placeholders are not covered. Without this, `String.Replace` can hit text across a placeholder's boundary. TemplateParts.OverlapReplacesAcrossPlaceholders shows this.
- TemplateParts.PlaceholdersResolved: needs the values of the known tags to hold no `#`. The resolution is not one pass: a later replace runs on the current string. So a value that spells the placeholder of a later match is resolved again. TemplateParts.ValueResolvedAgain shows this.
