# Solanum, modelled in Dafny

Solanum is a metrics-collection agent written in Ruby. Each cycle it asks a
list of sources for metric values, merges their answers, and turns the merged
values into monitoring events. An event carries a state computed from
threshold tables. Counter sources report differences between the current
and the previous cycle.

The repository holds two generations of the agent. This project models both
and keeps them apart:

- **The `class Solanum` generation** (`lib/`):
  - the agent's collect and event-building cycle (`Agent`);
  - the helper functions `duration_str`, `state_over` and `state_under` (`Util`);
  - the `thresholds` DSL helper (`Thresholds`);
  - the run schedule (`Schedule`);
  - line matchers (`LineMatcher`);
  - the flat, dot-named metric store (`FlatMetrics`) and its unit-keyed
    metrics (`FlatMetric`);
  - the `/proc/diskstats` source (`Diskstats`);
  - the `/proc/net/dev` source (`Network`), plus its imperative copy under
    `ruby/` (`RubyNetwork`);
  - the monitor sources and matchers (`MonitorSource`, `MonitorMatcher`);
  - the DSL's `match` declaration (`InputContext`).
- **The `module Solanum` generation** (top-level `solanum/`):
  - the category tree of metrics (`MetricTree`, `TreeMetrics`);
  - records (`MetricRecord`);
  - the YAML load/save of the tree (`Persistence`).

Shared helpers:

- `Wrappers` holds `Option` and `Result`.
- `Symbols` holds Ruby symbols and the nil/String/Symbol unit argument.
- `Text` models the Ruby `String` methods the code relies on: whitespace
  `split`, `strip`, `split('.')`, `chomp`, `to_i`, and `%02d`.
- `Order` gives the lexicographic order behind `keys.sort`.
- `Sorting` models `sort_by` on a real key.
- `Counters` holds the counter difference and the outcome of one collect
  cycle, both shared by the two `/proc` sources.

Modelling choices:

- Every operation is a pure function of the object state it reads.
- A Ruby exception is an `Err`, or a `Raised` outcome, carrying the state
  the program keeps.
- Wall-clock time (`Time.now`) is an explicit `now: real` parameter.
- Metric values and times are `real`. Kernel counters are unbounded `int`
  after `to_i`.
- Regular expressions passed in by users are abstract functions from a line
  to its match data. The two fixed regular expressions whose meaning matters
  are written out: the metric-name check `^\w[\w.]+\w$` and the disk filter
  `^sd[a-z]$`.

The metric-name check uses `+` (`lib/solanum/metrics.rb:23`), so a valid name
has at least three characters.

## Model

| member | source | states |
|---|---|---|
| `Agent.Start` | lib/solanum.rb:35-36 | before the first cycle both the current and the previous metrics are empty |
| `Agent.Collect` | lib/solanum.rb:35-46 | a cycle makes the previous metrics the old ones; it holds exactly the keys some source returned, each with the value from the last source that returned it |
| `Agent.CollectFoldAppend` | lib/solanum.rb:37-45 | folding sources over a concatenation is folding the second list over the result of the first |
| `Agent.CollectKeysFromSources` | lib/solanum.rb:37-45 | starting from an empty map, each collected key was contributed by a source in the list |
| `Agent.RaisingSourceSkipped` | lib/solanum.rb:41-44 | a source that raises leaves the merged metrics exactly as if it were absent |
| `Agent.NilSourceSkipped` | lib/solanum.rb:39 | a source that returns nil is treated as an empty map, the same as being absent |
| `Agent.CollectKeepsKeys` | lib/solanum.rb:40 | merging never drops a key the accumulated metrics already hold |
| `Agent.ContributedPrefix` | lib/solanum.rb:37-45 | whether a source returned a key depends only on that source and the ones before it |
| `Agent.SourceKeepsOthers` | lib/solanum.rb:40 | a key the next source does not return keeps its value |
| `Agent.LastContributorWins` | lib/solanum.rb:37-45 | after the fold, a key is present iff some source returned it, and its value is the one from the last source that did |
| `Agent.LastSourceWins` | lib/solanum.rb:40 | a key a source returns takes that source's value, overriding earlier sources |
| `Agent.OverrideAllLast` | lib/solanum.rb:54 | a merged prototype field is unset iff every prototype leaves it unset; otherwise it is the last prototype that sets it |
| `Agent.MergeAll` | lib/solanum.rb:54 | merging prototypes merges each field (ttl, tags, diff, state) independently, the last setter winning |
| `Agent.Selected` | lib/solanum.rb:54 | a prototype is selected iff some service whose pattern matches the name carries it, and there are at most as many as services |
| `Agent.SelectedSnoc` | lib/solanum.rb:54 | `select` keeps service order: one more service adds its prototype at the end iff its pattern matches |
| `Agent.PrototypeSnoc` | lib/solanum.rb:54 | the merge is a left fold: one more matching service merges its prototype over the previous result, and a non-matching one changes nothing |
| `Agent.NoMatchEmptyPrototype` | lib/solanum.rb:54 | when no pattern matches the service its prototype is the empty hash |
| `Agent.Uniq` | lib/solanum.rb:57 | de-duplicating tags keeps exactly the same set of tags with no repetition |
| `Agent.FirstIndex` | lib/solanum.rb:57 | the position of a tag's first occurrence: it is there, and nowhere before |
| `Agent.FirstIndexSnoc` | lib/solanum.rb:57 | adding a tag at the end does not move any earlier tag's first occurrence |
| `Agent.UniqKeepsFirstOrder` | lib/solanum.rb:57 | the kept tags come in the order of their first occurrences in the input |
| `Agent.UniqOfNoDup` | lib/solanum.rb:57 | de-duplicating tags that already have no repetition changes nothing |
| `Agent.EventFor` | lib/solanum.rb:51-77 | a service yields an event iff it has a value and, when its prototype asks for a diff, an old value no larger than the new one |
| `Agent.EventForContents` | lib/solanum.rb:56-76 | the event carries the value, or its difference from the old value when diffed; the state of the undiffed value (ok without a state function); exactly the prototype's and the defaults' tags without repetition, in first-occurrence order with the prototype's first; the prototype ttl over the default one; and the defaults' other keys |
| `Agent.EventOf` | lib/solanum.rb:69-77 | an event built for a service names that service |
| `Agent.ServiceNames` | lib/solanum.rb:52 | the service name list lines up with the events, one per event |
| `Agent.EventsOfCons` | lib/solanum.rb:52-78 | mapping over the keys drops a key without an event (`compact`) and keeps the others in order |
| `Agent.EventsOfSound` | lib/solanum.rb:52-78 | every built event is the event of one of the keys |
| `Agent.EventsOfComplete` | lib/solanum.rb:52-78 | every key that has an event appears among the built events |
| `Agent.EventsOfSorted` | lib/solanum.rb:52 | events built from strictly sorted keys are strictly sorted by service |
| `Agent.BuildEvents` | lib/solanum.rb:51-79 | the events are strictly sorted by service, each is the event of a current metric, and none that should exist is missing |
| `Agent.FirstPassDiffSilent` | lib/solanum.rb:60-67 | on the first cycle a diff service has no previous value and produces no event |
| `Agent.CounterResetSilent` | lib/solanum.rb:62-66 | a diff service whose value went down produces no event |
| `Counters.Delta` | lib/solanum/source/diskstats.rb:42 | a difference exists iff both readings exist, and adding the previous reading gives back the current one |
| `Counters.Prepend` | lib/solanum/source/diskstats.rb:32 | adding earlier events to an outcome keeps its baseline and whether it raised |
| `Diskstats.ParseStats` | lib/solanum/source/diskstats.rb:24-28 | a line yields a device name iff it has three words, and counter i iff it has more than i + 3 words |
| `Diskstats.ParseRender` | lib/solanum/source/diskstats.rb:24-28 | parsing a rendered `/proc/diskstats` line gives back its three identifiers and eleven counters |
| `Diskstats.Reported` | lib/solanum/source/diskstats.rb:46-109 | eleven fields are reported when detailed and seven otherwise, each a distinct counter |
| `Diskstats.ReportedCounters` | lib/solanum/source/diskstats.rb:58-91 | detailed mode reports every counter; plain mode reports all but reads and writes completed and merged |
| `Diskstats.Diff` | lib/solanum/source/diskstats.rb:40-43 | the field differences exist iff every counter was read both times, and each adds back to the current counter |
| `Diskstats.Step` | lib/solanum/source/diskstats.rb:35-112 | a device that is not selected changes nothing; a selected one becomes the baseline; only an already-seen device yields events or raises |
| `Diskstats.SeenDevice` | lib/solanum/source/diskstats.rb:39-111 | for an already-seen device the step raises iff a counter is missing, and otherwise emits one event per reported field |
| `Diskstats.CollectRows` | lib/solanum/source/diskstats.rb:34-113 | the baseline only gains devices, and they are all selected ones |
| `Diskstats.Continue` | lib/solanum/source/diskstats.rb:34-113 | continuing a cycle keeps baseline keys and adds only selected devices |
| `Diskstats.Collect` | lib/solanum/source/diskstats.rb:31-116 | a full cycle over the file keeps baseline keys and adds only selected devices |
| `Diskstats.CollectAppend` | lib/solanum/source/diskstats.rb:34-113 | processing rows a then b is processing a and continuing with b, events concatenated |
| `Diskstats.ContinuePrepend` | lib/solanum/source/diskstats.rb:34-113 | events already emitted stay in front when the cycle continues |
| `Diskstats.LatestBaseline` | lib/solanum/source/diskstats.rb:111 | after a clean cycle a selected device's baseline is its latest row |
| `Diskstats.SelectedNames` | lib/solanum/source/diskstats.rb:38 | every collected device name passes the selection (listed, or `sd[a-z]` when no list) |
| `Diskstats.SelectedNamesWitness` | lib/solanum/source/diskstats.rb:38 | every selected name comes from some row |
| `Diskstats.FirstSight` | lib/solanum/source/diskstats.rb:39 | a device seen for the first time only records its baseline |
| `Diskstats.FirstCycleSilent` | lib/solanum/source/diskstats.rb:31-116 | a first cycle over distinct new devices emits no events and records every selected device |
| `Diskstats.SilentContinue` | lib/solanum/source/diskstats.rb:34-113 | continuing from an empty clean outcome is the same as collecting from its baseline |
| `Diskstats.TwoCycles` | lib/solanum/source/diskstats.rb:31-116 | for an `sdX` line, the first cycle is silent and the second emits the reported counter differences, in source order |
| `FlatMetric.New` | lib/solanum/metrics/metric.rb:14-17 | a new metric holds no values and is stamped with the current time |
| `FlatMetric.ValueKey` | lib/solanum/metrics/metric.rb:57-61 | nil means unit `1`, a String is interned, a Symbol is kept |
| `FlatMetric.UnitSpellings` | lib/solanum/metrics/metric.rb:57-61 | a String unit and the Symbol of the same name address one value, and nil addresses unit `1` |
| `FlatMetric.Value` | lib/solanum/metrics/metric.rb:40-42 | the value under a unit is nil when no entry exists |
| `FlatMetric.Units` | lib/solanum/metrics/metric.rb:45-47 | the listed units are exactly those with a stored entry: every unit holding a value is listed, and every listed unit addresses its stored entry |
| `FlatMetric.Clear` | lib/solanum/metrics/metric.rb:50-52 | after clearing every unit's value is nil and the time is kept |
| `FlatMetric.RecordAsWritten` | lib/solanum/metrics/metric.rb:20-24 | as written, nothing is stored unless a default-unit value already exists |
| `FlatMetric.Record` | lib/solanum/metrics/metric.rb:20-24 | a nil value is ignored; otherwise it is stored under its unit with the current time, other units unchanged |
| `FlatMetric.Rate` | lib/solanum/metrics/metric.rb:33 | a rate exists iff time passed, and rate times elapsed time is scale times the change |
| `FlatMetric.RecordRate` | lib/solanum/metrics/metric.rb:27-37 | the new value is stored, the rate unit receives scale × change / elapsed time when an old value exists, other units unchanged |
| `FlatMetric.RecordRateAsWritten` | lib/solanum/metrics/metric.rb:27-37 | as written, a metric without a default-unit value is never changed |
| `FlatMetric.AsWrittenNeverRecords` | lib/solanum/metrics/metric.rb:21 | as written, a metric that starts empty stays empty under any sequence of operations |
| `FlatMetric.FreshRecordDiffers` | lib/solanum/metrics/metric.rb:21 | recording 1.0 on a new metric: as written nothing is stored, with the fix 1.0 is |
| `FlatMetric.RateAfterTwoReadings` | lib/solanum/metrics/metric.rb:27-37 | two readings one time unit apart store the second value and a rate equal to scale × difference |
| `FlatMetrics.ValidNameAccepted` | lib/solanum/metrics.rb:23 | every name the intended whole-string check accepts is also accepted by the line-anchored check |
| `FlatMetrics.AncestorsAreDotPrefixes` | lib/solanum/metrics.rb:29-30 | the ancestors of a name are exactly its proper prefixes ending just before a dot |
| `FlatMetrics.FirstStored` | lib/solanum/metrics.rb:31 | the ancestor lookup finds nothing iff no candidate is stored, else a stored candidate |
| `FlatMetrics.GetMetric` | lib/solanum/metrics.rb:22-35 | an invalid name raises; a stored metric is returned unchanged; otherwise a new metric is created iff it has no stored descendants or ancestors, leaving others untouched and the store free of nesting |
| `FlatMetrics.GetMetricIdempotent` | lib/solanum/metrics.rb:24 | getting a metric a second time returns the same store and metric |
| `FlatMetrics.Record` | lib/solanum/metrics.rb:38-40 | with the intended `Metric#record`: recording succeeds iff the metric can be got, stores the value under its unit, and leaves other metrics alone |
| `FlatMetrics.GetMetricAsWritten` | lib/solanum/metrics.rb:22-35 | as written, a name failing the line-anchored check raises `Invalid metric name`, and a successful get stores the name and keeps every other key |
| `FlatMetrics.AsWrittenAgrees` | lib/solanum/metrics.rb:22-35 | on every name the whole-string check accepts, the program's `get_metric` equals the intended one |
| `FlatMetrics.NewlineNameAccepted` | lib/solanum/metrics.rb:23 | the name `"abc\na."` passes the line-anchored check but not the whole-string one |
| `FlatMetrics.NewlineNameNests` | lib/solanum/metrics.rb:23-34 | as written, `"abc\na."` is created under the stored metric `"abc\na"`, breaking the no-nesting invariant; with the fix it is refused |
| `FlatMetrics.NestsUnderParent` | lib/solanum/metrics.rb:26-34 | as written, a name with no ancestors that extends a stored name past a dot is created, nesting a metric in a metric |
| `InputContext.ToS` | lib/solanum/lang/input_context.rb:33-34 | the default `:to_s` conversion turns a missing group into the empty string |
| `InputContext.Commands` | lib/solanum/lang/input_context.rb:24-27 | the command count is zero iff none of record, measure or block is given, and one iff exactly one is |
| `InputContext.Extracted` | lib/solanum/lang/input_context.rb:33-34 | the recorded value is the first capture group converted by `:as`, or by `to_s` |
| `InputContext.Validate` | lib/solanum/lang/input_context.rb:22-29 | a declaration is accepted iff it has a pattern and exactly one command, and each failure has its own message |
| `InputContext.Action` | lib/solanum/lang/input_context.rb:31-43 | the calculation records, measures, or runs the block according to the one command given |
| `InputContext.MatchAsWritten` | lib/solanum/lang/input_context.rb:45 | as written, a valid declaration still raises, because the block is passed positionally |
| `InputContext.Match` | lib/solanum/lang/input_context.rb:21-46 | a valid declaration appends exactly one matcher with the pattern and the chosen calculation; an invalid one raises its message |
| `InputContext.AsWrittenNeverAdds` | lib/solanum/lang/input_context.rb:45 | as written, no declaration ever adds a matcher |
| `InputContext.RecordDeclarationDiffers` | lib/solanum/lang/input_context.rb:45 | a plain `record:` declaration fails as written and succeeds with the fix |
| `InputContext.RecordMatcherRecords` | lib/solanum/lang/input_context.rb:31-36 | the added matcher, on a matching line, records the extracted value at the path |
| `InputContext.MeasureMatcherMeasures` | lib/solanum/lang/input_context.rb:37-42 | the added matcher, on a matching line, measures the extracted value at the path |
| `LineMatcher.NewMatcher` | lib/solanum/matcher.rb:9-12 | construction fails iff no function is given |
| `LineMatcher.NewLinePattern` | lib/solanum/matcher.rb:26-30 | construction succeeds iff both a function and a pattern are given, with the function checked first |
| `LineMatcher.FoldAppend` | lib/solanum/matcher.rb:36-47 | folding over concatenated lines is folding the second part over the first's result |
| `LineMatcher.InertLineDropped` | lib/solanum/matcher.rb:38-46 | a line that does not match, or whose function raises, leaves the result as if it were absent |
| `LineMatcher.Matching` | lib/solanum/matcher.rb:38 | the matching lines are a selection of the input, each matching the pattern |
| `LineMatcher.FoldMatching` | lib/solanum/matcher.rb:36-47 | folding over only the matching lines gives the same metrics as folding over all lines |
| `LineMatcher.Call` | lib/solanum/matcher.rb:16-48 | a plain matcher returns the metrics; a line matcher raises on missing lines, then on missing metrics, and otherwise folds |
| `LineMatcher.CallNoMatch` | lib/solanum/matcher.rb:32-48 | when no line matches, calling returns the metrics unchanged |
| `LineMatcher.MatchingEmpty` | lib/solanum/matcher.rb:38 | when no line matches, the matching selection is empty |
| `LineMatcher.FoldLoop` | lib/solanum/matcher.rb:36-47 | the loop over lines computes the same metrics as the fold |
| `MetricRecord.NormalUnit` | solanum/metrics/record.rb:16 | a record's unit is absent iff none is given, and otherwise is the symbol of the given name |
| `MetricRecord.New` | solanum/metrics/record.rb:13-17 | a new record keeps its time and value and has a unit iff one was given |
| `MetricRecord.UnitSpellings` | solanum/metrics/record.rb:16 | a String unit and the Symbol of the same name make the same record |
| `MetricRecord.RebuildRecord` | solanum/metrics/record.rb:13-17 | rebuilding a record from its time, value and unit gives back the record |
| `MetricTree.Keys` | solanum/metrics/category.rb:13 | every child's key is among a category's keys |
| `MetricTree.Lookup` | solanum/metrics/category.rb:21 | looking a key up fails iff the key is absent |
| `MetricTree.Put` | solanum/metrics/category.rb:21 | after storing, the key maps to the node, other keys are unchanged, and a new key is appended at the end |
| `MetricTree.Resolve` | solanum/metrics/category.rb:16-27 | an empty path raises; an existing node is returned unchanged; otherwise missing categories and an empty metric are created and only the first key's subtree changes |
| `MetricTree.ResolveFails` | solanum/metrics/category.rb:16-27 | resolving fails iff the path is empty or a metric sits where a category is needed |
| `MetricTree.ResolveIdempotent` | solanum/metrics/category.rb:16-27 | resolving a path twice is the same as once |
| `MetricTree.ResolveFrame` | solanum/metrics/category.rb:16-27 | resolving a path leaves every other path's node (outside its prefixes) unchanged |
| `MetricTree.Update` | solanum/metrics/metric.rb:13-15 | replacing a metric's history changes that path's node and keeps every key |
| `MetricTree.UpdateFrame` | solanum/metrics/metric.rb:13-15 | replacing a metric's history leaves every unrelated path unchanged |
| `MetricTree.Deref` | solanum/metrics/category.rb:30-33 | dereferencing a child succeeds iff it exists, giving it, and otherwise raises `No category element named …` |
| `MetricTree.DerefAfterResolve` | solanum/metrics/category.rb:30-33 | after resolving a path, its first element can be dereferenced |
| `TreeMetrics.New` | solanum/metrics.rb:18-20 | a new collection holds nothing at any path |
| `TreeMetrics.ParsePath` | solanum/metrics.rb:39 | a path becomes one symbol per dot-separated piece of the stripped string |
| `TreeMetrics.ParseJoined` | solanum/metrics.rb:39 | a dotted path built from names, with white space around it, parses back to those names |
| `TreeMetrics.JoinEnds` | solanum/metrics.rb:39 | a dotted path built from names starts and ends with a name character |
| `TreeMetrics.Append` | solanum/metrics.rb:26 | on a metric, `records <<` appends the record at the path; on a category, `records` and `<<` are dereferenced, so the call succeeds without storing anything iff the category has a `records` category holding a `<<` child |
| `TreeMetrics.ResolvedFrame` | solanum/metrics/category.rb:16-27 | resolving a path and replacing the metric there leaves every path outside its prefixes unchanged |
| `TreeMetrics.AppendFrame` | solanum/metrics.rb:25-26 | a successful append leaves every path outside the resolved path's prefixes unchanged |
| `TreeMetrics.RecordAt` | solanum/metrics.rb:23-27 | a nil value changes nothing; a writable path gets its old history plus the new record; every unrelated path is unchanged; a resolve error is passed on |
| `TreeMetrics.Record` | solanum/metrics.rb:23-27 | `record` on a string path: a nil value changes nothing, and a writable parsed path gets its old history plus the new record |
| `TreeMetrics.MeasureAt` | solanum/metrics.rb:30-35 | a nil value changes nothing; a writable path ends with only the new record; unrelated paths are unchanged; a path at a category raises |
| `TreeMetrics.Measure` | solanum/metrics.rb:30-35 | `measure` on a string path: a nil value changes nothing, and a writable parsed path ends with only the new record |
| `TreeMetrics.RecordTwice` | solanum/metrics.rb:23-27 | recording twice at one path keeps both records, oldest first |
| `TreeMetrics.MeasureThenRecord` | solanum/metrics.rb:23-35 | recording after measuring gives the measured record followed by the new one |
| `TreeMetrics.RecordThroughMetric` | solanum/metrics/category.rb:23-25 | a path running through a metric cannot be recorded at: `resolve` is not a method of a metric |
| `TreeMetrics.ResolveBlockedError` | solanum/metrics/category.rb:16-27 | the only way a non-empty path fails to resolve is the missing `resolve` method on a metric |
| `TreeMetrics.BlankPath` | solanum/metrics/category.rb:17 | recording at a blank path raises `Cannot create metric with empty path` |
| `MonitorMatcher.New` | lib/solanum/monitor/matcher.rb:15-21 | construction succeeds iff both a pattern and a block are given, the pattern checked first |
| `MonitorMatcher.Match` | lib/solanum/monitor/matcher.rb:24-34 | missing line or metrics raise; otherwise the result is true iff the pattern matches, running the block on a match and leaving metrics alone otherwise |
| `MonitorMatcher.Group` | lib/solanum/lang/input_context.rb:34 | a missing capture group reads as nil |
| `MonitorMatcher.NewThenMatch` | lib/solanum/monitor/matcher.rb:15-34 | a matcher built from a pattern and a block answers a line as the pattern and the block say |
| `MonitorSource.New` | lib/solanum/monitor/source.rb:16-21 | a source is created iff its type is command, file or compute, with no matchers |
| `MonitorSource.AddMatcher` | lib/solanum/lang/input_context.rb:45 | a matcher is appended at the end and nothing else changes |
| `MonitorSource.Find` | lib/solanum/monitor/source.rb:42 | the search returns the first line the matcher accepts, or none when no line matches, leaving the metrics alone |
| `MonitorSource.Index` | lib/solanum/monitor/source.rb:43 | `index` returns the first position holding the line, none iff absent |
| `MonitorSource.IndexOfFound` | lib/solanum/monitor/source.rb:42-43 | the line found is deleted at its own position, since no earlier line matched |
| `MonitorSource.Step` | lib/solanum/monitor/source.rb:41-44 | one matcher consumes at most one line that it matches, and consumes nothing when no line matches |
| `MonitorSource.Consumed` | lib/solanum/monitor/source.rb:43 | no more lines are consumed than matchers ran |
| `MonitorSource.ConsumedAppend` | lib/solanum/monitor/source.rb:41-44 | consumed lines accumulate over consecutive matchers |
| `MonitorSource.Run` | lib/solanum/monitor/source.rb:41-44 | each matcher fires on at most one line it matches, and remaining plus consumed lines are the input lines |
| `MonitorSource.Collect` | lib/solanum/monitor/source.rb:24-46 | nil metrics raise; compute runs its block; command splits the output on newlines; a readable file runs the matchers over its lines; an unreadable file raises unless there are no matchers |
| `MonitorSource.RunMetrics` | lib/solanum/monitor/source.rb:41-44 | the metrics after the matchers are those of the run, which succeeds iff the run does |
| `MonitorSource.ComputeIgnoresInput` | lib/solanum/monitor/source.rb:27-29 | a compute source ignores its matchers and any command output or file contents |
| `MonitorSource.FirstMatchWins` | lib/solanum/monitor/source.rb:41-44 | when two matchers accept the only line, the first consumes it and the second sees nothing |
| `Network.ParseStats` | lib/solanum/source/network.rb:34-38 | a line yields a row iff it has a word (otherwise `columns.shift` gives nil and the program raises) |
| `Network.ParseRender` | lib/solanum/source/network.rb:34-38 | parsing a rendered `/proc/net/dev` line gives back the interface without its colon and its sixteen counters |
| `Network.SimpleIndices` | lib/solanum/source/network.rb:23 | plain mode reports exactly the simple fields: rx/tx bytes and packets |
| `Network.ReportedCounts` | lib/solanum/source/network.rb:49-50 | detailed mode reports all sixteen fields in order; plain mode reports fields 0, 1, 8 and 9 |
| `Network.PlainBelow` | lib/solanum/source/network.rb:49-50 | the plain-mode fields below any index are the simple ones in order |
| `Network.ReportedAll` | lib/solanum/source/network.rb:49-50 | the detailed-mode fields below n are 0 to n - 1 in order |
| `Network.LabelsSpaced` | lib/solanum/source/network.rb:53 | each service label is its field name with underscores replaced by spaces |
| `Network.FieldEvents` | lib/solanum/source/network.rb:49-56 | events exist iff every reported counter was read both times, one per field in order, carrying its label and difference |
| `Network.Step` | lib/solanum/source/network.rb:44-59 | a blank line raises; an unselected interface changes nothing; a selected one becomes the baseline |
| `Network.FirstSighting` | lib/solanum/source/network.rb:48 | an interface seen for the first time only records its baseline |
| `Network.SeenInterface` | lib/solanum/source/network.rb:48-58 | for a seen interface the step raises iff a reported counter is missing, and otherwise emits its field events |
| `Network.CollectRows` | lib/solanum/source/network.rb:44-60 | the baseline only gains interfaces, and they are selected ones |
| `Network.Continue` | lib/solanum/source/network.rb:44-60 | continuing a cycle keeps baseline keys and adds only selected interfaces |
| `Network.Body` | lib/solanum/source/network.rb:44 | the two header lines are dropped, and a shorter file has no body |
| `Network.ParseAll` | lib/solanum/source/network.rb:45 | each body line is parsed on its own |
| `Network.Collect` | lib/solanum/source/network.rb:41-63 | a full cycle keeps baseline keys and adds only selected interfaces |
| `Network.HeaderIgnored` | lib/solanum/source/network.rb:44 | the two header lines never influence the outcome |
| `Network.CollectAppend` | lib/solanum/source/network.rb:44-60 | processing rows a then b is processing a and continuing with b |
| `Network.ContinuePrepend` | lib/solanum/source/network.rb:44-60 | events already emitted stay in front when the cycle continues |
| `Network.LatestBaseline` | lib/solanum/source/network.rb:58 | after a clean cycle a selected interface's baseline is its latest row |
| `Network.EventGroups` | lib/solanum/source/network.rb:49-56 | a clean cycle emits whole groups: a multiple of 16 events when detailed, of 4 otherwise |
| `Network.StepGroup` | lib/solanum/source/network.rb:48-58 | a single clean step emits nothing or exactly one group |
| `Network.BlankLineRaises` | lib/solanum/source/network.rb:36 | a blank body line makes the whole cycle raise |
| `Network.SingleLine` | lib/solanum/source/network.rb:44-60 | a file with one body line is one step on that line |
| `Network.TwoCycles` | lib/solanum/source/network.rb:41-63 | an interface's first cycle is silent, and its second emits the differences of its reported counters |
| `Order.LexTotal` | lib/solanum.rb:52 | any two strings are comparable |
| `Order.LexAntisymmetric` | lib/solanum.rb:52 | strings each at most the other are equal |
| `Order.LexTransitive` | lib/solanum.rb:52 | the string order is transitive |
| `Order.LeastExists` | lib/solanum.rb:52 | every non-empty set of keys has a least element |
| `Order.SortedKeys` | lib/solanum.rb:52 | sorting the keys lists each key exactly once in strictly increasing order |
| `Persistence.Get` | solanum.rb:34 | a field lookup fails iff no entry has the key, and otherwise returns an entry's document |
| `Persistence.LoadValue` | solanum.rb:34 | a stored value loads iff it is nil, a number or a string |
| `Persistence.LoadUnit` | solanum.rb:34 | a stored unit loads iff it is nil, a string or a symbol, and is absent iff nil |
| `Persistence.LoadRecord` | solanum.rb:34 | a record loads iff it is a hash with a numeric time and loadable value and unit, and takes them over |
| `Persistence.LoadRecords` | solanum.rb:34 | a list of records loads iff each record does, in order |
| `Persistence.LoadNode` | solanum.rb:32-42 | a node loads iff every list below is a list of records and every other node is a hash; lists become metrics and hashes categories |
| `Persistence.LoadEntries` | solanum.rb:36-39 | the entries of a hash load iff each one does, and their keys are added to the category |
| `Persistence.PairEntry` | solanum.rb:28 | a top-level list element gives a child iff it is a list of at least two items starting with a string, the key and the node; anything else has a nil node and raises `Unknown node type` unless its node is a list or hash |
| `Persistence.PairEntries` | solanum.rb:28 | a top-level list gives children iff every element does, one per element in order |
| `Persistence.Load` | solanum.rb:21-46 | a missing file loads as nil; a scalar top level raises; a hash loads iff every node does; a list loads iff each element is a `[key, node]` pair whose node loads, each key then present; keys are distinct |
| `Persistence.LoadPairs` | solanum.rb:28-42 | a top-level list loads iff each element is a `[key, node]` pair whose node loads; every element's key is then a root key, all distinct |
| `Persistence.LoadTop` | solanum.rb:27-28 | the top-level entries load iff each node does, into a root whose keys are exactly theirs, distinct |
| `Persistence.AsPairs` | solanum.rb:28 | a hash's entries as `[key, node]` pairs, one per entry |
| `Persistence.PairsLoadLikeMap` | solanum.rb:28 | a list of `[key, node]` pairs loads exactly as the hash with those entries |
| `Persistence.SavedPairsLoad` | solanum.rb:21-72 | a saved well-formed tree written as a list of pairs loads back as the tree |
| `Persistence.ShortPairRaises` | solanum.rb:28-42 | a one-item pair and a non-list element raise `Unknown node type`; a scalar document raises when enumerated |
| `Persistence.ValueDoc` | solanum.rb:58 | a saved value is nil, a number or a string |
| `Persistence.SaveRecord` | solanum.rb:57-61 | a saved record holds its time and value, and its unit only when it has one |
| `Persistence.SaveNode` | solanum.rb:56-68 | a metric saves as a list of its records and a category as a hash of its children |
| `Persistence.SaveEntries` | solanum.rb:62-65 | each child saves under its key's name |
| `Persistence.Save` | solanum.rb:49-72 | the saved top level is a hash with one entry per root child |
| `Persistence.RecordRoundTrip` | solanum.rb:34 | loading a saved record gives back the record |
| `Persistence.ValueRoundTrip` | solanum.rb:34 | loading a saved value gives back the value |
| `Persistence.UnitRoundTrip` | solanum.rb:34 | loading a saved unit gives back the unit |
| `Persistence.RecordsRoundTrip` | solanum.rb:34 | loading a saved history gives back the history |
| `Persistence.NodeRoundTrip` | solanum.rb:21-72 | loading a saved well-formed node gives back the node |
| `Persistence.EntriesRoundTrip` | solanum.rb:36-39 | loading a category's saved entries rebuilds its children in order |
| `Persistence.LoadStep` | solanum.rb:38-39 | loading entries stores the first child, then continues with the rest |
| `Persistence.SaveLoad` | solanum.rb:21-72 | loading a saved well-formed tree gives back the tree |
| `Persistence.LoadEmpty` | solanum.rb:21-46 | a missing file loads as nil, and an empty hash or an empty list as an empty tree |
| `RubyNetwork.FieldLoop` | ruby/source/network.rb:39-46 | the per-field loop succeeds iff every reported counter was read both times, and then emits the model's field events |
| `RubyNetwork.Collect` | ruby/source/network.rb:31-53 | the imperative collect computes the same outcome as the functional one, emitting whole groups of events |
| `RubyNetwork.RaisedPrefix` | ruby/source/network.rb:34-50 | once a prefix of the lines has raised, the rest of the file does not change the outcome |
| `Schedule.Empty` | lib/solanum/schedule.rb:5-8 | a new schedule is empty and sorted |
| `Schedule.Insert` | lib/solanum/schedule.rb:45-52 | inserting returns the entry and keeps the timetable sorted, adding exactly that entry |
| `Schedule.PeekNext` | lib/solanum/schedule.rb:12-16 | peeking is nil iff the schedule is empty, and otherwise gives an earliest entry |
| `Schedule.NextWait` | lib/solanum/schedule.rb:21-29 | the wait is nil iff empty, and otherwise reaches exactly the earliest entry's time |
| `Schedule.PopReady` | lib/solanum/schedule.rb:34-41 | an id is popped iff the first entry is due; it is removed from the front and the rest stay sorted |
| `Schedule.WaitOverIffReady` | lib/solanum/schedule.rb:21-41 | an entry is ready iff the wait until it is not positive |
| `Schedule.PopReadyEarliest` | lib/solanum/schedule.rb:34-41 | the popped entry is an earliest one |
| `Schedule.HeadIsEarliest` | lib/solanum/schedule.rb:49 | in a sorted timetable, an entry strictly earlier than all others is first |
| `Schedule.ThreeInserts` | lib/solanum/schedule.rb:45-52 | three inserts into an empty schedule hold exactly those three entries, sorted |
| `Schedule.PopScenario` | lib/solanum/schedule.rb:12-41 | with entries at +5, +1 and +3, nothing is ready before +1, then the +1 entry pops and the +3 entry is next |
| `Schedule.InsertPopScenario` | lib/solanum/schedule.rb:12-52 | the same scenario holds when the schedule is built by three inserts |
| `Sorting.InsertBy` | lib/solanum/schedule.rb:49 | inserting into a sorted list keeps it sorted and adds exactly the element |
| `Sorting.SortBy` | lib/solanum/schedule.rb:49 | sorting gives a sorted permutation of the input |
| `Text.WordLen` | lib/solanum/source/diskstats.rb:25 | a word runs up to the first whitespace character |
| `Text.Tokens` | lib/solanum/source/diskstats.rb:25 | splitting on whitespace gives non-empty words without whitespace |
| `Text.TokensUnwords` | lib/solanum/source/diskstats.rb:25 | splitting words joined by spaces gives back the words |
| `Text.Strip` | solanum/metrics.rb:39 | a stripped string has no whitespace at either end and is empty only when the input was all whitespace |
| `Text.StripPadded` | solanum/metrics.rb:39 | stripping removes exactly the surrounding whitespace |
| `Text.SplitOn` | solanum/metrics.rb:39 | splitting on a character gives at least one piece, none holding the separator |
| `Text.JoinSplitOn` | solanum/metrics.rb:39 | joining the pieces with the separator gives back the string |
| `Text.SplitOnJoin` | solanum/metrics.rb:39 | splitting pieces joined by a separator they lack gives back the pieces |
| `Text.RubySplitKeepsAll` | solanum/metrics.rb:39 | when the string does not end with the separator, Ruby's `split` drops no trailing piece |
| `Text.DropTrailingEmpty` | solanum/metrics.rb:39 | Ruby's `split` drops exactly the trailing empty pieces |
| `Text.Chomp` | lib/solanum/source/network.rb:36 | `chomp(':')` removes one trailing colon and nothing else |
| `Text.NatToStringValue` | lib/solanum/util.rb:13 | a number's decimal digits read back as the number |
| `Text.Pad2` | lib/solanum/util.rb:10 | `%02d` of a number below 100 is two digits reading back as it |
| `Text.ToIRoundTrip` | lib/solanum/source/diskstats.rb:26 | `to_i` reads back any integer written in decimal |
| `Thresholds.CheckPairs` | lib/solanum/dsl.rb:79-84 | the pair checks pass iff every limit is numeric and every state a string or symbol, and then the pairs flatten back to the arguments |
| `Thresholds.Build` | lib/solanum/dsl.rb:74-98 | a leading non-number is the default state (nil otherwise), the rest must pass the pair checks, and the built pairs flatten back to exactly that rest |
| `Thresholds.BuildWithoutDefault` | lib/solanum/dsl.rb:74-98 | the form that starts with a limit builds a nil default and exactly the declared pairs |
| `Thresholds.FlattenValid` | lib/solanum/dsl.rb:79-84 | pairs with state names always pass the checks and are read back unchanged |
| `Thresholds.BuildDeclare` | lib/solanum/dsl.rb:74-84 | building from a classifier's own declaration gives back the classifier |
| `Thresholds.ScanPrefix` | lib/solanum/dsl.rb:87-97 | the scan stops at the first limit not strictly below the value, keeping the last state passed |
| `Thresholds.CountBelow` | lib/solanum/dsl.rb:89-95 | the number of leading limits strictly below the value is the longest such prefix |
| `Thresholds.Classify` | lib/solanum/dsl.rb:87-97 | the state is the one paired with the last leading limit strictly below the value, or the default |
| `Thresholds.EqualToLimit` | lib/solanum/dsl.rb:90 | a value equal to a limit does not reach that limit's state |
| `Thresholds.UsageExample` | lib/solanum/dsl.rb:72 | `thresholds(:ok, 55, :warning, 65, :critical)` gives ok up to 55, warning up to 65, then critical |
| `Thresholds.AvailabilityExample` | lib/solanum/dsl.rb:74-98 | a classifier without a default is nil at or below its first limit |
| `Util.ScanOverAnySort` | lib/solanum/util.rb:25-29 | on thresholds sorted by decreasing limit, the scan returns the state of a largest limit at most the metric, or the minimum state |
| `Util.StateOver` | lib/solanum/util.rb:24-30 | the state is that of a largest threshold at most the metric, and the minimum state when all exceed it |
| `Util.ScanUnderAnySort` | lib/solanum/util.rb:38-42 | on thresholds sorted by increasing limit, the scan returns the state of a smallest limit above the metric, or the maximum state |
| `Util.StateUnder` | lib/solanum/util.rb:37-43 | the state is that of a smallest threshold above the metric, and the maximum state when none is above |
| `Util.BreakpointBoundary` | lib/solanum/util.rb:27-40 | a metric equal to a threshold is over it but not under it |
| `Util.StateOverExamples` | lib/solanum/util.rb:24-30 | warning 50 and critical 80 classify a reading as critical, warning or ok |
| `Util.StateUnderExamples` | lib/solanum/util.rb:37-43 | warning 10 and critical 5 classify a reading as critical, warning or ok |
| `Util.Trunc` | lib/solanum/util.rb:6-9 | `to_i` on a non-negative float is its floor |
| `Util.UnitQuotient` | lib/solanum/util.rb:6-9 | dividing by, or taking the floor modulo of, a whole number of seconds agrees with whole-second arithmetic |
| `Util.DurationParts` | lib/solanum/util.rb:6-9 | the hours, minutes and seconds are below 24, 60 and 60 |
| `Util.WholeSecondsDecomposition` | lib/solanum/util.rb:7-9 | the hours, minutes and seconds add back to the seconds within the day |
| `Util.DurationDecomposition` | lib/solanum/util.rb:6-9 | for a non-negative duration, days, hours, minutes and seconds add back to its whole seconds |
| `Util.PartsOfWholeSeconds` | lib/solanum/util.rb:6-9 | each part depends only on the whole seconds of the duration |
| `Util.Hms` | lib/solanum/util.rb:10 | the clock string is `HH:MM:SS`, eight characters with colons at 2 and 5 |
| `Util.DurationStr` | lib/solanum/util.rb:5-17 | with a positive day count the string is the days (decimal, no leading zero), `days, `, and the clock; otherwise it is the clock alone |

## Left out

- Reading files, running commands, YAML parsing and emission, and printing
  (`File`, `%x{}`, `puts`, `STDERR`) are left out. Their inputs and outputs
  are parameters: file lines, command output, and documents as a small tree
  datatype.
- The schedule's `Mutex` is left out, and so is concurrency generally. Each
  schedule operation is modelled as atomic.
- Randomness and jitter in scheduling, the agent's main loop, and the
  default collection period are left out, because they are timing rather
  than logic.
- User-supplied regular expressions are abstract functions from a line to
  its match data. Only the two fixed patterns are written out.
- `strip` treats NUL as whitespace on the right; the model's whitespace set
  does not include it.
- `to_i` accepts underscores between digits. The model reads an optional
  sign and a run of decimal digits.
- Floats are `real`, so rounding, NaN and infinities are not modelled. A
  number's `to_s` inside strings is not modelled either.
- `state.to_s` in an event is kept as the state value itself.
- Several things mutate state before raising, and the model returns the
  error (or the state before the call), not the partial state:
  - a monitor matcher's block that raises partway;
  - `instance_exec` on the live metrics object;
  - `load_metrics` partly filling a tree before it raises;
  - `measure` at a category whose `records` child is a category: `clear`
    empties that category before `<<` raises;
  - a source that writes into the metrics hash passed to `collect` and then
    raises. The rescue in `collect!` keeps the written keys, while a model
    source only returns a result and a raising one leaves the hash as it was.
- `FlatMetric.Units` returns a set. The program returns the units in
  insertion order.
- `Persistence.Load`:
  - It walks the document depth-first. The program queues nodes
    breadth-first, so when a file has several bad nodes the program may
    report a different one first.
  - Errors are kinds, not the message text with `inspect` output.
  - A loaded record value must be nil, a number or a string.
  - Keys are strings. A `[key, node]` pair at the top level whose key is not
    a string raises when its node is a list or a hash, since `intern` is
    missing; Symbol keys are not modelled.
  - A longer top-level list element loads its first two items and ignores
    the rest, as the block's two parameters do.
- `Persistence.LoadRecord`: `Time.at` of a loaded time is kept as the number
  itself.
- A `false` unit, and units that are neither strings nor symbols, are not
  modelled. Units are nil, a String or a Symbol.
- `instance_exec` runs a block with the metrics object as `self`. Here a
  calculation is a function from the metrics, the match data and the time to
  new metrics or an error.
- `FlatMetrics.Record`: built on the corrected `FlatMetric.Record`, and on a
  `get_metric` that checks the whole name. The program as written stores
  nothing on a new metric; see the finding below.
- `FlatMetric.RecordRate`: built on the corrected `record`. When no time has
  passed the rate is nil, and the corrected `record` skips a nil value, so
  the rate unit keeps its old value. The program as written stores the nil
  rate whenever a default-unit value exists.
- The certificate, cpu, memory, load and uptime sources are left out, as
  are the configuration loader, the Riemann and print outputs, the DSL root
  context and the example/monitor configuration scripts. They are
  configuration or I/O around the modelled core.

## Findings

| source | as written | input that shows it | evidently intended | confidence | as-written member | corrected member |
|---|---|---|---|---|---|---|
| lib/solanum/metrics/metric.rb:21 | `return unless value` tests the metric's current default-unit value, so a new metric never stores anything | `Metric.new.record(1.0)` leaves `value` nil | `return unless new_value`: skip only a nil new value | not executed | `FlatMetric.AsWrittenNeverRecords` | `FlatMetric.Record` |
| lib/solanum/metrics.rb:23 | `^\w[\w.]+\w$` anchors lines, not the whole string, so a name holding a newline passes | `get_metric("abc\na.")` with `"abc\na"` stored creates a metric nested under a metric | `\A\w[\w.]+\w\z`: the whole name must match | not executed | `FlatMetrics.NewlineNameNests` | `FlatMetrics.GetMetric` |
| lib/solanum/lang/input_context.rb:45 | the block is passed as a positional argument to `Matcher.new(pattern, &block)`, which takes one positional argument | `match /x/, record: "a.b"` raises `ArgumentError` | pass it as a block: `Matcher.new(pattern, &block)` | not executed | `InputContext.AsWrittenNeverAdds` | `InputContext.Match` |
