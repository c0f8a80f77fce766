# Verified core of the LLM gateway

This project models the parts of the gateway that carry real state, loops or arithmetic and proves what
they keep, over every input and every run. One module follows one piece of the source:

| module | piece |
|---|---|
| `WorkerPool` | the bounded worker pool that tests channels: feeder, workers, closer and caller as a step-by-step transition system, for every schedule and a cancellation at any moment |
| `MultiKey`, `MultiKeyRuns` | the key manager of a multi-key channel: one newline-separated key field and three maps indexed by key position, refining a list of key records; runs of requests, status reports and changes by tag |
| `ModelNames`, `UpstreamModels` | the upstream model reconciler: ordered name lists, detection, application of a selection, the keyset scan |
| `RatioSync` | the price-difference report of several upstream channels |
| `ModelsDev` | the choice of one price per model from the models.dev catalogue |
| `RateLimit` | the sliding-window rate limiter with its background sweeper |
| `DiskCacheConfig`, `BodySessions`, `BodyStorage` | request bodies in memory and on disk, their readers, their creation and the usage counters |
| `QuotaMath` | saturating quota conversions and the charge of a channel test |
| `OggScan` | the resynchronising Ogg page scanner (section 6 of RFC 3533, section 4 of RFC 7845) |

`Text` holds the string functions of Go's library that the pieces rely on, `Common` a few small types.

Objects that the source updates in place are classes here, and its loops are loops. Each such method is
proved against a function of the inputs or the old state; the main results are lemmas about these functions
and about all runs of them. Maps are walked in an arbitrary order, as Go does.

## What the proofs found

Where the code does less than its comments or callers suggest, the exact condition is proved next to a
concrete case:

- The reconciler reaches its fixed point in one round unless an added name contains a comma, or adding a
  model deletes an ignore rule of the same name that was hiding another one
  (`UpstreamModels.OneRoundFixedPoint`, `CommaBreaksFixedPoint`, `DroppedRuleExample`).
- An auto-sync that adds a name with a comma can report a change and write the field it found; without commas the
  field differs (`UpstreamModels.AutoSyncMayWriteTheSame`, `DetectMeans`).
- Deleting the auto-disabled keys of a channel whose keys are all auto-disabled deletes nothing: the empty key
  list is skipped by the struct update, and all keys come back enabled (`MultiKeyRuns.DeletingEverythingRevives`).
- A deletion that leaves a blank key at an end of the list shifts the remaining keys against their entries,
  and can strand times and reasons beyond the keys (`MultiKeyRuns.ActsAsExpectedIff`, `RunStaysTidyIff`,
  `BlankKeyLosesStatus`).
- A report that enables a key leaves its old disable time and reason behind, unless the channel itself is enabled:
  then the report is not stored at all (`MultiKeyRuns.RunStaysCleanIff`, `ReenablingLeavesTraces`).
- Replacing the key list by a shorter one leaves times and reasons beyond it, which a longer list finds again
  (`MultiKeyRuns.RegrownCleanIff`).
- The rate limiter agrees with the request log exactly when every limit is at least 1 and, if the sweeper runs, every
  duration is at most one second longer than its expiration (`RateLimit.ExactIffSupported`); the comment in
  common/constants.go line 199 asks for a duration not above the expiration.
- A price that differs from the local one is left out of the report when it is a JSON null or the literal
  string "same" (`RatioSync.HiddenDifferences`, `LiteralSameIsHidden`).
- Of two upstreams with the same name, which those without an id can have, only the one that answers last is shown
  (`RatioSync.OrderMattersIff`, `EqualNamesDependOnOrder`).
- The cheapest non-zero models.dev price is chosen only if no earlier provider's choice is within the comparison
  tolerance (`ModelsDev.CheapestChosenIff`, `CheapestMayLose`), and the bound relies on the providers being sorted
  (`ModelsDev.UnsortedProvidersDrift`).
- A memory and a disk storage answer an empty read at the end of the body differently, and so do their
  readers after they were closed (`BodySessions.IndistinguishableIff`, `EmptyReadTells`).
- The exported function that stores a stream keeps an empty body under a size limit of MaxInt64
  (`BodyStorage.StoredIsTheStream`, `MaxInt64StoresNothing`); its caller, common/gin.go line 67, never passes that
  limit. A stream longer than its declared length can exceed the disk maximum
  (`BodyStorage.UnderdeclaredStreamExceeds`).
- `QuotaFromFloat` reports a clamp for values less than one unit outside the range although truncating them
  would fit (`QuotaMath.TruncatingConversion`, `NeedlessClamp`).

## Model

| member | source | states |
|---|---|---|
| WorkerPool.NormalizeConcurrency | setting/operation_setting/monitor_setting.go:65-73 | 1 when not positive, 32 when above 32, and otherwise the value itself |
| WorkerPool.StepInv | controller/channel-test.go:988-1039 | every step of every goroutine, and a cancellation at any moment, keeps the invariant of the pool |
| WorkerPool.ReachableInv | controller/channel-test.go:964-1052 | every state of every interleaving satisfies that invariant |
| WorkerPool.EachJobInOnePlace | controller/channel-test.go:989-1029 | in every reachable state each channel is in exactly one place (unsent, with one worker, with the caller, reduced, dropped), and no channel is tested twice |
| WorkerPool.WorkersAreBounded | controller/channel-test.go:971-974 | in every reachable state there is at least one worker for a non-empty list, and never more than the channels, than 32 or than a concurrency within the range |
| WorkerPool.NothingStartsAfterCancel | controller/channel-test.go:991-1000 | after a cancellation no step starts a test or reports progress |
| WorkerPool.CancelReachesAll | controller/channel-test.go:991-1017 | a cancellation is possible at any moment; after it the feeder can stop and every waiting or pausing worker can leave, though a waiting one may still be handed a job; before it none of them can |
| WorkerPool.ResultTravels | controller/channel-test.go:1002-1045 | what a test returns, after a cancellation too, is what its worker sends, the caller receives and the sum takes in, and no other step changes the sum |
| WorkerPool.PausesBetweenJobs | controller/channel-test.go:1010-1015 | with an interval between requests a worker that delivered takes no job before it has paused, without one it may at once |
| WorkerPool.NoSendOnClosedChannel | controller/channel-test.go:1033-1036 | the results channel is closed only after every worker has exited, so nothing is sent on it afterwards; the wait group never goes negative |
| WorkerPool.ReportsCountUp | controller/channel-test.go:975-977 | progress reports are 0, 1, 2, ... without gaps and never exceed the total; without cancellation none is missing |
| WorkerPool.NeverStuck | controller/channel-test.go:990-1018 | every unfinished state has an enabled step other than cancelling |
| WorkerPool.StepDecreases | controller/channel-test.go:991-1017 | every step, whoever takes it, decreases one well-founded measure |
| WorkerPool.RunsAreBounded | controller/channel-test.go:982-1018 | no schedule is longer than 6 steps a channel plus one a worker plus 4 |
| WorkerPool.SumInAnyOrder | controller/channel-test.go:1040-1045 | one result for each channel, in any order, adds up to the fieldwise sum over the channels |
| WorkerPool.ExpectedIs | controller/channel-test.go:988-1009 | a nil or manually disabled channel adds nothing, and every other channel what its test returns |
| WorkerPool.SumOfIsFieldwise | controller/channel-test.go:1040-1045 | each of the five fields of the summary is the integer sum of that field over the reduced results |
| WorkerPool.SumExpectedIsFieldwise | controller/channel-test.go:1040-1045 | and so is each field of the sum over the channels |
| WorkerPool.CompleteRun | controller/channel-test.go:1038-1051 | when an uncancelled call returns, every channel is processed, each field of the summary is the integer sum of that field over all channels, and the reports are exactly 0 to total |
| WorkerPool.CancelledRun | controller/channel-test.go:992-1000 | when a call returns, cancelled or not and with the feeder gone or not, every channel is accounted for, each field of the summary is the integer sum of that field over exactly the reduced results, and every started test is among them |
| WorkerPool.ReturnIsFinal | controller/channel-test.go:1022-1051 | after the return no remaining step sends, tests, reduces or reports anything |
| WorkerPool.RunChannelTestWorkers | controller/channel-test.go:964-1052 | driven by any scheduler the call returns, in a reachable state, with the field by field sum over all channels unless cancelled |
| Text.TrimSpaceIs | controller/channel_upstream_update.go:100-105 | trimming cuts off the white space at both ends and nothing else |
| Text.TrimsToNothing | controller/channel_upstream_update.go:100-105 | nothing is left exactly of a blank string |
| Text.TrimCharIs | model/channel.go:293-298 | trimming a separator cuts off all its leading and trailing occurrences and nothing else |
| ModelNames.NormalizeNormal | controller/channel_upstream_update.go:100-105 | a list that is already trimmed, without blanks and without repeats is left alone: normalizing is idempotent |
| ModelNames.NormalizeConcat | controller/channel_upstream_update.go:100-121 | normalizing a concatenation keeps the first list and appends what the second adds, in order |
| ModelNames.MergeIs | controller/channel_upstream_update.go:107-121 | a merge is the normal form of the concatenation: the first list in front, exactly the names of either |
| ModelNames.SubtractIs | controller/channel_upstream_update.go:123-132 | exactly the names that are not removed, each once, in the order of the first list |
| ModelNames.IntersectIs | controller/channel_upstream_update.go:134-143 | exactly the names in both lists, each once, in the order of the first |
| ModelNames.ApplySelectedIs | controller/channel_upstream_update.go:145-150 | exactly the added names and the original names not removed, each once, in the order of the original list followed by the additions: adding wins |
| ModelNames.AppendUnseen | controller/channel_upstream_update.go:108-119 | the loop with its set of seen names appends exactly the names not in the base, in order |
| ModelNames.MergeModelNames | controller/channel_upstream_update.go:107-121 | the loop computes the merge |
| UpstreamModels.PendingIs | controller/channel_upstream_update.go:179-238 | pending additions are exactly the upstream names that are not local, not a redirect target and not ignored, in upstream order; pending removals exactly the local names that are neither upstream nor redirected, in local order; no name twice |
| UpstreamModels.RegexRuleHides | controller/channel_upstream_update.go:196-218 | a rule that starts with `regex:` hides the names its trimmed pattern matches |
| UpstreamModels.NameRuleHides | controller/channel_upstream_update.go:196-218 | any other rule hides exactly the name it is |
| UpstreamModels.DetectNothing | controller/channel_upstream_update.go:502-524 | a throttled detection changes nothing, a failed fetch only the time of the check, and every unthrottled one notes that time |
| UpstreamModels.DetectMeans | controller/channel_upstream_update.go:524-549 | a successful detection stages what it collected and leaves the models alone unless auto-sync is on and allowed; then nothing stays pending and, without commas, the local models are the old ones followed by the additions in order |
| UpstreamModels.AutoSyncMayWriteTheSame | controller/channel_upstream_update.go:526-536 | with the local field `a,b,a,b` adding the name `a,b` is reported as a change and writes the same field |
| UpstreamModels.ReadBackExactly | model/channel.go:293-298 | joining a list with commas and reading it back is the identity exactly when no name contains a comma |
| UpstreamModels.OneRoundFixedPoint | controller/channel_upstream_update.go:947-995 | detect, apply everything, detect again stages nothing exactly when no added name has a comma and no dropped ignore rule was hiding a name |
| UpstreamModels.OrdinaryNamesReachFixedPoint | controller/channel_upstream_update.go:179-238 | for names without commas that do not start with `regex:` one round always reaches the fixed point |
| UpstreamModels.CommaBreaksFixedPoint | model/channel.go:293-298 | the name `a,b` is proposed again after it was added |
| UpstreamModels.AddingARuleNameDropsTheRule | controller/channel_upstream_update.go:975-978 | adding a model named like a regex rule deletes the rule, and what it hid is proposed |
| UpstreamModels.DroppedRuleExample | controller/channel_upstream_update.go:975-978 | the same for the concrete rule `regex:^x` |
| UpstreamModels.DetectGood | controller/channel_upstream_update.go:502-549 | every detection (forced, throttled, failed or auto-syncing) of names without commas keeps the pending lists consistent and free of commas |
| UpstreamModels.ApplyGood | controller/channel_upstream_update.go:947-995 | so does every application of a partial selection |
| UpstreamModels.DetectConsistent | controller/channel_upstream_update.go:502-549 | every detection keeps the pending lists consistent, whatever it fetches: a comma can only do harm when it is applied |
| UpstreamModels.ApplyConsistentExactly | controller/channel_upstream_update.go:947-995 | an application keeps them consistent exactly when it leaves no comma-separated piece of an added name pending |
| UpstreamModels.ApplyNotesTime | controller/channel_upstream_update.go:947-995 | an application notes its time and leaves the redirects and the auto-sync setting alone |
| UpstreamModels.ChosenAre | controller/channel_upstream_update.go:961-966 | only names that wait for a decision are chosen, and a name chosen for adding is not chosen for removal |
| UpstreamModels.ApplyMeans | controller/channel_upstream_update.go:947-995 | in a good state, name by name: chosen additions become local and leave the ignore list, chosen ignores join it, chosen removals are no longer local, and exactly the names that were not chosen stay pending |
| UpstreamModels.EventConsistentIff | controller/channel_upstream_update.go:502-549 | an event keeps the pending lists consistent exactly when it is not an application that leaves a piece of an added name pending |
| UpstreamModels.RunConsistentIff | controller/channel_upstream_update.go:947-995 | commas or not, every state of a run is consistent exactly when no application of the run leaves such a piece |
| UpstreamModels.PieceExample | model/channel.go:293-298 | adding `a,b` while `a` is pending leaves `a` both local and pending |
| UpstreamModels.RunsStayConsistent | controller/channel_upstream_update.go:502-549 | when no fetched or pending name has a comma, over every run pending additions avoid local models, literally ignored models and pending removals, and pending removals are local |
| UpstreamModels.IgnoredForEver | controller/channel_upstream_update.go:975-978 | in any state and over any run, a literally ignored model that is not pending stays ignored and is never proposed again |
| UpstreamModels.SelectionsCompose | controller/channel_upstream_update.go:145-150 | when no chosen addition has a comma, two selections one after the other give the same model sequence as both at once, exactly when no model is ignored by the first and added by the second |
| UpstreamModels.CommaSelectionsDiffer | model/channel.go:293-298 | with commas they differ: adding a name first and removing a local piece of it second is not the same as both together |
| UpstreamModels.CommaSelectionsExample | model/channel.go:293-298 | adding `a,b` and then removing the local `a` is such a case |
| UpstreamModels.AddWins | controller/channel_upstream_update.go:963-978 | in any state an added model is off the ignore list, and local exactly when it has no comma, whatever else selects it |
| UpstreamModels.Channel.CheckAndPersist | controller/channel_upstream_update.go:502-549 | with storing not failing, the state afterwards is the detection's; a fetch error is returned exactly for a failed unthrottled fetch; the models are reported as changed exactly when auto-sync adds something, with the number added; then the model field is the old local names followed by the additions, joined, and differs from before when no addition has a comma |
| UpstreamModels.Channel.ApplyUpdates | controller/channel_upstream_update.go:947-995 | the state afterwards is the application's, with the chosen additions and removals returned, and a change reported exactly when the model list differs |
| UpstreamModels.NextBatch | controller/channel_upstream_update.go:1001-1012 | the next batch continues where the scan stopped, and a short batch is the last |
| UpstreamModels.BatchHasHundred | controller/channel_upstream_update.go:1001-1012 | a batch has a hundred ids, or all that are left when those are fewer |
| UpstreamModels.ScanEnabled | controller/channel_upstream_update.go:1014-1075 | the keyset scan stops and visits every enabled channel once, in id order |
| MultiKey.Channel.Update | model/channel.go:546-601 | the key count follows the written key field and statuses beyond it are dropped; an empty field leaves the stored keys; times and reasons stay within the keys exactly when none lay beyond |
| MultiKey.Channel.Disable | controller/channel.go:1683-1724 | one position changes its status, every other record stays |
| MultiKey.Channel.Enable | controller/channel.go:1726-1766 | one position loses status, time and reason, every other record stays |
| MultiKey.Channel.EnableAllKeys | controller/channel.go:1768-1790 | every record becomes enabled without time and reason |
| MultiKey.Channel.DisableAllKeys | controller/channel.go:1792-1837 | exactly the enabled records become manually disabled, and their number is reported |
| MultiKey.Channel.CopyWithout | controller/channel.go:1863-1889 | the re-indexing loop yields the records without the deleted one |
| MultiKey.Channel.CopySurvivors | controller/channel.go:1927-1957 | the re-indexing loop yields the records that are not auto-disabled |
| MultiKey.Channel.Replace | controller/channel.go:1899-1906 | rebuilt maps and joined keys are stored; what is read back is the written records with the keys the field gives; times and reasons stay within the keys exactly when no record strands one beyond them |
| MultiKey.Channel.Delete | controller/channel.go:1839-1917 | the remaining records are joined, written and read back, and exactly then within the keys when none strands an entry; out of range and the last key are refused |
| MultiKey.Channel.DeleteAutoDisabled | controller/channel.go:1919-1986 | the records that are not auto-disabled are joined, written and read back, exactly then within the keys when none strands an entry, and the deleted ones counted |
| MultiKey.Channel.Manage | controller/channel.go:1683-1986 | every request leaves the records and gives the answer of the operation on the record list, keeps statuses below the key count, tells exactly when times and reasons are below it too, and does not touch the status of the channel |
| MultiKey.Channel.FindKey | model/channel.go:680-691 | the first position of a key |
| MultiKey.Channel.HandleKeyUpdate | model/channel.go:680-730 | a report sets status, time and reason of the first matching key, or deletes only its status, and sets the status of the channel accordingly |
| MultiKey.Channel.HasEnabledKey | model/channel.go:732-743 | some key is enabled |
| MultiKey.Channel.UpdateStatus | model/channel.go:790-818 | the stored channel is left alone when it has the reported status itself, and handled otherwise |
| MultiKey.AnswerMeans | controller/channel.go:1683-1986 | an index outside the list and the only key are refused, each with its own answer; disabling all has nothing to do exactly when no key is enabled, and deleting the disabled ones exactly when none has status 3 |
| MultiKeyRuns.RequestMeans | controller/channel.go:1683-1837 | record by record: disabling one key sets status 2, enabling clears status, time and reason, enabling all clears all, and disabling all turns exactly the records of status 1 into status 2 |
| MultiKeyRuns.DeleteKeyMeans | controller/channel.go:1839-1917 | deleting a key that leaves no blank key at an end takes out its position and nothing else; an index out of range or the only key changes nothing |
| MultiKeyRuns.DeleteDisabledMeans | controller/channel.go:1919-1986 | from clean records, when some key is left and none at an end is blank, deleting the disabled keys keeps exactly the records whose status is not 3, in order |
| MultiKeyRuns.DisablingDoesNotProtect | controller/channel.go:1792-1986 | disabling all keys first does not change which keys a deletion of the auto-disabled ones keeps |
| MultiKeyRuns.CountEnabledIs | controller/channel.go:1806-1818 | the number reported by disabling all is the number of records of status 1 |
| MultiKeyRuns.ReportMeans | model/channel.go:680-730 | a report touches only the first record of its key: it stores status, time and reason, or deletes the status alone; the channel becomes 3 when no key is enabled, and 1 when a key is enabled |
| MultiKeyRuns.ReportOfNoKeyMeans | model/channel.go:680-818 | a report about a key the channel does not have changes nothing, unless its key is blank: then only the status of the channel |
| MultiKeyRuns.TagMeans | model/channel.go:821-837 | the last change by tag decides the status of the channel, and no key is touched |
| MultiKeyRuns.WrittenIff | model/channel.go:546-601 | fewer records than before are read back as written exactly when neither end of the key list is blank |
| MultiKeyRuns.ActsAsExpectedIff | controller/channel.go:1683-1986 | a request does to the stored channel what it is meant to do exactly when it leaves no blank key at an end |
| MultiKeyRuns.BlankKeyLosesStatus | controller/channel.go:665-673 | deleting the first of `a`, a blank key and `b` re-enables the disabled `b` and strands its time and reason beyond the keys |
| MultiKeyRuns.Perform | controller/channel.go:1683-1986 | the channel object after any run of requests, reports and changes by tag is the state after that run, and as tidy as that run leaves it |
| MultiKeyRuns.RunStaysTidyIff | controller/channel.go:1839-1986 | in every state of a run from a tidy channel all map positions are below the key count exactly when no deletion of the run strands an entry |
| MultiKeyRuns.SteadyStaysTidy | controller/channel.go:1839-1986 | which no deletion does that leaves no blank key at an end |
| MultiKeyRuns.EventMovesRecord | controller/channel.go:1863-1957 | after one event a surviving key is at its new position with its own record |
| MultiKeyRuns.EachKeyKeepsItsData | controller/channel.go:1683-1986 | over any run of requests, reports and changes by tag whose deletions leave no blank key at an end, each surviving key ends with exactly what its own history gives it |
| MultiKeyRuns.NoBlankIsSteady | controller/channel.go:665-673 | a channel without blank keys meets that condition in every run |
| MultiKeyRuns.RunKeepsOrder | controller/channel.go:1863-1957 | surviving keys keep their order |
| MultiKeyRuns.EveryKeyHasAnOrigin | controller/channel.go:1863-1957 | every key of the final list is one of the original keys |
| MultiKeyRuns.NeverEmpty | controller/channel.go:1896-1905 | no run empties the key list |
| MultiKeyRuns.StatusKeepsCleanIff | model/channel.go:680-730 | a report keeps enabled keys free of times and reasons exactly when it does not enable a key that has one |
| MultiKeyRuns.EventKeepsCleanIff | model/channel.go:790-818 | an event does so exactly when it is not such a report on a channel that is not enabled itself |
| MultiKeyRuns.RunStaysCleanIff | model/channel.go:680-818 | every state of a run of requests, reports and changes by tag is clean exactly when no event of the run is such a report |
| MultiKeyRuns.WithoutEnablingReportsClean | controller/channel.go:1683-1986 | in particular requests, and reports that only disable, keep a channel clean |
| MultiKeyRuns.DeleteDisabledOnce | controller/channel.go:1919-1986 | afterwards no key is auto-disabled, and a second call changes nothing |
| MultiKeyRuns.DeletingEverythingRevives | model/channel.go:549-594 | the auto-disabled keys are gone exactly when another key is left and no end of what is left is blank; when none is left all keys return, enabled |
| MultiKeyRuns.SurvivorsKeepRecords | controller/channel.go:1927-1957 | survivors keep their whole records exactly when no enabled key has a leftover time or reason |
| MultiKeyRuns.ReenablingLeavesTraces | model/channel.go:790-818 | disabling and re-enabling a key by reports keeps the channel clean exactly when it is enabled and has another enabled key, and then the second report is not stored |
| MultiKeyRuns.EnablingOneKeyIsNotStored | model/channel.go:758-797 | while the channel is enabled, a report that enables one key changes the cached copy and not the stored channel |
| MultiKeyRuns.RegrownCleanIff | model/channel.go:574-583 | after the key list was replaced by a shorter and then a longer one, the enabled keys are clean exactly when no time or reason was left at the positions in between |
| MultiKey.SeenKeys | controller/channel.go:1080-1087 | the set of trimmed existing keys |
| MultiKey.DedupKeys | controller/channel.go:1088-1098 | the loop keeps the new keys not seen yet, each once, in order |
| MultiKey.AppendKeys | controller/channel.go:1080-1102 | existing keys stay in front, unchanged, and exactly the new keys follow |
| MultiKey.NewKeysAre | controller/channel.go:1080-1102 | the appended keys are exactly the trimmed, non-blank new keys that no existing key trims to, each once, in their order |
| MultiKey.AppendingAgainAddsNothing | controller/channel.go:1080-1102 | appending the same keys a second time adds nothing |
| RatioSync.CollectModels | controller/ratio_sync.go:544-556 | the keys of every priced field of one data set |
| RatioSync.CheckModel | controller/ratio_sync.go:569-585 | a channel is distrusted for a model exactly when it sends 37.5 and 1 for it |
| RatioSync.TrustedMeans | controller/ratio_sync.go:569-585 | a channel that sends both ratios is distrusted exactly when they are within 0.000000001 of 37.5 and 1 |
| RatioSync.TrustedWithoutBoth | controller/ratio_sync.go:569-585 | a channel that does not send both is trusted |
| RatioSync.CompareChannel | controller/ratio_sync.go:605-628 | one turn of the inner loop computes the mark of the channel and whether it differs, or shows a value when there is no local one |
| RatioSync.Compare | controller/ratio_sync.go:594-653 | the entry of one model and field, and whether it goes into the first pass |
| RatioSync.CompareAll | controller/ratio_sync.go:593-654 | the first pass, in any iteration order |
| RatioSync.FindDiffering | controller/ratio_sync.go:656-665 | the channels that show a value of their own somewhere |
| RatioSync.DropAgreeing | controller/ratio_sync.go:668-674 | the entry without the channels that are not kept |
| RatioSync.Prune | controller/ratio_sync.go:667-693 | the second pass, deleting from the maps it walks |
| RatioSync.BuildDifferences | controller/ratio_sync.go:536-696 | the report is the same function of the inputs in every iteration order of the maps |
| RatioSync.DifferingChannels | controller/ratio_sync.go:656-665 | a channel that counts (the last of its name) survives the pruning exactly when it differs visibly from the local prices somewhere |
| RatioSync.ReportedIff | controller/ratio_sync.go:536-696 | for all inputs, equal channel names included, a pair is reported exactly when some channel differs there and some visibly differing channel that counts is not marked "same" there |
| RatioSync.FieldsAre | controller/ratio_sync.go:65-92 | the ten compared fields, of which all but the billing mode and expression are numeric |
| RatioSync.SuppliedMeans | controller/ratio_sync.go:107-132 | a value is compared as it is, except that an integer in a numeric field becomes the float of the same value |
| RatioSync.NumbersReported | controller/ratio_sync.go:48-63 | with one channel, two numbers are reported exactly when they are at least 0.000000001 apart, in either direction |
| RatioSync.StringsReported | controller/ratio_sync.go:605-628 | with one channel, two strings are reported exactly when they are not the same string, for an upstream value other than the word same |
| RatioSync.OtherKindsReported | controller/ratio_sync.go:605-628 | a visible value is reported when there is no local one or a local one of another kind |
| RatioSync.NothingReported | controller/ratio_sync.go:536-696 | a pair the only channel does not supply is not reported |
| RatioSync.CleanReportIsExact | controller/ratio_sync.go:536-696 | without nulls and literal "same" values a pair is reported if a channel that counts supplies a value not equal to the local one, and only if some channel does; with unique names exactly then |
| RatioSync.CleanDiffersSomewhere | controller/ratio_sync.go:656-665 | then the channels listed are exactly those that differ anywhere |
| RatioSync.EntryIsRight | controller/ratio_sync.go:605-674 | a reported entry lists exactly the channels that differ somewhere, each with its own value, "same" or nil, and its credibility |
| RatioSync.NoEmptyModel | controller/ratio_sync.go:690-692 | no model is left with an empty entry |
| RatioSync.HiddenDifferences | controller/ratio_sync.go:656-692 | channels whose differing values are all null or "same" produce an empty report |
| RatioSync.LiteralSameIsHidden | controller/ratio_sync.go:659-660 | a concrete difference that is not reported |
| RatioSync.OrderMattersIff | controller/ratio_sync.go:499-525 | two orders of the same channels give the same report if and only if for every name the channels that answer last show the same: both differ somewhere or neither does, with the same marks wherever some channel differs and the same credibility for every reported model |
| RatioSync.OrderOfChannelsIsIrrelevant | controller/ratio_sync.go:499-525 | the report does not depend on the order in which the channels answer, as long as the same channel of each name answers last |
| RatioSync.UniqueNamesSameWinners | controller/ratio_sync.go:246-249 | channels with unique names meet that condition in every order |
| RatioSync.LastAnswerShows | controller/ratio_sync.go:246-249 | of two channels of one name the report shows the price of the later one |
| RatioSync.EqualNamesDependOnOrder | controller/ratio_sync.go:246-249 | so two channels of one name with prices 2 and 3 give different reports in the two orders |
| ModelsDev.BuildCandidate | controller/ratio_sync.go:838-879 | a candidate exists exactly when the prices are finite and not negative and an output price does not come with a free input; it has the provider's own prices, the cache price only when that is finite and not negative |
| ModelsDev.GoodStep | controller/ratio_sync.go:881-893 | one more candidate from a later provider keeps the choice good although the price comparison is not transitive |
| ModelsDev.SelectIsGood | controller/ratio_sync.go:924-943 | the fold ends below every non-zero price plus epsilon, strictly below those of earlier providers, and on zero only if all are zero |
| ModelsDev.CheapestChosenIff | controller/ratio_sync.go:881-893 | the cheapest non-zero price is chosen if and only if the choice among the providers before it is none, free, or dearer by at least epsilon; otherwise that earlier choice stays, dearer by less than epsilon |
| ModelsDev.SettlesAtCheapest | controller/ratio_sync.go:922-943 | from the first cheapest candidate on the choice does not change any more |
| ModelsDev.SelectIsCheapest | controller/ratio_sync.go:903-905 | when no other non-zero price is within epsilon of the smallest, the smallest is chosen, at its first provider |
| ModelsDev.CheapestMayLose | controller/ratio_sync.go:888-890 | a later provider that is cheaper by less than epsilon is not chosen |
| ModelsDev.UnsortedProvidersDrift | controller/ratio_sync.go:891-892 | in descending provider order the tie-breaker ends more than epsilon above the cheapest |
| ModelsDev.SortKeys | controller/ratio_sync.go:915-919 | the ascending list of a map's keys |
| ModelsDev.AddProvider | controller/ratio_sync.go:928-943 | the inner loop is one step of every model's fold |
| ModelsDev.SelectCandidates | controller/ratio_sync.go:915-944 | the loops compute every model's fold over the sorted providers |
| ModelsDev.SelectedPrice | controller/ratio_sync.go:845-944 | a model has a price exactly when some provider makes a usable offer; the price is an offer, zero only if all are, and less than epsilon above every non-zero one |
| ModelsDev.SelectionIsDetermined | controller/ratio_sync.go:915-944 | the result does not depend on map iteration order |
| RateLimit.InMemoryRateLimiter.constructor | common/rate-limit.go:14-26 | the expiration in whole seconds, and a sweeper only for a positive duration |
| RateLimit.InMemoryRateLimiter.Request | common/rate-limit.go:45-70 | the answer and the new queue are those of the bounded-queue specification, other keys untouched |
| RateLimit.InMemoryRateLimiter.Sweep | common/rate-limit.go:28-43 | exactly the stale entries are deleted |
| RateLimit.RunCoupled | common/rate-limit.go:28-70 | in every run with sweeps anywhere the queue is the newest part of the unbounded log, and what it lacks cannot matter |
| RateLimit.ExactWhenSupported | common/rate-limit.go:45-70 | every answer agrees with the unbounded log |
| RateLimit.WrongWhenUnsupported | common/constants.go:198-199 | an unsupported limit has a run with a wrong answer |
| RateLimit.ExactIffSupported | common/constants.go:198-199 | all answers in all possible runs agree if and only if each limit is at least 1 and, when the sweeper runs, its duration is at most expiration plus one |
| RateLimit.AdmittedIsLog | common/rate-limit.go:45-70 | the limiter admits exactly what the log specification admits |
| RateLimit.AdmittedIff | common/rate-limit.go:45-70 | in every possible run under a supported limit a request is admitted exactly when fewer than the maximum were admitted before or the oldest of the last maximum is at least the duration old |
| RateLimit.SweptMeans | common/rate-limit.go:28-43 | a sweep keeps a queue whole exactly when its newest entry is not older than the expiration |
| RateLimit.WindowNeverExceeded | common/rate-limit.go:45-70 | any max+1 admitted requests of a key span at least the duration |
| DiskCacheConfig.DiskCache.IncrementDiskFiles | common/disk_cache_config.go:109-112 | one more file and its bytes |
| DiskCacheConfig.DiskCache.DecrementDiskFiles | common/disk_cache_config.go:115-122 | one file and its bytes less, neither below zero |
| DiskCacheConfig.DiskCache.IncrementMemoryBuffers | common/disk_cache_config.go:125-128 | one more buffer and its bytes |
| DiskCacheConfig.DiskCache.DecrementMemoryBuffers | common/disk_cache_config.go:131-134 | one buffer and its bytes less, not clamped |
| DiskCacheConfig.MegabytesMean | common/disk_cache_config.go:51-62 | the configured sizes count megabytes of 1048576 bytes |
| BodySessions.StepAlike | common/body_storage.go:62-283 | one call answers alike on memory and disk exactly when it is not a telling one |
| BodySessions.IndistinguishableIff | common/body_storage.go:62-283 | any sequence of calls answers alike exactly when no call is an empty read at the end or uses a closed reader |
| BodySessions.Indistinguishable | common/body_storage.go:14-32 | without empty reads and without using a reader after closing it, memory and disk storages cannot be told apart |
| BodySessions.EmptyReadTells | common/body_storage.go:62-69 | an empty read at the end of any body is such a call |
| BodySessions.ReadMeans | common/body_storage.go:62-203 | a read of a non-empty buffer delivers as many bytes as there are, up to its size, and moves the cursor past them; at or beyond the end it reports the end and stays |
| BodySessions.ReaderReadMeans | common/body_storage.go:98-203 | and so does a read of an open reader, at its own cursor |
| BodySessions.SeekMeans | common/body_storage.go:71-212 | a seek moves the cursor to the offset from the start, the cursor or the end, and fails without moving when that is negative or no int64 |
| BodySessions.OtherCallsMean | common/body_storage.go:80-283 | size, bytes, a new reader and closing do what their names say; reading and seeking a closed storage fails |
| BodySessions.StorageDelivers | common/body_storage.go:225-257 | without seeks the storage itself delivers the body from its cursor on, without gaps, and ends behind what it delivered |
| BodyStorage.CallMemory | common/body_storage.go:62-112 | one call on a memory storage or a reader it opened is one step of the session |
| BodyStorage.DriveMemory | common/body_storage.go:62-112 | any sequence of calls on a memory storage and its readers gives the outputs of the session |
| BodyStorage.CallDisk | common/body_storage.go:196-283 | one call on a disk storage or a reader it opened is one step of the session |
| BodyStorage.DriveDisk | common/body_storage.go:196-283 | any sequence of calls on a disk storage and its readers gives the outputs of the session |
| BodySessions.RunAdvances | common/body_storage.go:98-108 | over any run a reader's cursor moves by exactly the bytes it delivered |
| BodySessions.ReaderDeliversBody | common/body_storage.go:24-30 | a reader delivers the body from its start without gaps whatever else happens, Close of the storage included; it reports the end exactly when everything was delivered |
| BodySessions.OnlyReadAndSeekMove | common/body_storage.go:225-257 | the body never changes, only Read and Seek move the storage's cursor, and a closed storage refuses Bytes and NewReader |
| BodyStorage.BytesReader.Read | common/body_storage.go:62-69 | delivers the bytes at the cursor, or the end even for an empty buffer |
| BodyStorage.File.Read | common/body_storage.go:196-203 | delivers the bytes at the cursor, an empty buffer first |
| BodyStorage.MemoryStorage.constructor | common/body_storage.go:52-60 | a new session on the data, counted once |
| BodyStorage.MemoryStorage.Read | common/body_storage.go:62-69 | the session's Read |
| BodyStorage.MemoryStorage.Seek | common/body_storage.go:71-78 | the session's Seek |
| BodyStorage.MemoryStorage.GetBytes | common/body_storage.go:89-96 | the session's Bytes |
| BodyStorage.MemoryStorage.NewReader | common/body_storage.go:98-108 | a fresh reader at the start of the data, unless closed |
| BodyStorage.MemoryStorage.Close | common/body_storage.go:80-87 | closes, and takes the counters back only the first time |
| BodyStorage.DiskStorage.Read | common/body_storage.go:196-203 | the session's Read |
| BodyStorage.DiskStorage.Seek | common/body_storage.go:205-212 | the session's Seek |
| BodyStorage.DiskStorage.GetBytes | common/body_storage.go:225-257 | seeking away, reading until full and seeking back delivers the whole body and leaves the cursor where it was |
| BodyStorage.DiskStorage.NewReader | common/body_storage.go:259-275 | a fresh descriptor at the start of the cache file, unless closed or the file is gone |
| BodyStorage.DiskStorage.Close | common/body_storage.go:214-223 | closes, unlinks the file and takes the counters back only the first time |
| BodyStorage.NewDiskStorage | common/body_storage.go:127-157 | a storage of the data with its file and its count, or no file and no count when the disk fails |
| BodyStorage.NewDiskStorageFromReader | common/body_storage.go:159-194 | the same for a limited stream, which is rejected without a trace when it is too long |
| BodyStorage.CreateBodyStorage | common/body_storage.go:286-304 | the storage holds the data at cursor 0; it is on disk exactly when enabled, large enough, available and not failing |
| BodyStorage.CreateBodyStorageFromReader | common/body_storage.go:307-348 | result, counters and files are those of the stream outcome; on rejection the files are as before |
| BodyStorage.UsesDiskMeans | common/disk_cache_config.go:170-178 | a body goes to disk exactly when the cache is on, the body at least the threshold in megabytes, and the bytes on disk with it at most the maximum |
| BodyStorage.CreatedMeans | common/body_storage.go:286-304 | one creation adds one file or one buffer and its bytes, and no hit |
| BodyStorage.FromReaderMeans | common/body_storage.go:307-348 | below the MaxInt64 limit a stream is rejected for the disk, rejected as too large, or stored whole on the medium its length asks for, with one file or buffer, its bytes and one hit counted |
| BodyStorage.StoredIffItFits | common/body_storage.go:307-348 | on both paths a stream is stored exactly when it has at most maxBytes bytes or the limit is MaxInt64; else it is too large and the counters stay |
| BodyStorage.StoredIsTheStream | common/body_storage.go:165-170 | what is stored is the whole stream exactly when the limit is not MaxInt64 or the stream is empty |
| BodyStorage.MaxInt64StoresNothing | common/body_storage.go:328-334 | under that limit a stream of one byte is stored as nothing |
| BodyStorage.ClampNeverFires | common/disk_cache_config.go:115-122 | closing an open storage never meets the clamp at zero |
| BodyStorage.EventConserves | common/body_storage.go:286-348 | every creation, failed or not, and every close, repeated or not, keeps the counters exact |
| BodyStorage.RunConserves | common/disk_cache_config.go:109-134 | in every run the counters equal the number and total size of the open storages of each kind |
| BodyStorage.LeavesLimitIff | common/disk_cache_config.go:170-178 | one event leaves the disk maximum exactly when a stream goes to disk by its declared length and is longer than what is left |
| BodyStorage.RunWithinLimitIff | common/disk_cache_config.go:170-178 | every state of a run is within the maximum exactly when no event of the run is such a stream |
| BodyStorage.HonestRunsStayWithinLimit | common/disk_cache_config.go:170-178 | sequential creations never exceed the disk maximum when no stream is longer than declared |
| BodyStorage.UnderdeclaredStreamExceeds | common/body_storage.go:311-315 | a stream longer than declared can exceed it |
| QuotaMath.LeadingBounds | common/quota_math.go:160-162 | the leading 53 bits of a number and the power of two that scales them |
| QuotaMath.NearestBounds | common/quota_math.go:160-162 | rounding to 53 bits is exact up to 2^53 and stays at or above 2^53 beyond |
| QuotaMath.ThroughFloat | common/quota_math.go:173-175 | an integer passes through float64 unchanged below 2^53 in magnitude and otherwise stays outside |
| QuotaMath.RoundIsNearest | common/quota_math.go:140-144 | half-away-from-zero rounding is the nearest integer, odd-symmetric, with ties going outward |
| QuotaMath.RoundConversion | common/quota_math.go:86-144 | QuotaRound is the rounded value limited to the range and reports a clamp exactly when it is out of range |
| QuotaMath.DecimalConversion | common/quota_math.go:159-163 | so is QuotaFromDecimal, although it passes through float64 |
| QuotaMath.TruncatingConversion | common/quota_math.go:86-122 | QuotaFromFloat is the truncated value limited to the range; its clamp is exact except strictly within one unit outside a bound |
| QuotaMath.NeedlessClamp | common/quota_math.go:86-122 | half a unit above the maximum a clamp is reported although the truncated value fits |
| QuotaMath.TruncateIs | common/quota_math.go:95-96 | truncation goes to the next integer towards zero |
| QuotaMath.SpecialValues | common/quota_math.go:86-122 | NaN becomes 0 and the infinities the bounds, each with its own report |
| QuotaMath.ConversionsAreMonotone | common/quota_math.go:112-163 | every conversion is total, in range and monotone |
| QuotaMath.WalletIsExact | common/quota_math.go:172-175 | a wallet amount is accepted exactly when its rounding is at most 2^53-1 in magnitude, and is that rounding |
| QuotaMath.WalletBoundIsTight | common/quota_math.go:172-175 | the bound cannot be raised: 2^53 and 2^53+1 are the same float64 |
| QuotaMath.ChargeIsMonotone | controller/channel-test.go:543-555 | more tokens never cost less |
| QuotaMath.ChargeRange | controller/channel-test.go:547-551 | a ratio-priced test costs between 1 and the maximum exactly when the ratio is not zero |
| QuotaMath.ChargeError | controller/channel-test.go:545-547 | without saturation the charge before the minimum rule is within half a ratio plus one half of the exact product |
| QuotaMath.ChargeNearProduct | controller/channel-test.go:545-552 | without saturation a charge above 1 is within half a ratio plus one half of the exact product, and a product more than half a ratio plus one and a half gives such a charge |
| QuotaMath.MinimumCharge | controller/channel-test.go:547-551 | the charge is 1 exactly when the rounded product is at most 1 and the ratio is not zero or the product is 1, is the rounded product above 1, and is 0 for ratio 0 |
| QuotaMath.WholeRatioCharge | controller/channel-test.go:543-552 | for whole ratios in range the charge is exactly the product, or 1 for a zero product with a ratio |
| QuotaMath.ChargeExample | controller/channel-test.go:543-552 | 1000 prompt and 500 completion tokens with ratios 1 and 2 cost 2000 |
| QuotaMath.FixedPriceCharge | controller/channel-test.go:554 | with a fixed price the charge is the price times 500000 without its fraction, and the nearer bound outside the range |
| OggScan.MaxGranuleIsMaximum | common/audio.go:229-232 | the running maximum is the largest signed granule position, or 0 |
| OggScan.PageSize | common/audio.go:241-245 | the loop adds up the segment table |
| OggScan.CapturedIs | common/audio.go:221-227 | a page is captured exactly at the bytes 79, 103, 103, 83 |
| OggScan.UnsignedIs | common/audio.go:229 | the granule position has its lowest byte first |
| OggScan.SignedIs | common/audio.go:229 | and is read as a signed 64-bit number |
| OggScan.TruncatedPage | common/audio.go:229-248 | a page that is cut off behind its header, or after which no other header fits, still counts and is the last one |
| OggScan.ShortRest | common/audio.go:209-217 | fewer than 27 bytes hold no page |
| OggScan.GetOpusDuration | common/audio.go:196-254 | on every input the scanner, although it seeks back, terminates with the maximum over the visited pages divided by 48000 |
| OggScan.LittleEndianRoundTrip | common/audio.go:229 | reading a little-endian encoding gives the number back |
| OggScan.EncodedAt | common/audio.go:221-245 | at the start of an encoded page the scanner reads its granule position and skips exactly the page |
| OggScan.SkipJunk | common/audio.go:221-227 | positions without the capture pattern are passed one byte at a time |
| OggScan.JunkCapturesNothing | common/audio.go:221-227 | junk without "OggS" does not form the pattern with what follows it |
| OggScan.ScanFindsPages | common/audio.go:203-249 | from any chunk on the scanner visits exactly the remaining page starts |
| OggScan.ScannerVisitsExactlyThePages | common/audio.go:203-249 | on pages with junk between them it visits exactly the page starts |
| OggScan.DurationIsLargestGranule | common/audio.go:251-253 | there the duration is the largest granule position of the pages, or 0 |

## Left out

- What one channel test does (HTTP, adaptors, tiered billing): a function from channel to summary.
- The two nil tests of the worker pool (no context, no report function): the pool always has both.
- Panics inside a channel test, and a channel test that never returns.
- The tiered branch of the channel-test charge, which is settled in another package.
- Rounding inside float64 products and sums of the charge: prices and token counts are real numbers there.
- Database errors, cache refresh and audit logs of the key manager; the JSON array format of the key field; the
  difference between a nil and an empty map.
- Listing key states with pagination, which only reads.
- The cached copy of a channel, which handles every report, apart from `MultiKeyRuns.EnablingOneKeyIsNotStored`;
  the other info and abilities a report updates.
- MultiKeyRuns.EachKeyKeepsItsData: a run with a deletion that leaves a blank key at an end is excluded, because there
  the keys no longer fit their entries (`ActsAsExpectedIff`).
- UpstreamModels.SelectionsCompose: chosen additions with commas are excluded, because there it fails
  (`CommaSelectionsDiffer`).
- UpstreamModels.RunsStayConsistent: names with commas are excluded; `RunConsistentIff` says exactly when it holds
  with them.
- UpstreamModels.Channel.CheckAndPersist: errors of storing the settings and the abilities are not modelled, nor those
  of `UpstreamModels.Channel.ApplyUpdates`; storing does not fail here.
- Fetching upstream models and notification texts; regular-expression matching is a parameter.
- The trimming of a redirect mapping before it is used: the mapping is taken as normalized.
- Edits of the model list by an operator between detections.
- HTTP fetching and JSON decoding of upstream prices, and the conversion of OpenRouter prices; the report starts
  from decoded values, with float64 as real numbers and nested JSON values excluded.
- ModelsDev.SelectCandidates: stops at the selected candidates; the final scaling to ratios and the errors for an
  empty catalogue are not part of it.
- The Redis limiter, and the first-call initialisation of the in-memory one.
- Cleaning up old cache files, resetting or resynchronising the counters: they change them from outside.
- Two requests checking the disk maximum at the same time: creations happen one after the other here.
- Short reads and writes of the file system and a single read of more than 1 GiB; seek modes other than start,
  current and end; a configured size in megabytes so large that its byte count overflows.
- The caller's writes into a slice that `Bytes` of a memory storage returned, which shares the storage's array.
- BodySessions.Indistinguishable: file errors after creation, and a cache file removed from outside while its
  storage is open, are excluded.
- Short reads in the Ogg scanner: a read delivers all that is left, up to its buffer.
- All other audio formats, and the wrap-around of a file position.
