# Verified model of the Seqlane action and adapter cores

This project models the parts of the repository whose correctness depends on the interplay
of several functions, and proves what every run of them keeps.  Each part has a
specification written as functions over values, lemmas about it for all inputs or all runs,
and, where the code changes things in place, a class or a method with loops that is proved
to do what the specification says.

| part | modules |
|---|---|
| conflict-handler globs, their overlap, and routing of conflicts | `Globs`, `GlobSchemas`, `GlobMeaning`, `GlobSegments`, `GlobOverlap`, `GlobSafety`, `ConflictRouting`, `RoutingMeaning` |
| newest comments from several paged sources | `NewestFirst`, `Interleaving`, `CommentPaging`, `EarlyReading` |
| bounded event recorder and run metrics | `Retention`, `RecorderOutput`, `EventRecorder`, `RunMetrics`, `MetricsMeaning`, `MetricsTotals`, `RecorderMeaning`, `SkillCounting`, `RecorderContents`, `RecorderTransparency`, `RecordedRun` |
| Codex connection, session events and turns | `Framing`, `CodexConnection`, `ConnectionFraming`, `ConnectionSettlement`, `ConnectionIgnoring`, `ConnectionEffects`, `CodexTransport`, `SessionEvents`, `SessionInvariant`, `SessionDelivery`, `SessionFailures`, `SessionDispatcher`, `TurnAssembly`, `TurnFailures`, `TurnTracker` |
| plans and composition of workflows | `Bindings`, `NodeIds`, `Plans`, `PlanNodes`, `PlanOrder`, `PlanBuilder`, `Composition`, `WorkflowLinker` |
| merge-conflict resolution protocol | `ResolutionTrace`, `AttemptOrder`, `ResolutionController` |
| runner supervision, ACP tool calls and their spans | `RunnerOutcome`, `RunnerSupervision`, `ToolLifecycle`, `ToolSpans`, `AcpTools` |
| dotted input, chunked bodies, redaction | `DottedInput`, `ChunkedBody`, `Redaction` |

`Wrappers`, `Texts` and `OrderedMaps` are shared helpers.  `dafny verify dfyconfig.toml`
verifies everything.

A state machine is a datatype with a `Step` and a `Run` over a sequence of inputs; a main
result is a lemma about `Run` for every sequence.  Classes show their state as such a value
(`View`), and each of their methods promises that the new view is the step of the old one.
Where a promise of the code holds only under a condition, the condition is stated, and a
lemma with a concrete input shows that it is needed.

Findings about the code, kept as they are, each with the condition under which it behaves:

- The overlap search calls disjoint some globs that share a path when `**` is glued to other
  characters or a class takes `/`, so that an accepted policy can refuse a conflict later.
  On the paths and rules that the schemas admit, it is right about a pattern and all aligned
  rules exactly when the pattern covers, segment by segment, every path it matches; for paths
  whose quoted form is no glob of the schema, as with unbalanced brackets, covering them is
  enough, and covering them loosely is necessary (`GlobSafety.SafeExactly`,
  `GlobSafety.CoveringIsSafe`, `GlobSafety.SafeCoversLoosely`).
- A response to the oldest of 1024 ignored requests fails the connection, because the lookup
  makes room before it looks (`ConnectionIgnoring.LateResponseExactly`).
- Redacting one secret can produce another.  A secret is safe from this exactly when it fits
  nowhere on the marker (`Redaction.RedactedExactly`).
- When sources are not in descending order, stopping early can miss newer comments, with a tie
  in time already.  It never does, wherever the pages are cut and whatever the limit, exactly
  when the listings are not interleaved (`Interleaving.EarlyReadingExactly`).

Two conditions concern the interface of a part rather than what reaches it in the repository.
The recorder loses a skill name of more than 256 characters, which the adapter that reports
skills drops before (`RecorderTransparency.RecorderIsTransparent`); and the reducer of tool
calls would report progress of a call without a start if it were fed on after a limit has
thrown, which its caller does not do (`ToolLifecycle.StartIsMissingExactly`,
`ToolLifecycle.ReportedCallsStart`).

## Model

| member | source | states |
|---|---|---|
| `Globs.ReadTokens` | libs/action-merge-conflict-resolution/src/generated-file-policy.ts:87-95 | The loop over a glob reads it into exactly the tokens of its specification: `*`, `**`, `**/`, `?`, classes and literals, each consuming the characters the code consumes. |
| `Globs.LiteralMatchesItself` | libs/action-merge-conflict-resolution/src/generated-file-policy.ts:111-115 | A segment without glob characters matches itself and nothing else, which is what the literal shortcut of the overlap search relies on. |
| `Globs.MatcherCache.Test` | libs/action-merge-conflict-resolution/src/generated-file-policy.ts:97-109 | A cached matcher answers as a freshly compiled one does, and the cache gains that pattern and nothing else; what a compiled pattern accepts is said by the rows of `GlobMeaning`. |
| `GlobMeaning.AcceptsExactly` | libs/action-merge-conflict-resolution/src/generated-file-policy.ts:49-95 | A token list accepts a text if and only if the text is one piece after the other, one for each token: no `/` for `*`, one line for `**`, nothing or one line and a `/` for `**/`, one character but `/` for `?`, one inside or outside its ranges, ends included, for a class, and itself for a literal. |
| `GlobMeaning.WildcardsMatch` | libs/action-merge-conflict-resolution/src/generated-file-policy.ts:49-57 | `*` matches exactly the texts without `/`, `**` exactly those of one line, `?` exactly single characters other than `/`. |
| `GlobMeaning.LiteralThen` | libs/action-merge-conflict-resolution/src/generated-file-policy.ts:59-95 | An ordinary character, and the rest of the pattern, match that character followed by what the rest matches. |
| `GlobMeaning.AnyThen` | libs/action-merge-conflict-resolution/src/generated-file-policy.ts:59-95 | The same for `?` and any character but `/`. |
| `GlobMeaning.StarThen` | libs/action-merge-conflict-resolution/src/generated-file-policy.ts:49-57 | `*` and the rest match any text without `/` followed by what the rest matches. |
| `GlobMeaning.DeepThen` | libs/action-merge-conflict-resolution/src/generated-file-policy.ts:49-57 | `**` and the rest match any text of one line followed by what the rest matches. |
| `GlobMeaning.DeepSlashThen` | libs/action-merge-conflict-resolution/src/generated-file-policy.ts:49-57 | `**/` and the rest match what the rest matches, by itself or after a text of one line and a `/`. |
| `GlobMeaning.ClassThen` | libs/action-merge-conflict-resolution/src/generated-file-policy.ts:59-74 | A bracketed class matches one of its characters and ranges, ends included, or after `!` or `^` any other character. |
| `GlobMeaning.BracketThen` | libs/action-merge-conflict-resolution/src/generated-file-policy.ts:59-74 | A bracket that begins no class, because nothing closes it or what it holds may not be in one, stands for itself. |
| `GlobMeaning.RangeCompiles` | libs/action-merge-conflict-resolution/src/generated-file-policy.ts:66-109 | A range compiles if and only if it does not run backwards. |
| `GlobSegments.AlignedMatchesBySegments` | libs/action-merge-conflict-resolution/src/generated-file-policy.ts:49-109 | For a pattern whose `**` is always a whole segment and whose classes do not take `/`, the character-level matcher and the segment-by-segment reading of the pattern accept the same paths, for every path. |
| `GlobSegments.GlueAccepts` | libs/action-merge-conflict-resolution/src/generated-file-policy.ts:49-95 | Segment by segment, the token list put together from aligned segments accepts a joined path exactly when the segments accept its segments; this is the step from one reading to the other. |
| `GlobOverlap.PatternsMayOverlap` | libs/action-merge-conflict-resolution/src/generated-file-policy.ts:156-184 | The worklist over pairs of segment positions terminates, and answers true exactly when the pair of pattern ends can be reached from the pair of starts. |
| `GlobOverlap.SearchExactly` | libs/action-merge-conflict-resolution/src/generated-file-policy.ts:117-184 | For any two patterns the search says that they may overlap if and only if their segments can be laid side by side: a `**` beside any number of segments, and any other beside an equal one, beside the literal it matches or that matches it, or two that are not literal beside each other. |
| `GlobOverlap.EndBehindPending` | libs/action-merge-conflict-resolution/src/generated-file-policy.ts:156-184 | While the search runs, the end is reachable from a visited pair only through a pair still on the worklist, so an empty worklist decides the question. |
| `GlobOverlap.CommonPathReachesEnd` | libs/action-merge-conflict-resolution/src/generated-file-policy.ts:117-154 | Any path that both rest patterns cover, segment by segment as the search compares segments, walks the pair of positions to the end by the moves the code offers. |
| `GlobOverlap.CoveredPathIsFound` | libs/action-merge-conflict-resolution/src/generated-file-policy.ts:117-184 | For any two patterns, aligned or not: if both cover a path segment by segment, the search says that they may overlap. |
| `GlobOverlap.OverlapSearchIsSound` | libs/action-merge-conflict-resolution/src/generated-file-policy.ts:117-184 | So for aligned patterns, which cover what they match: if the search says that two globs cannot overlap, no path matches both, whatever the path. |
| `GlobSafety.SearchOnOnePath` | libs/action-merge-conflict-resolution/src/generated-file-policy.ts:117-184 | For every pattern and every path: asked about the pattern and the rule for that path alone, with its glob characters quoted, the search answers exactly whether the pattern covers the path. |
| `GlobSafety.SearchOnLiteralRule` | libs/action-merge-conflict-resolution/src/generated-file-policy.ts:117-184 | For a path without glob characters, which is a rule for itself, the search answers exactly whether the pattern covers it. |
| `GlobSafety.LiteralRuleExactly` | libs/action-merge-conflict-resolution/src/generated-file-policy.ts:117-184 | The search is wrong about a pattern and a literal rule if and only if the pattern matches the path and does not cover it. |
| `GlobSafety.SafeExactly` | libs/action-merge-conflict-resolution/src/generated-file-policy.ts:117-184 | For every pattern, aligned or not: on the paths that the schema admits together with their quoted form as a glob, the search misses none that the pattern shares with an admitted aligned rule, if and only if the pattern covers those it matches. |
| `GlobSafety.QuotableExactly` | libs/action-merge-conflict-resolution/src/contracts.ts:55-87 | Those are the admitted paths with balanced brackets whose quoted form is not longer than 1024 characters. |
| `GlobSafety.CoveringIsSafe` | libs/action-merge-conflict-resolution/src/generated-file-policy.ts:117-184 | On all paths: a pattern that covers what it matches is safe with every aligned rule. |
| `GlobSafety.SafeCoversLoosely` | libs/action-merge-conflict-resolution/src/generated-file-policy.ts:117-184 | On all admitted paths, those with unbalanced brackets included: a pattern that is safe with every admitted aligned rule covers what it matches, if a literal segment need only agree with the path as far as a mask tells; this for every way to mask glob characters that leaves the path short enough. |
| `GlobSafety.SafeCoversBlurred` | libs/action-merge-conflict-resolution/src/generated-file-policy.ts:117-184 | With a `?` as the mask, which makes no path longer: but for the glob characters of the path. |
| `GlobSafety.SafeCoversSharply` | libs/action-merge-conflict-resolution/src/generated-file-policy.ts:117-184 | With a range as the mask of a bracket: but for a backslash, `Z` or `^` in the place of a bracket. |
| `GlobSafety.SearchOnMaskedPath` | libs/action-merge-conflict-resolution/src/generated-file-policy.ts:117-184 | Asked about a pattern and a masked path, the search answers exactly whether the pattern covers the path in that sense. |
| `GlobSafety.MaskedIsRule` | libs/action-merge-conflict-resolution/src/contracts.ts:55-87 | A masked path that is short enough is an admitted and aligned glob, which matches the path. |
| `GlobSchemas.RewriteIsAdmitted` | libs/action-merge-conflict-resolution/src/contracts.ts:55-87 | Replacing glob characters by glob characters keeps a path within its schema, as long as it is not too long. |
| `GlobSchemas.CheckBalanced` | libs/action-merge-conflict-resolution/src/contracts.ts:72-86 | The loop over a glob accepts exactly balanced brackets. |
| `GlobSafety.AlignedCoversItsMatches` | libs/action-merge-conflict-resolution/src/generated-file-policy.ts:49-109 | Aligned patterns cover what they match and are safe, on any paths. |
| `GlobSafety.UnalignedButSafe` | libs/action-merge-conflict-resolution/src/generated-file-policy.ts:49-184 | So does the unaligned `**/**a` on all admitted paths. |
| `GlobSafety.TrailingClassIsSafe` | libs/action-merge-conflict-resolution/src/generated-file-policy.ts:59-184 | So does `a[!x]`, although its class takes `/`, because no admitted path ends in one. |
| `GlobSafety.EscapeMatchesItself` | libs/action-merge-conflict-resolution/src/generated-file-policy.ts:59-95 | A path with its glob characters quoted is a pattern that matches this path and nothing else. |
| `GlobSafety.SearchIsSymmetric` | libs/action-merge-conflict-resolution/src/generated-file-policy.ts:156-184 | The order of two rules makes no difference to the search. |
| `GlobOverlap.GluedDeepEscapes` | libs/action-merge-conflict-resolution/src/generated-file-policy.ts:49-57 | Other patterns can be missed: `a**b` and `ax/yb` match a common path, and the search calls them disjoint. |
| `GlobOverlap.SlashClassEscapes` | libs/action-merge-conflict-resolution/src/generated-file-policy.ts:59-74 | So can a class that takes `/`: `a[!x]b` and `a/b`. |
| `GlobOverlap.OverlapsItself` | libs/action-merge-conflict-resolution/src/generated-file-policy.ts:156-184 | Every pattern overlaps itself, so no accepted policy has a glob twice. |
| `ConflictRouting.FirstBadGlob` | libs/action-merge-conflict-resolution/src/generated-file-policy.ts:186-190 | Finds a glob of a rule that does not compile exactly when there is one. |
| `ConflictRouting.FirstAmbiguity` | libs/action-merge-conflict-resolution/src/generated-file-policy.ts:191-211 | Finds the globs of an earlier and a later rule that may overlap exactly when there are such rules. |
| `ConflictRouting.AcceptPolicy` | libs/action-merge-conflict-resolution/src/generated-file-policy.ts:186-211 | A policy is accepted exactly when all its globs compile, none matches the lockfile and no two may overlap; each refusal names globs of its rules that are at fault. |
| `ConflictRouting.ClassifyConflicts` | libs/action-merge-conflict-resolution/src/policy.ts:133-183 | Fails exactly when some conflict cannot be routed, and otherwise gives the agent, lockfile and generated groups filtered from the input in its order. |
| `RoutingMeaning.RouteExactly` | libs/action-merge-conflict-resolution/src/policy.ts:133-183 | A path goes to the lockfile handler, to the agent, to a rule, or nowhere: told, each way in both directions, by whether it is `pnpm-lock.yaml` and how many globs match it. |
| `RoutingMeaning.ClassifiedExactly` | libs/action-merge-conflict-resolution/src/policy.ts:133-183 | The agent gets exactly the conflicts that no glob matches and that are not the lockfile, the lockfile handler those on the lockfile, each in the order of the input; there is a group for just those rules that match something, each once, with the conflicts its glob matches. |
| `ConflictRouting.NothingLostOrRepeated` | libs/action-merge-conflict-resolution/src/policy.ts:133-183 | The groups together hold every conflict exactly as often as the input does. |
| `ConflictRouting.CoveredPathIsRouted` | libs/action-merge-conflict-resolution/src/generated-file-policy.ts:186-237 | Under an accepted policy a path that every matching glob covers is not refused: it goes to a rule if and only if the glob of that rule matches it, and to the lockfile handler if and only if it is the lockfile. |
| `ConflictRouting.AcceptedPolicyRoutesEverything` | libs/action-merge-conflict-resolution/src/generated-file-policy.ts:186-237 | Under an accepted policy of aligned globs this holds of every path. |
| `ConflictRouting.UnalignedPolicyRefuses` | libs/action-merge-conflict-resolution/src/generated-file-policy.ts:186-237 | The policy with the globs `a**b` and `ax/yb`, which the schema admits, is accepted, and refuses the conflict on `ax/yb`. |
| `ConflictRouting.SlashClassPolicyRefuses` | libs/action-merge-conflict-resolution/src/generated-file-policy.ts:186-237 | The policy with the globs `a[!x]b` and `a/b`, which the schema admits, is accepted, and refuses the conflict on `a/b`. |
| `NewestFirst.SortedIsUnique` | libs/action-code-review/src/github-port.ts:152-162 | The comparison is a strict total order on comments with distinct identities: a set has one newest-first listing. |
| `NewestFirst.TopIsFinal` | libs/action-code-review/src/github-port.ts:176-228 | The threshold argument: once every unread comment is below the entry at `limit - 1`, the first `limit` entries are those of the full reading. |
| `NewestFirst.TopTimesAreFinal` | libs/action-code-review/src/github-port.ts:176-228 | The same for sources ordered by time only: the timestamps of the first `limit` places are final. |
| `NewestFirst.TopIsFinalExactly` | libs/action-code-review/src/github-port.ts:176-228 | The first `limit` entries are those of the full reading if and only if no unread comment passes the last of them. |
| `CommentPaging.StoreItems` | libs/action-code-review/src/github-port.ts:188-191 | Storing the items of a page adds its comments to the values read, and nothing else. |
| `CommentPaging.OrderedComments` | libs/action-code-review/src/github-port.ts:164-174 | Orders everything fetched from all sources newest first, each comment once. |
| `CommentPaging.ChooseSource` | libs/action-code-review/src/github-port.ts:200-218 | Picks a source that may still matter whenever there is one, and among those one whose last fetched comment is newest. |
| `CommentPaging.ReadEnough` | libs/action-code-review/src/github-port.ts:197-221 | When no source is eligible any more, every unread comment is below the boundary, or nothing is unread. |
| `CommentPaging.ReadNewestComments` | libs/action-code-review/src/github-port.ts:176-228 | Early stopping changes nothing: unless the listings of the sources are interleaved, and so whenever each is descending, the result is exactly the first `limit` comments of the sorted union of all pages of all sources; with sources ordered by time only, it has the same timestamps in any case. `truncated` is set if and only if more than `limit` exist or a source has a page left, and when it is not set the result is everything. The reading stops after finitely many pages, and after the first of each source when none is eligible then. |
| `Interleaving.EarlyReadingExactly` | libs/action-code-review/src/github-port.ts:176-228 | For listings with distinct identities: wherever the pages are cut and whatever the limit, a reading that may stop has the first `limit` comments of all, if and only if no source lists a comment below some `b`, and behind it one above `b`, with `b` listed before or in another source. |
| `Interleaving.StoppedIsRight` | libs/action-code-review/src/github-port.ts:197-228 | Whatever the identities: a reading of listings that are not interleaved, stopped below the boundary, has the first `limit` comments. |
| `EarlyReading.ReadInterleaved` | libs/action-code-review/src/github-port.ts:176-228 | Interleaved listings, cut into two pages there and read with the place of `b` as the limit, make the code return the wrong comments. |
| `Interleaving.DescendingIsNot` | libs/action-code-review/src/github-port.ts:176-228 | Listings in descending order are not interleaved. |
| `Interleaving.TiedPairIsNot` | libs/action-code-review/src/github-port.ts:152-228 | Neither are two comments of one time, in either order. |
| `CommentPaging.NoneEligibleStops` | libs/action-code-review/src/github-port.ts:197-221 | A source that is not eligible is one whose reading stops below the boundary. |
| `EarlyReading.TieAtBoundary` | libs/action-code-review/src/github-port.ts:152-228 | Two pages of one source with three comments of one time: after the first page nothing is eligible for a limit of one, although the greatest identity is on the second. |
| `EarlyReading.ReadTied` | libs/action-code-review/src/github-port.ts:176-228 | Reading those pages returns a comment of the right time that is not the newest one. |
| `Retention.RetentionIsOptimal` | libs/action-code-review/src/event-recorder.ts:66-89 | After any emissions and for every priority p, the number of retained entries of priority at least p is the smaller of the limit and the number emitted. |
| `Retention.RetainedIsContiguous` | libs/action-code-review/src/event-recorder.ts:66-89 | The retained entries of each priority are one contiguous run of those emitted with it; if the run stops short, the recorder was full of entries at least as important. |
| `Retention.StepOfRank` | libs/action-code-review/src/event-recorder.ts:66-89 | What one priority sees of an emission: the new entry joins at its end, or its oldest leaves, or nothing changes. |
| `RecorderMeaning.ImportantIsKept` | libs/action-code-review/src/event-recorder.ts:32-52 | At each level of importance, run ends above what invocations came to, that above creations and those above the rest, as many events are retained as were emitted, up to the limit. |
| `RecorderMeaning.EndOutlastsHeartbeat` | libs/action-code-review/src/event-recorder.ts:32-89 | With a limit of one, the end of a run and a heartbeat leave the end, in either order. |
| `RecorderMeaning.TruncatedExactly` | libs/action-code-review/src/event-recorder.ts:66-153 | The recorder says that it truncated if and only if more events than the limit competed, more than 40 invocations reported skills, or one of them more than 128 activities. |
| `RecorderMeaning.ProjectedExactly` | libs/action-code-review/src/metrics.ts:98-196 | Which events come through: exactly heartbeats, ends of the run and of invocations, outputs, creations of tasks and activities of skills, each with its own contents. |
| `EventRecorder.Bucket.Append` | libs/action-code-review/src/event-recorder.ts:115-126 | Linking a node at the tail of a bucket keeps the doubly linked list well-formed and appends it to its contents. |
| `EventRecorder.Bucket.Unlink` | libs/action-code-review/src/event-recorder.ts:155-164 | Unlinking a node anywhere in a bucket keeps the list well-formed and removes just that node. |
| `EventRecorder.FirstHeadIsLowest` | libs/action-code-review/src/event-recorder.ts:166-171 | The head of the first non-empty bucket is the oldest retained entry of the lowest priority. |
| `EventRecorder.BoundedEventRecorder.Retain` | libs/action-code-review/src/event-recorder.ts:115-126 | Adds the entry to the retained set and keeps the four linked buckets a partition of it in sequence order. |
| `EventRecorder.BoundedEventRecorder.LowestRetained` | libs/action-code-review/src/event-recorder.ts:166-171 | Answers with the retained entry of lowest priority that is oldest, or with nothing when nothing is retained. |
| `EventRecorder.BoundedEventRecorder.Remove` | libs/action-code-review/src/event-recorder.ts:155-164 | Removes exactly the given retained entry, wherever it is in its bucket, and keeps the partition. |
| `EventRecorder.BoundedEventRecorder.RecordSkillActivity` | libs/action-code-review/src/event-recorder.ts:128-153 | Summarises an activity under its invocation, within the limits on summaries and on activities, as the abstract step says. |
| `EventRecorder.BoundedEventRecorder.Emit` | libs/action-code-review/src/event-recorder.ts:66-89 | On the linked structure, emitting an event is one step of the abstract recorder about which optimality, contiguity and transparency are proved; whatever is retained was before or is new. |
| `RecordedRun.RecordRun` | libs/action-code-review/src/event-recorder.ts:54-89 | After any events the linked structure holds what the abstract recorder holds after their projections. |
| `RecordedRun.PublishedMetrics` | libs/action-code-review/src/event-recorder.ts:66-109 | The metrics derived from what a recorder returns after a run, unless it truncated, are those of all events exactly when every activity counted for a created and finished task has a name that fits. |
| `EventRecorder.BoundedEventRecorder.Events` | libs/action-code-review/src/event-recorder.ts:91-109 | Returns the retained events and the skill summaries in the order of their sequence numbers, and changes nothing. |
| `RunMetrics.DeriveRunMetrics` | libs/action-code-review/src/metrics.ts:198-390 | The four loops compute the derivation, summed token total included; `MetricsTotals.TotalsAreSums` says what its totals are, and the lemmas of `MetricsMeaning` what the rest of it is. |
| `MetricsTotals.TotalsAreSums` | libs/action-code-review/src/metrics.ts:230-298 | Each of the five token totals, and the cost, is the sum over the invocations that had an output, each once, of what the last output of that invocation says for that field, absent ones counting zero; the summed total is the sum of the five. |
| `MetricsMeaning.TasksAreFinishedCreations` | libs/action-code-review/src/metrics.ts:307-373 | There is one entry for each created task that has finished, in order of creation, with its last terminal state, the usage of its last output, the model and provider reported with it or else, when nothing was measured, selected for it, and its skills: those of the last summary, or each name of its first 128 activities once, with its count. |
| `MetricsMeaning.OutcomeIsLastEnd` | libs/action-code-review/src/metrics.ts:246-305 | The outcome is the last end of the run that was seen, and failure when there was none. |
| `MetricsMeaning.DurationIsGreatest` | libs/action-code-review/src/metrics.ts:374-377 | The duration is at least every heartbeat and every reported duration, and is one of them or zero. |
| `MetricsMeaning.LaterOutputReplaces` | libs/action-code-review/src/metrics.ts:257-298 | A later output of an invocation takes the place of the earlier one in all totals and in their sum; it is not added to it. What is taken and added is told field by field by `MetricsTotals.TotalsAreSums`. |
| `MetricsMeaning.NotedActivities` | libs/action-code-review/src/metrics.ts:260-266 | The activities counted for an invocation are the first 128 of distinct id, each under the name it was first seen with. |
| `MetricsMeaning.OnlyOutputsCount` | libs/action-code-review/src/metrics.ts:286-298 | No other event changes the totals. |
| `SkillCounting.TallyCounts` | libs/action-code-review/src/event-recorder.ts:174-183 | Counting names in one pass gives what the derivation gets by filtering once for each distinct name. |
| `RecorderContents.AllRetained` | libs/action-code-review/src/event-recorder.ts:66-89 | When nothing was truncated, every event other than an activity is retained, in order. |
| `RecorderContents.RetainedOrderKept` | libs/action-code-review/src/event-recorder.ts:91-109 | Sorting summaries in among the retained events does not change the order of those. |
| `SkillCounting.OnlyCoreMatters` | libs/action-code-review/src/metrics.ts:246-284 | Activities and summaries affect nothing but the skills of the derived metrics. |
| `RecorderTransparency.SkillsReadBack` | libs/action-code-review/src/event-recorder.ts:91-109 | For each invocation the skills read back from an untruncated recorder are those of all its activities, provided that they fit the schema of a summary, and absent otherwise. |
| `RecorderTransparency.RecorderIsTransparent` | libs/action-code-review/src/event-recorder.ts:66-109 | When nothing was truncated, the metrics derived from what the recorder returns equal the metrics of all emitted events if and only if every activity counted for a created and finished task was first seen under a name of 1 to 256 characters. |
| `RecorderTransparency.FittingNamesAreTransparent` | libs/action-code-review/src/event-recorder.ts:66-109 | In particular they are equal whenever all emitted names have that length. |
| `RecorderTransparency.LongNameIsLost` | libs/action-code-review/src/metrics.ts:237-269 | On the interface of the recorder the condition is needed: with a skill name over 256 characters three events suffice to make the two differ.  The adapter that reports skills drops such names. |
| `Framing.LinesConcat` | libs/codex/src/transport.ts:382-390 | Cutting a stream into lines in two goes gives the same lines and the same remainder as cutting it at once. |
| `Framing.LinesAreReceived` | libs/codex/src/transport.ts:369-390 | What was sent as lines, each ended with LF or CR LF, and a rest without LF is cut into those lines and that rest. |
| `ConnectionFraming.FramingIsChunkFree` | libs/codex/src/transport.ts:369-390 | However the text is cut into chunks: while the connection is open the lines consumed are exactly the terminated lines of the whole text, each less one trailing CR, and the buffer is the unfinished remainder; once it is not open they are a prefix. |
| `ConnectionFraming.SameTextSameLines` | libs/codex/src/transport.ts:369-390 | Two open connections that received the same text consumed the same lines. |
| `ConnectionSettlement.EveryRequestSettlesOnce` | libs/codex/src/transport.ts:207-505 | In every run ids are fresh, every issued request is either pending or settled exactly once, and none is pending once the connection has left the open state. |
| `ConnectionSettlement.SettledByItsOwnCause` | libs/codex/src/transport.ts:304-505 | A request is settled by its own response, its own abort, the failure of its own write or the failure or end of the connection, and by nothing else. |
| `ConnectionSettlement.SettlementsStand` | libs/codex/src/transport.ts:207-505 | A settlement is never changed or withdrawn. |
| `ConnectionEffects.ResponseSettles` | libs/codex/src/transport.ts:339-352 | A response to a pending request takes its id out of the pending ones, settles it with that answer, and changes nothing else. |
| `ConnectionEffects.AnsweredIsSettled` | libs/codex/src/transport.ts:304-390 | In every run, whatever the chunks: a request whose response was consumed while it was pending is settled with that answer. |
| `ConnectionEffects.AbortSettles` | libs/codex/src/transport.ts:442-452 | An abort of a pending request takes it out of the pending ones, settles it as aborted, and lists its response to be ignored for 60 seconds. |
| `ConnectionEffects.RequestIsIssued` | libs/codex/src/transport.ts:432-467 | A request gets the next id; it is settled at once if its signal has fired or its write throws, and is pending otherwise. |
| `ConnectionEffects.EndsReject` | libs/codex/src/transport.ts:257-504 | Failing, closing and the end of the process reject every pending request, each once and in order, and close the connection. |
| `ConnectionEffects.LineFailsExactly` | libs/codex/src/transport.ts:304-367 | A line fails an open connection if and only if it is over 4 MiB, malformed, a notice whose delivery throws, or a response that neither answers a pending request nor is ignored. |
| `ConnectionEffects.TooMuchFails` | libs/codex/src/transport.ts:369-381 | More than 8 MiB waiting fail the connection; a connection that is not open drops text. |
| `ConnectionEffects.BytesOf` | libs/codex/src/transport.ts:304-380 | Sizes are UTF-8: one byte below U+0080, two below U+0800, three below U+10000 and four from there. |
| `ConnectionEffects.EndFailsExactly` | libs/codex/src/transport.ts:391-401 | The end of the output fails the connection if and only if a line is left unfinished. |
| `ConnectionIgnoring.RecentAbortsAreIgnored` | libs/codex/src/transport.ts:235-255 | In every run the list of ignored responses stays within 1024 and holds every unexpired unanswered abort among the 1023 newest. |
| `ConnectionIgnoring.LateResponseIsHarmless` | libs/codex/src/transport.ts:328-338 | A late response to one of those aborts leaves the connection open. |
| `ConnectionIgnoring.PrunedExactly` | libs/codex/src/transport.ts:235-245 | Pruning keeps an entry if and only if it has not expired and fewer than 1023 unexpired entries are newer. |
| `ConnectionIgnoring.LateResponseExactly` | libs/codex/src/transport.ts:235-338 | In every run, a response to an aborted request leaves the connection open if and only if the abort is still listed, has not expired, and is not crowded out by 1023 newer ones. |
| `ConnectionIgnoring.OldestOfFullListFails` | libs/codex/src/transport.ts:235-255 | So in every run with 1024 unexpired entries a response to the oldest fails the connection, because looking it up prunes it first. |
| `ConnectionIgnoring.FullListIsReached` | libs/codex/src/transport.ts:235-467 | Such a run exists: 1024 requests whose signal has fired before, and then a response to the first. |
| `CodexTransport.Transport.OnData` | libs/codex/src/transport.ts:369-390 | The framing loop over the buffer is one step of the connection about which the above is proved. |
| `CodexTransport.Transport.Consume` | libs/codex/src/transport.ts:304-367 | Handling one line is one step: parse errors, unknown ids, ignored ids, settled requests and throwing listeners included. What the step does is said by `ConnectionEffects.ResponseSettles` and `ConnectionEffects.LineFailsExactly`. |
| `CodexTransport.Transport.SendRequest` | libs/codex/src/transport.ts:432-467 | Issuing a request, with an abort signal that may have fired already and a write that may throw, is one step. |
| `CodexTransport.Transport.OnAbort` | libs/codex/src/transport.ts:442-452 | Aborting a request settles it and puts it on the ignore list, as one step. |
| `CodexTransport.Transport.PruneIgnored` | libs/codex/src/transport.ts:235-245 | Drops expired entries, then the oldest until there is room. |
| `CodexTransport.Transport.CloseTransport` | libs/codex/src/transport.ts:486-504 | Closing rejects what is pending and leaves the open state, as one step. |
| `SessionEvents.KeyIdentifies` | libs/codex/src/session-events.ts:63-65 | The key of a turn determines thread and turn as long as no thread id contains the separator. |
| `SessionDelivery.ListenerSeesItsTurn` | libs/codex/src/session-events.ts:83-193 | For every interleaving of begin, bind, cancel, dispatch and dispose within the buffer limits, the listener of a turn was given exactly the events correlated to it that were dispatched after its begin and before its dispose, each once and in order. |
| `SessionDelivery.BindTimeIsInvisible` | libs/codex/src/session-events.ts:83-122 | Two runs that differ only in when turns are bound give the listener of a turn the same events. |
| `SessionEvents.BuffersStayBounded` | libs/codex/src/session-events.ts:177-193 | No buffer ever exceeds its limits of events and bytes, and its byte count is that of the events in it. |
| `SessionFailures.RefusedFails` | libs/codex/src/session-events.ts:124-193 | What one dispatch does, in full: it fails the session if and only if it is a request without thread or turn, or one with no listener and no start waiting for its thread, or an event that overfills such a start, by more than 2048 events or 8000000 bytes; otherwise it reaches its listener, or is buffered in just the starts that wait for its thread. |
| `SessionFailures.FailsExactly` | libs/codex/src/session-events.ts:83-193 | In every run the session has failed if and only if some dispatch of it was refused in that sense. |
| `SessionDispatcher.CodexSessionEventDispatcher.Bind` | libs/codex/src/session-events.ts:87-119 | Binding with its replay loop is one step of the dispatcher about which delivery is proved; it throws exactly when the turn has a listener. |
| `SessionDispatcher.CodexSessionEventDispatcher.Dispatch` | libs/codex/src/session-events.ts:124-175 | Dispatching, with its loops over the starts of a thread, is one step; it throws exactly when the step fails the connection. |
| `TurnAssembly.SettledIsFinal` | libs/codex/src/turn-tracker.ts:186-187 | Once a turn has settled, no event and no dispose changes anything. |
| `TurnAssembly.LimitsHold` | libs/codex/src/turn-tracker.ts:121-163 | Whatever arrives: at most 1024 items, each of at most 1000000 bytes and together at most 8000000, whose count is kept exactly; message bytes within the same; at most 2048 messages, as those not streamed are items. |
| `TurnAssembly.TurnIsFaithful` | libs/codex/src/turn-tracker.ts:186-256 | A turn that completes without a failure reports exactly its completed items followed by the final items not among them, the last usage, and the text of the last message that said anything. |
| `TurnAssembly.MissingFillsIn` | libs/codex/src/turn-tracker.ts:242-244 | Filling in leaves exactly the ids of the completed and the final items. |
| `TurnAssembly.ReportedIdsStayDistinct` | libs/codex/src/turn-tracker.ts:242-244 | Filling in repeats no id when the completed items have distinct ones. |
| `TurnFailures.FailsExactly` | libs/codex/src/turn-tracker.ts:121-256 | The failure promise is rejected if and only if something was wrong with a signal before the turn completed, or with its completion: a request that is no interaction, a throw of the reducer, or items or messages, counted from the signals, over their limits. |
| `TurnFailures.FirstTroubleIsReported` | libs/codex/src/turn-tracker.ts:186-256 | And it is rejected with the first of them. |
| `TurnFailures.InteractsExactly` | libs/codex/src/turn-tracker.ts:186-256 | The interaction promise is rejected if and only if an interaction arrived before the turn completed. |
| `TurnFailures.SettledExactly` | libs/codex/src/turn-tracker.ts:186-256 | A turn has settled if and only if its completion has arrived. |
| `TurnTracker.CodexTurnTracker.SelectAgentMessage` | libs/codex/src/turn-tracker.ts:176-185 | Completes the messages of the final items and finds the last one with a text, searching backwards. |
| `TurnTracker.CodexTurnTracker.OnMessage` | libs/codex/src/turn-tracker.ts:186-260 | Each event is one step of the assembly, errors and limits included. |
| `TurnTracker.TurnsAreRaceFree` | libs/codex/src/turn-tracker.ts:261-264 | The tracker of a turn ends up the same whether the turn id becomes known before or after the events of the turn: it is what the correlated events assemble to. |
| `Bindings.SerializeKeepsRefs` | libs/core/src/bindings.ts:156-177 | Serialising a binding loses, adds, alters and moves no reference, and makes none out of anything else. |
| `Bindings.ReferenceExactly` | libs/core/src/bindings.ts:9-177 | A value is read as a reference if and only if it is an object with just the type `ref`, a non-empty node and a path of strings. |
| `Bindings.SerializedIsSame` | libs/core/src/bindings.ts:156-177 | Serialising changes only the form of references; everything else stays, field by field and item by item. |
| `Bindings.LiteralsStay` | libs/core/src/bindings.ts:156-177 | A value without references serialises to itself. |
| `Bindings.CollectAddsRefs` | libs/core/src/bindings.ts:179-201 | Collecting adds exactly the nodes referred to, other than the workflow input, each at most once. |
| `NodeIds.LabelIdentifies` | libs/core/src/builder.ts:381-385 | Two node ids are equal only with the same prefix and count, whatever text the prefixes are. |
| `NodeIds.LabelReads` | libs/core/src/builder.ts:381-385 | A node id is its prefix, a colon and its count in decimal digits without leading zero. |
| `NodeIds.PartIsNoLabel` | libs/core/src/builder.ts:221-227 | The id of an attempt, its input or a choice arm is no node id. |
| `Plans.AllIdsDiffer` | libs/core/src/builder.ts:216-361 | In every plan all node ids are distinct, those of attempts, their inputs and choice arms included, and none is the id of the workflow input. |
| `PlanNodes.NodesAreNumbered` | libs/core/src/builder.ts:381-385 | In every plan a node is called by its kind, or by what it runs, and numbered from 1 among the nodes called so. |
| `PlanNodes.PlanIsMadeByCalls` | libs/core/src/builder.ts:163-361 | The nodes of a plan are, call by call, what that call asks for: what each runnable, session and input is, told by the call alone; the then and else arms are those of the call under ids ending so; a check has its checker and its gate lets the checked value through; a repeat has the attempt, conditions and validation it was given. |
| `PlanNodes.CallMakes` | libs/core/src/builder.ts:163-361 | The same of one call on any plan that has not failed. |
| `PlanOrder.InDependencies` | libs/core/src/builder.ts:163-214 | A runnable depends on exactly what its input refers to, what it was told to wait for, and, for a task, the session it resumes. |
| `PlanOrder.InRepeat` | libs/core/src/builder.ts:238-293 | A repeat depends on exactly what its initial input, its handles, its resumed session and its conditions need from outside of it. |
| `PlanOrder.InChoice` | libs/core/src/builder.ts:321-361 | A choice depends on exactly its condition and what makes either arm eligible; the sessions its arms resume are not among it. |
| `PlanOrder.PlanIsCovered` | libs/core/src/builder.ts:163-361 | In every plan each reference left in an input is the workflow input or a dependency of its node; in a repeat it may also be its own attempt or the input of that, and the dependencies of an attempt are those of its repeat. |
| `PlanOrder.PlanIsOrdered` | libs/core/src/builder.ts:400-516 | If calls use only handles returned by earlier calls, every node follows all it depends on: the node list is a topological order. |
| `PlanBuilder.CollectDependencies` | libs/core/src/bindings.ts:179-201 | The recursive walk that adds to its set gives the collected dependencies. |
| `PlanBuilder.BuildRunnableNode` | libs/core/src/builder.ts:163-214 | Builds the node and the dependencies that gate it. |
| `PlanBuilder.BuildRepeatNode` | libs/core/src/builder.ts:216-293 | Builds a repeat whose attempt has a local input. |
| `PlanBuilder.WorkflowPlanBuilder.Run` | libs/core/src/builder.ts:400-445 | One step of the plan, with the validation of the output of a task where it is asked for. |
| `PlanBuilder.WorkflowPlanBuilder.Validate` | libs/core/src/builder.ts:447-498 | One step of the plan: a check, and a gate that waits for it. |
| `PlanBuilder.WorkflowPlanBuilder.Choose` | libs/core/src/builder.ts:509-516 | One step of the plan; throws exactly when an arm is a workflow with task options. Which arm is which is said by `PlanNodes.CallMakes`. |
| `Composition.BuildIsSound` | libs/core/src/builder.ts:94-122 | A build that succeeds met no id twice on any chain of nested workflows and no workflow arm with task options, and its registry holds exactly what is nested. |
| `Composition.BuildIsComplete` | libs/core/src/builder.ts:94-122 | A build without such a repetition, with one definition for each id and with nothing refused succeeds. |
| `Composition.BuildsExactly` | libs/core/src/builder.ts:363-392 | Building a workflow succeeds if and only if no chain of nested workflows repeats an id, nothing nested at any depth has two definitions under one id, and the plan of each workflow on the way can be built from its calls; the registries then hold exactly the definitions nested at any depth. |
| `Composition.RefusedFails` | libs/core/src/builder.ts:303-309 | A plan fails to build exactly when one of its choices has a workflow arm with task options. |
| `Composition.MoreBuilding` | libs/core/src/builder.ts:99-105 | Each nested build has strictly fewer ids that are not being built yet, which is why the recursion ends. |
| `Composition.MentionedExactly` | libs/core/src/builder.ts:72-361 | A workflow mentions exactly the tasks, validators and workflows that one of its calls runs or checks with, and a refusal exactly when an arm is a workflow with task options. |
| `WorkflowLinker.RegisterAll` | libs/core/src/builder.ts:150-160 | Registering nested definitions one by one fails exactly when one is already there with another definition, and otherwise joins the registries. |
| `WorkflowLinker.BuildWorkflow` | libs/core/src/builder.ts:369-392 | The recursive build over the calls of a workflow computes what `BuildsExactly` is about. |
| `ResolutionController.Run.Attempt` | libs/action-merge-conflict-resolution/src/conflict-resolution-attempt.ts:70-121 | An attempt that succeeds made exactly its calls, whose order and number `AttemptOrder.StagedInOrder` tells one by one; it staged once, and what remains is what the index had then. A failed one has neither committed nor pushed nor stopped the agent. |
| `ResolutionController.Run.ContinueTheRebase` | libs/action-merge-conflict-resolution/src/resolution-flow.ts:18-47 | Continues a rebase whose conflicts are settled. Reports completion only when the index, read after the rebase last moved, has no conflict and git, inspected after that, has no rebase in progress; and a next conflict set only when the index has just that. |
| `ResolutionController.Run.ResolveIntegration` | libs/action-merge-conflict-resolution/src/resolution-flow.ts:49-110 | Ends within the allowed number of attempts. It says resolved exactly when there is something to keep: a clean rebase that moved the head; or a conflicted integration for which attempts were staged and checked, whose index was read since and is empty, and for a rebase none is in progress any more. Every attempt was staged and reported. |
| `ResolutionController.ResolveMergeConflicts` | libs/action-merge-conflict-resolution/src/resolution-controller.ts:85-210 | For ports that may answer anything and throw at any call: no rule of the monitor is broken; the attempts are the stagings, but for one that failed before it staged, and stay within `maxAttempts`; reports are numbered; a started agent is told to stop. A success means that no call threw and every attempt was staged and reported; it is an update exactly when something was resolved, and commit and push then happened exactly as asked. An error is that of a port exactly when a call threw, and that of the limit only when it was reached. |
| `ResolutionTrace.PushIsSafe` | libs/action-merge-conflict-resolution/src/resolution-controller.ts:159-175 | A push was asked for, follows a commit that was asked for when merging, comes after the agent has stopped if it was ever started and right after its hook, is the only one, and follows no call that threw. |
| `ResolutionTrace.OnlyResolvedIsKept` | libs/action-merge-conflict-resolution/src/resolution-controller.ts:131-175 | At a commit or push the one integration of the run was a clean rebase that moved the head; or it was conflicted, something was staged, all of that was checked for markers afterwards, the index was read after it last changed and was empty, and for a rebase git was inspected after that and had none in progress. |
| `ResolutionTrace.EveryStagingIsAnAttempt` | libs/action-merge-conflict-resolution/src/conflict-resolution-attempt.ts:70-121 | Whatever is staged, in any run: the index was read since it changed, and the last calls are, in order, all those of an attempt at exactly its conflicts, none of which is refused; and the files were captured since git stopped at them. |
| `AttemptOrder.StagedInOrder` | libs/action-merge-conflict-resolution/src/conflict-resolution-attempt.ts:33-121 | Told call by call, for any run: between the last reading of the index and a staging nothing throws or changes the index; the handlers of generated files come before the agent is prepared, preparing before asking it, asking before its edits are copied, copying before the lockfile is regenerated, and validating the target comes last; every rule that matches a conflict is run exactly once and no other, the target is validated once, and the agent is prepared, asked and copied from exactly once if some conflict is its own and not at all otherwise. |
| `ResolutionTrace.IntegrationIsOpened` | libs/action-merge-conflict-resolution/src/resolution-controller.ts:95-143 | The base is integrated as the fourth call, or the fifth of a rebase, right after the pull request, its base, for a rebase its commits, and the progress report, and nothing threw before. |
| `ResolutionTrace.RebaseGoesOnSettled` | libs/action-merge-conflict-resolution/src/resolution-flow.ts:18-47 | A rebase is continued only when something was staged and checked and the index, read since, was empty; a commit is skipped only when git, inspected since, has a rebase in progress and a clean tree. |
| `ResolutionTrace.AttemptsAreLimited` | libs/action-merge-conflict-resolution/src/resolution-flow.ts:74-80 | Things are staged, and the agent is asked, at most `maxAttempts` times, and the agent no more often than things are staged, but for an attempt under way. |
| `ResolutionTrace.SummaryIsLast` | libs/action-merge-conflict-resolution/src/resolution-controller.ts:186-209 | A started agent is told to stop before the summary, and nothing follows the summary. |
| `ResolutionTrace.NothingConflictedIsKept` | libs/action-merge-conflict-resolution/src/resolution-flow.ts:65-109 | At a commit or push, and whenever a rebase goes on, the last index read had no conflict. |
| `ResolutionTrace.NothingUncheckedIsKept` | libs/action-merge-conflict-resolution/src/resolution-flow.ts:102-103 | At a commit or push, and whenever a rebase goes on, everything staged was checked for markers and whitespace afterwards. |
| `ResolutionTrace.OnlyTheHeadIsIntegrated` | libs/action-merge-conflict-resolution/src/resolution-controller.ts:131-143 | The agent is started, and anything committed or pushed, only after an integration that did not fail and started from the head the pull request was read with. |
| `RunnerOutcome.EveryRunIsDecided` | apps/cli/src/runner-client.ts:200-383 | Every order of messages, exit, errors, cancellations, timer and flush is one of four kinds, told from the inputs alone, which decides the result, whether the child is killed, and that it is asked to cancel at most once. |
| `RunnerOutcome.ResultIsFinal` | apps/cli/src/runner-client.ts:236-241 | A run settles at most once, and nothing is sent to the child afterwards. |
| `RunnerOutcome.EndedResult` | apps/cli/src/runner-client.ts:251-278 | A run that ends before a terminal event fails, or fails its cancellation if one was under way, with the signal of the first request to cancel. |
| `RunnerOutcome.ReportedResult` | apps/cli/src/runner-client.ts:336-365 | After a terminal event its result stands at the flush, unless an execution event or an undecodable message comes first; neither the end of the child nor a cancellation replaces it. |
| `RunnerOutcome.ReportDecidesStatus` | apps/cli/src/runner-client.ts:133-149 | A report that stands decides the status: 0 for success, 1 for failure, and 130 for cancellation with the signal of the first request to cancel. |
| `RunnerOutcome.NoReportDecidesStatus` | apps/cli/src/runner-client.ts:133-164 | A run that ends without one has status 1, or 130 if it was being cancelled and did not end by a message. |
| `RunnerOutcome.SuccessWasReported` | apps/cli/src/runner-client.ts:133-149 | Status 0 is given only to a run whose runner reported success. |
| `RunnerOutcome.CancelledWasAsked` | apps/cli/src/runner-client.ts:133-164 | Status 130 is given only to a run that someone asked to cancel or whose runner reported as cancelled. |
| `RunnerOutcome.KilledAfterCancel` | apps/cli/src/runner-client.ts:300-314 | The child is killed only after a request to cancel and with no terminal event seen. |
| `RunnerOutcome.EndedRunsSettle` | apps/cli/src/runner-client.ts:266-278 | A runner that has exited always leaves a result behind. |
| `RunnerSupervision.Supervision.OnMessage` | apps/cli/src/runner-client.ts:317-365 | Handling a message is one step of the supervisor; it asks for a flush exactly when it took a terminal event. |
| `RunnerSupervision.Supervision.CancelRun` | apps/cli/src/runner-client.ts:283-315 | A request to cancel is one step, and arms the grace timer. |
| `RunnerSupervision.Supervision.OnGraceElapsed` | apps/cli/src/runner-client.ts:300-314 | The grace timer is one step, and fires only while armed. |
| `RunnerSupervision.Supervise` | apps/cli/src/runner-client.ts:200-383 | A supervisor that is given any sequence of inputs ends in the state that the lemmas of `RunnerOutcome` are about; it sends at most one cancellation and one kill, and has settled when the inputs end with the exit and the flush. |
| `ToolLifecycle.LifecyclesAreOrdered` | libs/acp/src/stream.ts:187-343 | For every stream each call of each attempt is opened at most once and closed at most once after that, reported as in progress only while open, and as ended only by the result that closes it. |
| `ToolLifecycle.EachCallHasOneLife` | libs/acp/src/stream.ts:226-342 | For every sequence of chunks, even one that is fed on after a throw, the reports about one call are at most one start, which comes first, then progress, then at most one end, which comes last. |
| `ToolLifecycle.ReportedCallsStart` | libs/acp/src/adapter.ts:165-200 | As the adapter has it, which consumes nothing after a throw: the reports about a call are started, progress as often as it comes, and at most one end; if there are any, the start is among them. |
| `ToolLifecycle.StartIsMissingExactly` | libs/acp/src/stream.ts:226-342 | In every run the start of an opened call is reported, before anything else about it, if and only if no limit on activities or on their input was exceeded by that start. |
| `ToolLifecycle.OpeningsAreReported` | libs/acp/src/stream.ts:226-288 | While nothing throws, the report of the start follows the opening at once. |
| `ToolLifecycle.ProgressWithoutStart` | libs/acp/src/stream.ts:330-342 | The reducer by itself, fed a call with an input of 1000001 characters and, after that has thrown, the same call without input, reports progress only; its caller stops at the throw. |
| `ToolLifecycle.FinishedAttemptsAreClosed` | libs/acp/src/stream.ts:212-224 | Finishing an attempt leaves none of its calls open, even after a limit was exceeded. |
| `ToolLifecycle.ActivitiesAreLimited` | libs/acp/src/stream.ts:330-342 | No more than 1024 activities are ever reported. |
| `ToolSpans.EverySpanEnds` | libs/acp/src/observability.ts:124-294 | Whatever the stream and whichever span operations throw: once the projection is finished, every span it created was told to end. |
| `ToolSpans.EachSpanEndsOnce` | libs/acp/src/observability.ts:124-294 | When no span operation throws there is one span for the run and one for each opened call, and each is told to end exactly once, that of the run last. |
| `ToolSpans.DisableEndsAll` | libs/acp/src/observability.ts:139-174 | Disabling the projection ends everything still open, even when ending throws. |
| `ToolSpans.FinishedIsFinal` | libs/acp/src/observability.ts:240-267 | A finished projection creates and ends nothing more. |
| `AcpTools.AcpToolReducer.Consume` | libs/acp/src/stream.ts:201-210 | Consuming a chunk is one step of the lifecycle, errors included. |
| `AcpTools.AcpToolReducer.FinishAttempt` | libs/acp/src/stream.ts:212-224 | The loop over the records is one step of the lifecycle. |
| `AcpTools.AcpObservability.DisableProjection` | libs/acp/src/observability.ts:139-174 | The loop that ends what is left over is one step of the projection. |
| `AcpTools.AcpObservability.Finish` | libs/acp/src/observability.ts:265-294 | Closing all tools and then the agent is one step of the projection. |
| `DottedInput.AddPath` | apps/cli/src/input-parameters.ts:64-96 | Walking a path succeeds exactly when no value is on the way and nothing is at its end; it then adds the missing inner nodes and the value, and changes nothing else. |
| `DottedInput.ParseDottedInputParameters` | apps/cli/src/input-parameters.ts:42-100 | Parsing succeeds exactly when every path has 1 to 64 non-empty segments and no path is another or a prefix of another; reading each path then gives its value, and the object has no other leaves. |
| `DottedInput.LookupFindsNodes` | apps/cli/src/input-parameters.ts:27-40 | The object has exactly the nodes of the tree it was made from. |
| `DottedInput.ReadExactly` | apps/cli/src/input-parameters.ts:45-62 | A parameter is read as a path and a text if and only if it is that path of 1 to 64 non-empty segments without dot or equals sign, dotted, then `=` and the text. |
| `DottedInput.OrderIsIrrelevant` | apps/cli/src/input-parameters.ts:42-100 | The same parameters in another order are accepted alike. |
| `ChunkedBody.DecodeChunkedBody` | actions/ripwire-server/src/readiness.ts:261-288 | The decoding loop strictly advances, reads within the body, and computes the specified result or error. |
| `ChunkedBody.DecodesExactly` | actions/ripwire-server/src/readiness.ts:261-288 | A body decodes to some data if and only if it is the framing of chunks whose data joined is that, followed by a last line of size zero and anything. |
| `ChunkedBody.SizeReadsBack` | actions/ripwire-server/src/readiness.ts:268-276 | A size written in hexadecimal, as section 7.1 of RFC 9112 has it, is read back whatever extension follows. |
| `ChunkedBody.RoundTrip` | actions/ripwire-server/src/readiness.ts:261-288 | For all non-empty chunks, with extensions and trailers and whatever bytes they hold, decoding the encoded body gives their concatenation. |
| `Redaction.RedactionIsComplete` | apps/cli/src/redaction.ts:1-9 | No secret that is long enough and, laid over the marker at any distance, disagrees with it somewhere occurs in redacted text, whatever the other secrets are; and redaction creates none that was not there. |
| `Redaction.RedactedExactly` | apps/cli/src/redaction.ts:1-9 | A secret is removed from every text, whatever other secrets are configured beside it, if and only if it fits nowhere on the marker: no overlapping position of the two agrees. |
| `Redaction.FittingSecretLeaks` | apps/cli/src/redaction.ts:1-9 | For a secret that fits the marker somewhere, a text and one more secret with which it is left in the redacted text. |
| `Redaction.ReplaySafeSecrets` | apps/cli/src/redaction.ts:1-9 | For the marker of replay output this says: the secret neither starts nor ends with an asterisk, nor holds three in a row. |
| `Redaction.KeyIsSafe` | libs/action-merge-conflict-resolution/src/recording.ts:30-35 | A key such as `sk-ABCD` shares letters with the recording marker and is safe all the same. |
| `Redaction.CreatesNone` | apps/cli/src/redaction.ts:8-8 | Replacing one secret cannot create another that fits nowhere on the marker. |
| `Redaction.CleanTextIsUnchanged` | apps/cli/src/redaction.ts:1-9 | Text with none of the secrets is unchanged. |
| `Redaction.SortsAll` | apps/cli/src/redaction.ts:5-7 | The secrets are replaced longest first, each kept one exactly once. |
| `Redaction.ValuesAreRedacted` | libs/action-merge-conflict-resolution/src/recording.ts:30-44 | No text anywhere in a recorded value keeps a secret that fits nowhere on the recording marker. |
| `Redaction.SharedCharacterLeaks` | apps/cli/src/redaction.ts:1-9 | With the secrets `****` and `abcd`, redacting `*abcd` leaves the first of them. |

## Left out

- GlobSafety.SafeExactly: for paths with unbalanced brackets, or whose quoted form is too long for a glob, only the two bounds `CoveringIsSafe` and `SafeCoversLoosely` are given; they differ in literal segments of the pattern that agree with a segment of the path but for its glob characters, or, where the length allows, but for what a range does not tell from a bracket. Of two patterns that both match a path without covering it nothing is claimed beyond `CoveredPathIsFound`.
- Redaction.RedactedExactly: takes for granted that some character occurs neither in the secret nor in the marker. Names of fields are never redacted by the code and may hold a secret.
- RunMetrics.DeriveRunMetrics: skills are not sorted by name, which the code does with `localeCompare`; what is stated about them does not depend on their order.
- CommentPaging.ReadNewestComments: the pages of a source are taken as a fixed list with stable, unique ids.
- RecorderTransparency.RecorderIsTransparent: run and work ids, which the derivation never reads, are not carried; the final sort of skills by name, which uses `localeCompare`, is left out on both sides; bounds of the event schema other than those of a skill summary are taken as met.
- SessionDelivery.ListenerSeesItsTurn: a start is bound at most once and turn ids are not reused in a thread, as the protocol has it; listeners neither throw nor call back into the dispatcher. A dispatch that throws ends the session.
- TurnAssembly.TurnIsFaithful: what a turn holds after the failure promise was rejected is not stated, except through the limits and `SettledIsFinal`; `TurnFailures` says when that is. Item ids are strings or absent.
- Composition.BuildsExactly: which of several errors is thrown first is not modelled, nor are the schema checks on finished plans and registries; the three registries are one map keyed by kind and id, without their order.
- PlanOrder.PlanIsOrdered: what an authored workflow does is its sequence of calls with the values they were given; workspace and model options are not carried.
- ResolutionController.ResolveMergeConflicts: answers of the ports are any function of the calls so far; an optional port that is absent is one that does nothing. Progress texts, commit metadata and diagnostics are reduced to their calls.
- DottedInput.ParseDottedInputParameters: the tree of maps is one map from paths to nodes, updated by the loops; the order of fields in the object is not modelled, and what the text of a value parses to is a parameter.
- ToolLifecycle.LifecyclesAreOrdered: sinks are taken not to throw. The span projection never does; the caller of the adapter gets activities unguarded (`libs/acp/src/adapter.ts:279`), and a throw of its own there ends the attempt like a limit does, after the activity was handed over. Diagnostics are left out.
- RunnerOutcome.EveryRunIsDecided: callbacks other than the observer of execution events are guarded in the code and left out.
- A character is a Unicode scalar value, so lengths are those of the code, which counts UTF-16 code units, for text below U+10000 only; unpaired surrogates do not occur, and UTF-8 lengths are exact. Regular expressions are explicit matchers over tokens; JSON, schemas, UTF-8 decoding, clocks and timers are parameters or steps.
- The Codex initialize handshake, process termination and its timers are not part of this model; listeners of a connection are one flag for each line, saying whether delivery throws.
- Linked nodes of the event recorder are objects on the heap; records of tools, starts of turns and open spans are values in a sequence that their owner updates, so aliasing of those objects is not captured.
- Git, Docker, file system and network ports, publication texts, summaries and command-line flags are formatting or foreign calls.
- The state reducer in resolution-state.ts, process anchors and readiness polling are left out; so are the run-time engine and the plan schema types.
