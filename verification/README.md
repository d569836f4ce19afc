# Verified models of OpenCOAT

OpenCOAT keeps *concerns* (rules about what an agent should do) and enforces them in two places: a Python runtime and
host adapter, and a TypeScript bridge plugin inside the OpenClaw agent. This project models the parts of both in which
something can go wrong silently, and proves what they keep.

- **Reflex policies** (`ReflexExport`, `ReflexPolicies`, `ReflexMonitor`, `ReflexPipeline`, `ReflexWording`,
  `ReflexMeaning`, `ReflexGuards`, `MessageText`): concerns are exported as policy specs, parsed and validated by the
  bridge, merged by id, compiled and folded into one decision, which then rewrites messages. The main results say that
  the decision is what the concerns mean and speaks with their words, and exactly when it does not; `ReflexMeaning` reads
  that meaning off the records, with every name and mode spelled out, apart from the exporter's definitions.
- **Injection** (`InjectionTree`, `Injector`, `ToolGuard`, `InstalledHooks`): rows with wildcard targets are written
  into a host context in place. The heap walk refines a function on trees; the tool guard is a projection of it; and the
  buffer between events and contexts conserves every captured injection.
- **Bridge state** (`PromptFold`, `BridgeGuards`, `RuntimeObservers`): pending advice per run, vetoes, and the differs
  that turn polls into events, as counting arguments over arbitrary histories.
- **Text** (`EnvFile`, `EnvRewrite`, `ModelOrder`, `DcnDot`, `Extractor`, `ListMarkers`, `Extraction`, `Pointcut`,
  `PointcutRegex`, `PointcutCalls`, `PointcutForm`, `Aop`, `ConcernPointcut`): a printer and parser pair, a quoting
  scheme with a reader, a segmenter with its capped loop, a pointcut language with the exact reach of its parser, the two
  shapes of a concern, and what an expression in a record comes to in the monitor.
- **Ownership and upserts** (`PidFile`, `ConcernBuilder`): one owner of a PID file over crashes, and re-extraction that
  loses no edits.

`Options`, `Strings`, `Sorting`, `Filtering`, `Json` and `Concerns` hold what several models share. Code that updates
dicts, Maps, lists or fields in place is a class or a method with loops, proved equal to a specification function; the
laws are lemmas about that function. `dafny verify dfyconfig.toml` checks everything.

## What the proofs found

Where a lemma is named, it gives the exact condition or a concrete witness.

- An id exported under two action kinds keeps only the guard whose kind name comes last
  (`ReflexPipeline.ShadowedGuardIsLost`); a concern that blocks `memory_write` targets is one
  (`ReflexPipeline.DoubleGuardExists`).
- A replacement text made of byte-order marks is text for Python's `strip` and blank for JavaScript's `trim`,
  so that a rewrite the concern means does not happen (`ReflexPipeline.InvisibleReplacement`).
- Only archived and merged concerns are kept from the export: a deleted guard goes on denying
  (`ReflexPipeline.DeletedConcernsStillDecide`, `ReflexPipeline.DeletedGuardDenies`).
- A denied message that is no object is persisted as it was (`ReflexGuards.DenialShowsExactlyOnObjects`,
  `ReflexGuards.DeniedTextIsPersisted`).
- The record of a denial is about two policies at once unless a single policy denies
  (`ReflexMonitors.RecordMixesTwoPolicies`).
- A target such as `tool_call.arguments.*` under a parent that is missing leaves `{}` behind, and under a parent that
  holds a text or a number it destroys that value and leaves `{}` in its place; the row is dropped only if an empty dict
  stood there (`InjectionTree.EmptyDictLeftBehind`, `InjectionTree.BarrenRowDroppedExactlyWhen`). The comments of
  injector.py speak of dropping such a row in all these cases; the model follows the code.
- The tool guard and the injector differ on an overwrite row exactly when it targets nothing below the arguments, or
  something inside an argument called `runtime_prompt` while prompt injection is off
  (`ToolGuard.RowProjectsExactlyWhen`, `ToolGuard.RowsProjectExactlyWhen`); the bridge heeds the bare target
  `tool_call`, the Python guard does not (`BridgeGuards.BridgeAndHostAgree`).
- A poll that falls from a depth that is not positive is not reported, and only such polls spoil the account
  (`RuntimeObservers.PollReportsChange`, `RuntimeObservers.DepthIsSumExactlyWhen`).
- Distinct advice can be dropped exactly when one concern id, ended by a line feed, begins another one
  (`PromptFold.AdviceIsKeptExactlyWhen`).
- The credentials printer escapes line feeds and carriage returns only, while the parser cuts at every Unicode line end:
  a value with a line separator is cut short and its rest can become an entry of another key
  (`EnvRewrites.SeparatorInjectsEntry`, `EnvRewrites.SeparatorWitness`).
- Rewriting the credentials file takes a pair of quotes off values that nobody updated
  (`EnvRewrites.OrdinaryWriteIsStill`, `EnvRewrites.NestedQuotesMove`).
- A pointcut expression is cut at `&&` inside quotes too: a guard such as `args("make && make install")` yields no
  such keyword, from no expression (`PointcutForms.ReadKeywordsArePlain`, `PointcutForms.JoinedCommandIsNeverRead`,
  `PointcutForms.KeywordsReadBackExactlyWhen`).
- Quoted text adds joinpoints, as in `args("rm()")`, exactly when a call with a name that is not reserved begins in it
  (`PointcutForms.NameIsOnlyJoinpointExactlyWhen`).
- The comment on stamping says that `kind` and `schema_version` of the model are overwritten; the code and
  `Extraction.StampedProvenance` keep them
  (packages/opencoat-runtime/opencoat_runtime_core/concern/extractor.py:577-586).
- A model reply with a blank name is stamped without provenance, and it is left to record validation to refuse it
  (`Extraction.StampedProvenance`).
- A concern that has only lists and its own weaving policy changes its effective policy when it is synchronised
  (`Aop.SyncKeepsWeavingExactlyWhen`), and re-extraction overwrites edited lists
  (`ConcernBuilder.ListsComeFromTheLastCandidate`).
- Constructing a record turns its first tool guard into a legacy one, which blocks every tool call that its keywords
  match even when the guard aims at something else (`ConcernPointcuts.ConstructionWidensToolGuards`).
- A process that is given a crashed owner's PID is refused (`PidFiles.ReusedPidIsRefused`).

## Model

| member | source | states |
|---|---|---|
| `ReflexPipeline.MonitorDecidesWhatConcernsMean` | integrations/openclaw-opencoat-bridge/src/reflex-policy-sync.ts:53-81 | end to end, from stored concerns through export, parsing, merging, compiling and mediation: the decision is deny, rewrite or allow exactly as the exportable concerns mean it (`ReflexMeanings.ConcernsMeanExactly` spells that out), given distinct visible ids, visible replacement texts and no guard shadowed under a second kind |
| `ReflexPipeline.PipelineDecides` | integrations/openclaw-opencoat-bridge/src/reflex-policy-sync.ts:53-81 | with distinct ids alone: deny exactly when a kept hard block mentions the serialised arguments, and any action at all exactly when a kept concern does |
| `ReflexPipeline.RankIsMeantExactlyWhen` | integrations/openclaw-opencoat-bridge/src/reflex-policy-sync.ts:53-81 | with distinct ids alone: the decision never exceeds what the concerns mean, and equals it if and only if they mean nothing or a kept concern that asks for the meant rank mentions the arguments |
| `ReflexPipeline.MeantDenialHappens` | packages/opencoat-runtime/opencoat_runtime_core/concern/reflex_policy_export.py:265-285 | for the kind whose name comes last among the selected ones, no meant denial is lost, shadowing or not |
| `ReflexPipeline.KeptExactlyWhen` | integrations/openclaw-opencoat-bridge/src/reflex-policy-sync.ts:65-70 | which concerns survive the Map keyed by id: exactly those with a visible id and effect that are delivered under no later kind name |
| `ReflexPipeline.GuardIsKeptExactlyWhen` | integrations/openclaw-opencoat-bridge/src/reflex-policy-sync.ts:65-70 | for a single guarding concern the pipeline's decision is the meant one if and only if its id is visible, its effect is visible, and it is delivered under no later kind name |
| `ReflexPipeline.ShadowedGuardIsLost` | integrations/openclaw-opencoat-bridge/src/reflex-policy-sync.ts:65-70 | an id exported under two kinds loses its guard on the earlier kind name in the full export and keeps it when that kind is exported alone |
| `ReflexPipeline.DoubleGuardExists` | packages/opencoat-runtime/opencoat_runtime_core/concern/reflex_policy_export.py:67-78 | such a concern exists: one hard-blocks both memory writes and persisted tool results with the same keyword |
| `ReflexPipeline.InvisibleReplacement` | integrations/openclaw-opencoat-bridge/src/reflex-policy-spec.ts:94-94 | a concern whose rewrite text is a byte-order mark means a rewrite, and the monitor built from it lets the action through |
| `ReflexPipeline.DeletedConcernsStillDecide` | packages/opencoat-runtime/opencoat_runtime_core/concern/reflex_policy_export.py:201-262 | in every list of concerns, deleting one gives the same decisions as activating it |
| `ReflexPipeline.DeletedGuardDenies` | packages/opencoat-runtime/opencoat_runtime_core/concern/reflex_policy_export.py:201-262 | a deleted concern that guards memory writes still denies them |
| `ReflexPipeline.DeliveredMeaning` | packages/opencoat-runtime/opencoat_runtime_core/concern/reflex_policy_export.py:201-262 | a concern reaches the bridge for a kind exactly when it is neither archived nor merged, has a visible id, a non-empty keyword, and blocks or visibly rewrites; and then with its own id, kind and keywords |
| `ReflexPipeline.Survivors` | integrations/openclaw-opencoat-bridge/src/reflex-policy-sync.ts:65-70 | the specs the monitor is built from are exactly the kept ones, each from its own concern |
| `ReflexMeanings.MonitorDecidesByRecords` | integrations/openclaw-opencoat-bridge/src/reflex-policy-sync.ts:53-81 | from the records to the decision, with every joinpoint name, target and mode spelled out and distinct ids as the only assumption: the monitor denies if and only if the denial of some concern is in force, and rewrites if and only if none is and some replacement is |
| `ReflexMeanings.ConcernsMeanExactly` | packages/opencoat-runtime/opencoat_runtime_core/concern/reflex_policy_export.py:32-198 | what the concerns mean, kind by kind and both ways: which advices act by mode, template and target at or below a name, which keywords count by joinpoints listed or mentioned in an expression, the legacy pointcut and the legacy tool guard included |
| `ReflexMeanings.ExportedRow` | packages/opencoat-runtime/opencoat_runtime_core/concern/reflex_policy_export.py:201-262 | a row is exported if and only if the concern is neither archived nor merged, watches for something, and blocks or rewrites; and what every field of the row is, the needles being the watched keywords, each once |
| `ReflexMeanings.DenialSays` | packages/opencoat-runtime/opencoat_runtime_core/concern/reflex_policy_export.py:138-172 | a denial says the content of the first advice that blocks, or of the legacy tool guard, an empty content giving way to the description and an empty description to the id |
| `ReflexMeanings.ReplacementSays` | packages/opencoat-runtime/opencoat_runtime_core/concern/reflex_policy_export.py:175-198 | a replacement is the stripped content of the first advice that rewrites with something to say |
| `ReflexMeanings.DemoGuardDenies` | packages/opencoat-runtime/opencoat_runtime_cli/demo_concerns.py:53-86 | the shipped guard, which targets the arguments of a tool call, denies every call whose serialised arguments hold `rm -rf` |
| `ReflexMeanings.FallbackStandsInForGuard` | integrations/openclaw-opencoat-bridge/src/reflex-policies.ts:75-86 | the fallback policy of the bridge decides every tool call as the exported demo guard does |
| `ReflexMeanings.AppliesExactly` | integrations/openclaw-opencoat-bridge/src/reflex-policies.ts:12-54 | a spec applies to actions of its kind by tool name or by a needle that occurs in the serialised arguments, both in lower case when case does not count |
| `ReflexWording.MonitorPolicies` | integrations/openclaw-opencoat-bridge/src/reflex-policy-sync.ts:53-81 | the policies of the assembled monitor are the compiled surviving specs in the order of their ids |
| `ReflexWording.DenialSpeaksForConcerns` | integrations/openclaw-opencoat-bridge/src/reflex-monitor.ts:68-85 | end to end, the words of a denial: one line for each non-empty deny text of exactly the kept hard blocks that mention the arguments, each concern once and in id order, under the first one's id |
| `ReflexWording.RewriteSpeaksForLeastConcern` | integrations/openclaw-opencoat-bridge/src/reflex-monitor.ts:68-85 | end to end, a rewrite puts the text of one concern in place of the content and leaves all else: of the kept rewriting concerns that mention the arguments, the one with the least id |
| `ReflexWording.DenyTextIsOfFirstBlock` | packages/opencoat-runtime/opencoat_runtime_core/concern/reflex_policy_export.py:138-172 | the deny text is that of the first blocking advice, and of the legacy advice only when no other blocks |
| `ReflexWording.RewriteTextIsOfFirstRewrite` | packages/opencoat-runtime/opencoat_runtime_core/concern/reflex_policy_export.py:175-198 | the rewrite text is the stripped content of the first rewriting advice that is not blank |
| `ReflexExport.PointcutKeywords` | packages/opencoat-runtime/opencoat_runtime_core/concern/reflex_policy_export.py:114-135 | the keyword loops yield the words of the matching pointcuts in order, without repetitions |
| `ReflexExport.ExportOneKind` | packages/opencoat-runtime/opencoat_runtime_core/concern/reflex_policy_export.py:201-262 | the loop and the sort yield exactly the rows of the exportable guarding concerns, by id; which those are and what the rows say is `ReflexMeanings.ExportedRow` |
| `ReflexExport.ExportReflexPolicies` | packages/opencoat-runtime/opencoat_runtime_core/concern/reflex_policy_export.py:265-285 | one kind, or all kinds one after the other in name order |
| `ReflexPolicies.ParseReflexPolicyExport` | integrations/openclaw-opencoat-bridge/src/reflex-policy-spec.ts:51-108 | the skip-and-push loop yields the accepted rows in order, or nothing for a document of the wrong shape |
| `ReflexPolicies.ParseInvertsWire` | integrations/openclaw-opencoat-bridge/src/reflex-policy-spec.ts:58-104 | every well-formed spec is what its wire form parses to |
| `ReflexPolicies.ParseYieldsWellFormed` | integrations/openclaw-opencoat-bridge/src/reflex-policy-spec.ts:58-104 | every accepted row is well-formed, so the round trip covers all there is to parse |
| `ReflexPolicies.ExportRoundTrip` | integrations/openclaw-opencoat-bridge/src/reflex-policy-spec.ts:51-108 | writing well-formed specs and parsing them back loses nothing and reorders nothing |
| `ReflexPolicies.CompiledVoice` | integrations/openclaw-opencoat-bridge/src/reflex-policies.ts:12-69 | a compiled policy never throws and speaks exactly when its predicate holds of the action |
| `ReflexPolicies.MergeById` | integrations/openclaw-opencoat-bridge/src/reflex-policy-sync.ts:65-70 | the Map holds the last spec of every id, at the place of the id's first occurrence |
| `ReflexPolicies.UniqueMembers` | integrations/openclaw-opencoat-bridge/src/reflex-policy-sync.ts:65-70 | a spec survives the merge exactly when it stands in the list with no spec of its id behind it, and no two survivors share an id |
| `ReflexPolicies.BuildReflexRuntime` | integrations/openclaw-opencoat-bridge/src/reflex-policy-sync.ts:53-81 | the assembled monitor holds the compiled surviving specs, sorted by id |
| `ReflexPolicies.AssembledRank` | integrations/openclaw-opencoat-bridge/src/reflex-policy-sync.ts:53-81 | the assembled monitor's decision has the largest rank among the surviving specs that apply |
| `ReflexPolicies.AssembledOrigin` | integrations/openclaw-opencoat-bridge/src/reflex-policy-sync.ts:53-81 | every policy of the assembled monitor comes from a surviving spec |
| `ReflexMonitors.Mediate` | integrations/openclaw-opencoat-bridge/src/reflex-monitor.ts:103-158 | the decision fold with its early return decides and records what the reference meaning of the policy list says |
| `ReflexMonitors.RulingIsMaximum` | integrations/openclaw-opencoat-bridge/src/reflex-monitor.ts:103-158 | no policy asks for more than is decided, and somebody asked for what is decided |
| `ReflexMonitors.FoldStep` | integrations/openclaw-opencoat-bridge/src/reflex-monitor.ts:68-85 | merging one decision at a time gives the newline-join of all non-empty deny reasons in order under the first denier's id, or else the one chosen rewrite |
| `ReflexMonitors.LeastRewriteIsLeast` | integrations/openclaw-opencoat-bridge/src/reflex-monitor.ts:79-82 | of all rewrites the chosen one carries an id that no other rewrite's id precedes |
| `ReflexMonitors.CriticalFaultForcesDeny` | integrations/openclaw-opencoat-bridge/src/reflex-monitor.ts:120-140 | any safety-critical throw forces a denial |
| `ReflexMonitors.FirstThrowDenies` | integrations/openclaw-opencoat-bridge/src/reflex-monitor.ts:107-140 | read off the two calls to each policy: the first safety-critical policy that throws denies under its own id with the message of the throw |
| `ReflexMonitors.RulingByAnswers` | integrations/openclaw-opencoat-bridge/src/reflex-monitor.ts:103-158 | when none throws, one denial is enough to deny and one rewrite enough to rewrite when nobody denies; advisory policies that throw count for nothing |
| `ReflexMonitors.ConstructionOrderIrrelevant` | integrations/openclaw-opencoat-bridge/src/reflex-monitor.ts:91-97 | every order of the same policies gives the same monitor when no two ids compare equal |
| `ReflexMonitors.MonitorRankIsMaximum` | integrations/openclaw-opencoat-bridge/src/reflex-monitor.ts:91-158 | the rank of the built monitor's decision is the largest rank among the policies it was given |
| `ReflexMonitors.AddingPolicyNeverLowersRank` | integrations/openclaw-opencoat-bridge/src/reflex-monitor.ts:91-158 | adding a policy never lowers the rank of the decision |
| `ReflexMonitors.RecordMixesTwoPolicies` | integrations/openclaw-opencoat-bridge/src/reflex-monitor.ts:114-155 | for every list of policies without a safety-critical fault that is denied: the record has the id of the first denier's decision and the criticality of the last denier, and these are one policy if and only if a single policy denies |
| `ReflexGuards.DeniedResultIsNotPersisted` | integrations/openclaw-opencoat-bridge/src/sync-reflex-guards.ts:105-125 | for every object message and policy set: after a denial the text of the persisted message is exactly the notice with its reason, and with the monitor missing exactly the fail-closed notice |
| `ReflexGuards.DenialShowsExactlyOnObjects` | integrations/openclaw-opencoat-bridge/src/sync-reflex-guards.ts:105-125 | the notice reaches the persisted message exactly when the message is an object |
| `ReflexGuards.DeniedTextIsPersisted` | integrations/openclaw-opencoat-bridge/src/sync-reflex-guards.ts:105-125 | an assembled monitor denies a plain text message, and the message is persisted as it was |
| `ReflexGuards.DeniedByConcernIsNotPersisted` | integrations/openclaw-opencoat-bridge/src/sync-reflex-guards.ts:105-125 | a tool result whose serialised arguments a stored concern means to deny is persisted as a notice; that the message's text is among them is `ReflexGuards.GuardedResultIsNotPersisted` |
| `ReflexGuards.PersistedNoticeSpeaksForConcerns` | integrations/openclaw-opencoat-bridge/src/sync-reflex-guards.ts:105-125 | the persisted notice gives the deny texts of exactly the concerns that block the serialised tool result, each once, in id order |
| `ReflexGuards.MemoryWriteBlockedExactlyWhen` | integrations/openclaw-opencoat-bridge/src/sync-reflex-guards.ts:79-103 | a message is kept out of memory exactly when the guard is on and the monitor is missing or denies |
| `ReflexGuards.GuardedResultIsNotPersisted` | integrations/openclaw-opencoat-bridge/src/sync-reflex-guards.ts:54-125 | from the words of the message to the disk: if the text of a tool result holds a keyword of a concern that blocks persisted results, and the host's serialisation shows that keyword, the persisted text is the blocking notice and nothing of the result |
| `ReflexGuards.GuardedMessageIsNotWritten` | integrations/openclaw-opencoat-bridge/src/sync-reflex-guards.ts:40-103 | likewise a message whose text holds a keyword of a concern that blocks memory writes is kept out of memory |
| `ReflexGuards.RewrittenResultIsPersisted` | integrations/openclaw-opencoat-bridge/src/sync-reflex-guards.ts:54-125 | when nobody blocks and a concern that rewrites hears the text of the tool result, the persisted text is the replacement of a rewriting concern |
| `ReflexGuards.RewrittenMessageIsWritten` | integrations/openclaw-opencoat-bridge/src/sync-reflex-guards.ts:40-103 | likewise for a message on its way into memory |
| `ReflexGuards.GuardedCallIsBlocked` | integrations/openclaw-opencoat-bridge/src/reflex-tool-guard.ts:22-191 | a tool call with a keyword of a concern that blocks tool calls in one of its text parameters is blocked with its parameters as they were |
| `ReflexGuards.MissingMonitorFailsClosed` | integrations/openclaw-opencoat-bridge/src/sync-reflex-guards.ts:40-125 | without a monitor the message is kept out of memory and only the fail-closed notice of a tool result is persisted; with both guards off nothing is touched |
| `ReflexGuards.ToolParametersChangeOnlyInContent` | integrations/openclaw-opencoat-bridge/src/reflex-tool-guard.ts:165-191 | a guarded tool call keeps its parameters but for `content`, and that only changes to the text of a surviving policy |
| `MessageText.ExtractAgentMessageText` | integrations/openclaw-opencoat-bridge/src/message-text.ts:3-20 | the loop reads the string content or the concatenated text parts |
| `MessageText.MapParts` | integrations/openclaw-opencoat-bridge/src/message-text.ts:29-45 | the shared flag puts the whole text into the first text part and empties the others |
| `MessageText.ApplyAgentMessageContent` | integrations/openclaw-opencoat-bridge/src/message-text.ts:22-55 | the new message for string, mixed-part, empty and other content |
| `MessageText.ExtractAfterApply` | integrations/openclaw-opencoat-bridge/src/message-text.ts:3-55 | put-get: the text read after writing is the text written, for every object message |
| `MessageText.ApplyTwice` | integrations/openclaw-opencoat-bridge/src/message-text.ts:22-55 | put-put: writing twice is writing the last text |
| `MessageText.ApplyKeepsTheRest` | integrations/openclaw-opencoat-bridge/src/message-text.ts:22-55 | parts without text stay, in order, and so does every other field |
| `MessageText.TextOfParts` | integrations/openclaw-opencoat-bridge/src/message-text.ts:3-20 | the text of a content list is that of its parts one after the other: strings, and the `text` of objects when that is a string |
| `MessageText.NewTextStandsFirst` | integrations/openclaw-opencoat-bridge/src/message-text.ts:22-55 | a new text stands whole in the first part that carries one, the later ones are emptied, and with none it goes in front as a part of its own |
| `MessageText.ApplyExtractedIsIdentityIff` | integrations/openclaw-opencoat-bridge/src/message-text.ts:3-55 | get-put holds if and only if the content is a string or a list whose first text part already holds all the text |
| `Injectors.HostDict.Put` | packages/opencoat-runtime-host/opencoat_runtime_host_openclaw/injector.py:168-176 | writing an entry of a heap dict changes that entry of its tree and no other object |
| `Injectors.HostDict.Attach` | packages/opencoat-runtime-host/opencoat_runtime_host_openclaw/injector.py:158-162 | attaching a fresh child dict keeps the heap a tree |
| `Injectors.OpenClawInjector.WriteLeaf` | packages/opencoat-runtime-host/opencoat_runtime_host_openclaw/injector.py:168-188 | the in-place leaf write is the tree's leaf write, which `InjectionTree.ReachedPathHolds` spells out |
| `Injectors.OpenClawInjector.ApplySegments` | packages/opencoat-runtime-host/opencoat_runtime_host_openclaw/injector.py:123-162 | the recursive in-place walk with both wildcard loops turns the dict's tree into what the tree function gives, and touches only this dict's own objects |
| `Injectors.OpenClawInjector.DeepCopy` | packages/opencoat-runtime-host/opencoat_runtime_host_openclaw/injector.py:100-109 | the copy has the same tree and shares nothing |
| `Injectors.OpenClawInjector.Apply` | packages/opencoat-runtime-host/opencoat_runtime_host_openclaw/injector.py:100-109 | the result's tree is the fold of the rows over the context's tree, and the caller's context is untouched |
| `InjectionTree.ApplyRowsConcat` | packages/opencoat-runtime-host/opencoat_runtime_host_openclaw/injector.py:100-109 | applying concatenated row lists is applying them one after another |
| `InjectionTree.WriteAtDepth` | packages/opencoat-runtime-host/opencoat_runtime_host_openclaw/injector.py:123-188 | every path as long as the target or longer: reached paths hold the leaf text that `InjectionTree.ReachedPathHolds` spells out and nothing below, all others what they held |
| `InjectionTree.ReachedPathHolds` | packages/opencoat-runtime-host/opencoat_runtime_host_openclaw/injector.py:168-188 | a reached path that held a text which is not empty keeps it, with the content on a new line below, exactly when the mode is none of the six that overwrite or block; otherwise it holds the content alone |
| `InjectionTree.RunAppends` | packages/opencoat-runtime-host/opencoat_runtime_host_openclaw/injector.py:100-188 | over a whole row list: rows that append to one literal path, among rows that stay clear of it, leave what it held followed by all their contents, one per line and in row order |
| `InjectionTree.ReachedExactly` | packages/opencoat-runtime-host/opencoat_runtime_host_openclaw/injector.py:123-162 | a target reaches exactly the paths of its length that agree with its literal segments and on which everything a wildcard stands for is there, a dict wherever the target goes on |
| `InjectionTree.PromptOffDropsRows` | packages/opencoat-runtime-host/opencoat_runtime_host_openclaw/injector.py:115-121 | switching prompt injection off is leaving out the rows below the prompt |
| `InjectionTree.SegmentsOfJoin` | packages/opencoat-runtime-host/opencoat_runtime_host_openclaw/injector.py:90-91 | names without dots, joined by dots, are the segments of a target |
| `InjectionTree.WriteFrame` | packages/opencoat-runtime-host/opencoat_runtime_host_openclaw/injector.py:123-162 | a path that leaves the target at a literal segment keeps its value |
| `InjectionTree.RunFrame` | packages/opencoat-runtime-host/opencoat_runtime_host_openclaw/injector.py:100-162 | over a whole row list, a path no target touches keeps its value |
| `InjectionTree.NoNewStarKeyInRun` | packages/opencoat-runtime-host/opencoat_runtime_host_openclaw/injector.py:123-162 | no key named `*` ever appears |
| `InjectionTree.LiteralPrefixBecomesDict` | packages/opencoat-runtime-host/opencoat_runtime_host_openclaw/injector.py:158-162 | every proper literal prefix of a target is a dict afterwards |
| `InjectionTree.WriteAboveDepth` | packages/opencoat-runtime-host/opencoat_runtime_host_openclaw/injector.py:123-162 | every path shorter than the target: where the walk comes by, it holds what was there (or the empty dict put in its place) written with the rest of the target; all others what they held |
| `InjectionTree.EmptyDictLeftBehind` | packages/opencoat-runtime-host/opencoat_runtime_host_openclaw/injector.py:137-162 | for a wildcard under any literal prefix: the prefix holds an empty dict afterwards if and only if it was missing, held no dict, or an empty one |
| `InjectionTree.BarrenRowDroppedExactlyWhen` | packages/opencoat-runtime-host/opencoat_runtime_host_openclaw/injector.py:137-162 | such a row under a parent with nothing in it leaves the context as it was if and only if an empty dict stood there already |
| `ToolGuard.Guard` | packages/opencoat-runtime-host/opencoat_runtime_host_openclaw/tool_guard.py:118-140 | the outcome is the meaning of the row list for a copy of the arguments, invalid arguments fail, and the caller's call is not touched |
| `ToolGuard.Dispatch` | packages/opencoat-runtime-host/opencoat_runtime_host_openclaw/tool_guard.py:142-197 | one row blocks, rewrites the arguments or leaves a note, and changes nothing else of the outcome |
| `ToolGuard.ArgumentsSpelled` | packages/opencoat-runtime-host/opencoat_runtime_host_openclaw/tool_guard.py:118-140 | which arguments a call is guarded with: none when they are missing or count as false, a dict as it is, and a refusal for anything else |
| `ToolGuard.MeaningStep` | packages/opencoat-runtime-host/opencoat_runtime_host_openclaw/tool_guard.py:142-169 | row by row decoding accumulates: blocked if any row blocks, block contents and notes in row order with only leading blank contents lost |
| `ToolGuard.OneMoreRow` | packages/opencoat-runtime-host/opencoat_runtime_host_openclaw/tool_guard.py:132-169 | one more row with targets and modes spelled out: a row outside the call is passed over, a blocking row on any slot adds its text to the reason, and a row that neither blocks nor overwrites leaves a note |
| `ToolGuard.RewriteElsewhere` | packages/opencoat-runtime-host/opencoat_runtime_host_openclaw/tool_guard.py:152-158 | an overwriting row changes nothing unless its target is the arguments or below them |
| `ToolGuard.RewriteOfArguments` | packages/opencoat-runtime-host/opencoat_runtime_host_openclaw/tool_guard.py:171-197 | otherwise it writes the path left behind the arguments, or every argument when no name is left, and changes nothing else |
| `ToolGuard.GuardIsProjection` | packages/opencoat-runtime-host/opencoat_runtime_host_openclaw/tool_guard.py:171-197 | sub-tree projection: when the overwrite rows go strictly below the arguments and the prompt filter drops none of them, the guard's arguments are the arguments of the call the full injector would produce |
| `ToolGuard.RowProjectsExactlyWhen` | packages/opencoat-runtime-host/opencoat_runtime_host_openclaw/tool_guard.py:171-197 | guard and injector agree on every call about an overwrite row if and only if its target goes strictly below the arguments and, with prompt injection off, what is left of it is no prompt target |
| `ToolGuard.RowsProjectExactlyWhen` | packages/opencoat-runtime-host/opencoat_runtime_host_openclaw/tool_guard.py:118-197 | for a set of rows: guard and injector agree on every list of them and every call if and only if every overwrite row of the set satisfies that condition |
| `ToolGuard.BareTargetInInjector` | packages/opencoat-runtime-host/opencoat_runtime_host_openclaw/injector.py:168-176 | a bare arguments target makes the injector replace the arguments by the text |
| `ToolGuard.BareTargetInGuard` | packages/opencoat-runtime-host/opencoat_runtime_host_openclaw/tool_guard.py:171-197 | the same row makes the guard replace every argument and keep a dict, so the projection needs the strict condition |
| `ToolGuard.PromptNamedArgumentIsDropped` | packages/opencoat-runtime-host/opencoat_runtime_host_openclaw/tool_guard.py:171-197 | with prompt injection off, an argument called `runtime_prompt` is written by the injector and skipped by the guard |
| `InstalledHooks.Hooks.Callback` | packages/opencoat-runtime-host/opencoat_runtime_host_openclaw/hooks.py:444-463 | a fired event appends its injection to the buffer, if there is one |
| `InstalledHooks.Hooks.ApplyTo` | packages/opencoat-runtime-host/opencoat_runtime_host_openclaw/hooks.py:223-300 | the result is the pick-up of the pending entries and the buffer moves as one step of the history; by name that is `InstalledHooks.PickUpStep` and `InstalledHooks.PickUpTakesByName` |
| `InstalledHooks.Hooks.GuardToolCall` | packages/opencoat-runtime-host/opencoat_runtime_host_openclaw/hooks.py:302-329 | the newest guard entry decides and is removed on request; without one, or with invalid arguments, the buffer stays |
| `InstalledHooks.FireCapturesExactly` | packages/opencoat-runtime-host/opencoat_runtime_host_openclaw/hooks.py:444-463 | an event is captured exactly when it maps to a joinpoint and the runtime answers with rows, as the newest of those pending |
| `InstalledHooks.RunIsAccounted` | packages/opencoat-runtime-host/opencoat_runtime_host_openclaw/hooks.py:214-329 | over every run the captures are split into pending (in capture order), applied, guarded and dropped, and no guard entry is applied nor another guarded |
| `InstalledHooks.EachCaptureOnce` | packages/opencoat-runtime-host/opencoat_runtime_host_openclaw/hooks.py:214-329 | over every run each capture is in exactly one of the four places exactly once |
| `InstalledHooks.NothingDroppedWithoutClear` | packages/opencoat-runtime-host/opencoat_runtime_host_openclaw/hooks.py:214-221 | without a clear nothing is dropped |
| `InstalledHooks.GuardTakesNewest` | packages/opencoat-runtime-host/opencoat_runtime_host_openclaw/hooks.py:302-329 | a guard call consumes one entry, the newest guard capture still pending |
| `InstalledHooks.PickUpTakesByName` | packages/opencoat-runtime-host/opencoat_runtime_host_openclaw/hooks.py:272-299 | by the names of the captures: a draining pick-up moves exactly the pending captures of the asked name, or of any, but never those for tool calls, in capture order, and leaves every other where it is |
| `InstalledHooks.AppliedWasAskedFor` | packages/opencoat-runtime-host/opencoat_runtime_host_openclaw/hooks.py:223-300 | over every run, whatever was applied was pending when a draining pick-up asked for its name or for any |
| `InstalledHooks.PickUpByName` | packages/opencoat-runtime-host/opencoat_runtime_host_openclaw/hooks.py:272-299 | a pick-up for one name is a pick-up of everything from a buffer that only holds captures of that name |
| `InstalledHooks.PickUpStep` | packages/opencoat-runtime-host/opencoat_runtime_host_openclaw/hooks.py:272-299 | one more pending entry is put on top of the context when its name is asked for, and passed over otherwise |
| `InstalledHooks.GuardTakesExactlyWhen` | packages/opencoat-runtime-host/opencoat_runtime_host_openclaw/hooks.py:302-329 | a guard call consumes something if and only if it is decoded and drains and a capture of `before_tool_call` waits |
| `RuntimeObservers.PollReportsChange` | integrations/openclaw-opencoat-bridge/src/runtime-observers.ts:134-154 | a poll reports exactly the change of depth unless it falls from a depth that is not positive |
| `RuntimeObservers.DepthIsSumExactlyWhen` | integrations/openclaw-opencoat-bridge/src/runtime-observers.ts:36-154 | over every run with any depths: the reported changes and the native jumps add up to the current depth if and only if no poll falls from a last given depth that is not positive |
| `RuntimeObservers.DepthAccount` | integrations/openclaw-opencoat-bridge/src/runtime-observers.ts:36-154 | in every run the difference is exactly what such polls fell |
| `RuntimeObservers.DepthIsSumOfChanges` | integrations/openclaw-opencoat-bridge/src/runtime-observers.ts:36-154 | so with natural depths they always add up |
| `RuntimeObservers.EventsStartAtLastDepth` | integrations/openclaw-opencoat-bridge/src/runtime-observers.ts:134-154 | every event of every run starts at the depth last given for its key |
| `RuntimeObservers.QueueEventsExactly` | integrations/openclaw-opencoat-bridge/src/runtime-observers.ts:134-154 | over every run the events are exactly those that some poll reports: an enqueue above the last given depth, or a collect below a positive one |
| `RuntimeObservers.NativeReportGives` | integrations/openclaw-opencoat-bridge/src/runtime-observers.ts:36-45 | a native report of a finite number for a key that is not blank records it rounded down, or zero when negative; any other changes nothing |
| `RuntimeObservers.TaskEventsCountEdges` | integrations/openclaw-opencoat-bridge/src/runtime-observers.ts:156-210 | over every run of polls with distinct ids, creations count absent-to-present edges and endings non-terminal-to-terminal edges |
| `RuntimeObservers.TaskEventsArePaired` | integrations/openclaw-opencoat-bridge/src/runtime-observers.ts:156-210 | every before-event is followed by its after-event |
| `RuntimeObservers.EndingFollowsCreation` | integrations/openclaw-opencoat-bridge/src/runtime-observers.ts:156-210 | every ending comes after a creation of the task, with the task in every poll since |
| `RuntimeObservers.TaskEventsExactly` | integrations/openclaw-opencoat-bridge/src/runtime-observers.ts:156-210 | over every run the events are exactly those that some poll reports of a task: a creation when the session's last poll did not know it, an ending when it goes from another status to one of the five final ones |
| `RuntimeObservers.KnownIsLastStatus` | integrations/openclaw-opencoat-bridge/src/runtime-observers.ts:160-208 | what a session knows of a task is the status at its last place in the session's last poll |
| `RuntimeObservers.EmissionsNeverExceedStarts` | integrations/openclaw-opencoat-bridge/src/runtime-observers.ts:274-298 | in every prefix a run's running phase is emitted at most once per lifecycle start |
| `RuntimeObservers.RunningIffOpenStart` | integrations/openclaw-opencoat-bridge/src/runtime-observers.ts:283-288 | a run is held as running exactly when a start is neither ended nor already reported |
| `RuntimeObservers.EmissionNeedsOpenStart` | integrations/openclaw-opencoat-bridge/src/runtime-observers.ts:290-298 | the running phase is emitted exactly for the first event that shows work after an open start |
| `RuntimeObservers.EmittedExactly` | integrations/openclaw-opencoat-bridge/src/runtime-observers.ts:114-132 | with the events spelled out: the running phase is emitted for a started item, assistant text or a tool when the run has started and since then neither ended, failed nor been emitted |
| `RuntimeObservers.Observers.DiffQueueDepth` | integrations/openclaw-opencoat-bridge/src/runtime-observers.ts:134-154 | the differ's Map update and event are those of one step of the run |
| `RuntimeObservers.Observers.DiffTaskSnapshots` | integrations/openclaw-opencoat-bridge/src/runtime-observers.ts:156-210 | the loop emits the events of one step of the run and remembers the new snapshot |
| `RuntimeObservers.Observers.OnAgentEvent` | integrations/openclaw-opencoat-bridge/src/runtime-observers.ts:274-298 | the listener's Set updates and emissions are those of one step of the run |
| `PromptFold.MergeInjections` | integrations/openclaw-opencoat-bridge/src/injector.ts:172-192 | the loop yields all rows, the last non-empty weave id and the last session among injections with rows, or nothing |
| `PromptFold.MergeAssociates` | integrations/openclaw-opencoat-bridge/src/injector.ts:172-192 | merging is associative |
| `PromptFold.NullIsNeutral` | integrations/openclaw-opencoat-bridge/src/injector.ts:172-192 | null is neutral on both sides, and a single injection is left as it is if and only if it is null or normalised and has rows |
| `PromptFold.MergeOfTwo` | integrations/openclaw-opencoat-bridge/src/injector.ts:172-192 | of two injections with rows, the rows follow one another, the later weave and session id win where there are any, and the host round is dropped |
| `PromptFold.FoldPromptInjection` | integrations/openclaw-opencoat-bridge/src/injector.ts:19-38 | the loop with its seen set yields the block of the first row of each key |
| `PromptFold.BlockGrows` | integrations/openclaw-opencoat-bridge/src/injector.ts:19-38 | the text of the block row by row: a row for the prompt in one of the eight modes that has not been said before adds its trimmed text under its heading after an empty line, every other row adds nothing |
| `PromptFold.KeptKeysAreDistinct` | integrations/openclaw-opencoat-bridge/src/injector.ts:28-30 | no key is folded in twice |
| `PromptFold.RepeatsFoldAway` | integrations/openclaw-opencoat-bridge/src/injector.ts:25-33 | rows that are already there change nothing |
| `PromptFold.AdviceIsKeptExactlyWhen` | integrations/openclaw-opencoat-bridge/src/injector.ts:28-30 | for a set of concern ids, no list of rows with these ids loses any advice if and only if no id, ended by a line feed, begins another |
| `PromptFold.InseparableLosesAdvice` | integrations/openclaw-opencoat-bridge/src/injector.ts:28-30 | for every two ids of which one, ended by a line feed, begins the other: two rows of these concerns fold into one |
| `PromptFold.PendingIsSince` | integrations/openclaw-opencoat-bridge/src/index.ts:100-110 | over every history a run's pending injection is the merge of what was remembered since its last take |
| `PromptFold.PendingStep` | integrations/openclaw-opencoat-bridge/src/index.ts:100-110 | remembering merges into what is pending for the run, taking leaves nothing pending for it, and neither touches another run |
| `PromptFold.PendingByRun.RememberInjection` | integrations/openclaw-opencoat-bridge/src/index.ts:100-104 | the Map update is one step of the history |
| `PromptFold.PendingByRun.TakePending` | integrations/openclaw-opencoat-bridge/src/index.ts:106-110 | taking yields the merge of everything since the last take and forgets it |
| `PromptFold.PendingByRun.FoldPrompt` | integrations/openclaw-opencoat-bridge/src/index.ts:251-261 | although the injection is remembered and merged again, the block is that of the pending rows with the injection once |
| `BridgeGuards.GuardToolCall` | integrations/openclaw-opencoat-bridge/src/injector.ts:47-82 | blocks on a blocking row with a tool target, joins the visible reasons in order, and hands back the parameters unchanged |
| `BridgeGuards.Veto` | integrations/openclaw-opencoat-bridge/src/injector.ts:107-128 | vetoes on any blocking row, with the joined reasons or the fallback text |
| `BridgeGuards.QueueBeforeEnqueue` | integrations/openclaw-opencoat-bridge/src/injector.ts:138-170 | the loop's decision is the row-by-row fold, with the reasons of all blocking rows |
| `BridgeGuards.QueuePromptIsTheLast` | integrations/openclaw-opencoat-bridge/src/injector.ts:146-164 | the last row that rewrites the queued prompt decides it |
| `BridgeGuards.VetoesAgree` | integrations/openclaw-opencoat-bridge/src/injector.ts:85-170 | messages, spawns and the queue are vetoed together, by a blocking row on any target, and a blocked tool call implies it |
| `BridgeGuards.ReasonExactlyWhen` | integrations/openclaw-opencoat-bridge/src/injector.ts:94-104 | there is a reason exactly when a counted row has visible text, and it is never empty |
| `BridgeGuards.ReasonGrows` | integrations/openclaw-opencoat-bridge/src/injector.ts:94-104 | the trimmed text of a counted row goes on a new line below the reason so far, and a row without visible text leaves no line |
| `BridgeGuards.QueueGrows` | integrations/openclaw-opencoat-bridge/src/injector.ts:138-170 | one more row with modes and targets spelled out: block on any target, a visible rewrite of the prompt or of the summary line under either name, nothing else |
| `BridgeGuards.BridgeAndHostAgree` | integrations/openclaw-opencoat-bridge/src/injector.ts:47-82 | the bridge and the Python host guard block the same calls, but for the bare target `tool_call` |
| `EnvFiles.EnvFile.Parse` | packages/opencoat-runtime/opencoat_runtime_cli/commands/configure_cmd.py:176-190 | the loop yields the first well-formed entry of every key; a missing file is empty |
| `EnvFiles.EnvFile.Write` | packages/opencoat-runtime/opencoat_runtime_cli/commands/configure_cmd.py:193-212 | the file's new text is the printed merge of its old entries and the non-empty updates |
| `EnvFiles.LinesTakesOne` | packages/opencoat-runtime/opencoat_runtime_cli/commands/configure_cmd.py:180-180 | `splitlines` takes one line and its end, which is CR LF or any other single line end |
| `EnvFiles.FirstLineWins` | packages/opencoat-runtime/opencoat_runtime_cli/commands/configure_cmd.py:180-189 | a key is read exactly when some line has an entry for it, and its value is that of the first such line |
| `EnvFiles.EntryOfLine` | packages/opencoat-runtime/opencoat_runtime_cli/commands/configure_cmd.py:180-189 | a printed line reads back as its key and the unquoted value |
| `EnvFiles.EntryExactly` | packages/opencoat-runtime/opencoat_runtime_cli/commands/configure_cmd.py:180-189 | a line has an entry if and only if, stripped, it is no comment and splits at its first equals sign into a name that is not blank and a value |
| `EnvFiles.UnquoteSpelled` | packages/opencoat-runtime/opencoat_runtime_cli/commands/configure_cmd.py:189-189 | blanks come off first, then double quotes, then single ones, and what is left between them is the value |
| `EnvFiles.EscapeByCharacter` | packages/opencoat-runtime/opencoat_runtime_cli/commands/configure_cmd.py:208-208 | the two replacements escape character by character |
| `EnvFiles.CleanExactly` | packages/opencoat-runtime/opencoat_runtime_cli/commands/configure_cmd.py:176-212 | one value, whatever its characters, survives the file if and only if it stands on one line and has no blank or quote at its ends |
| `EnvFiles.WriteThenParse` | packages/opencoat-runtime/opencoat_runtime_cli/commands/configure_cmd.py:176-212 | for updates with any values: parsing a written file yields the old entries overlaid with the non-empty updates, without the empty ones, if and only if every kept value is clean |
| `EnvRewrites.WrittenFile` | packages/opencoat-runtime/opencoat_runtime_cli/commands/configure_cmd.py:193-212 | a written file is the header and one line for every key with a value, in ascending order of the keys, each ended by a line feed |
| `EnvRewrites.SecondWriteIsStill` | packages/opencoat-runtime/opencoat_runtime_cli/commands/configure_cmd.py:193-212 | for updates with any values: writing the same updates again leaves the text unchanged if and only if, for every key they do not touch, the value read back is the value printed, fragments of cut values included |
| `EnvRewrites.OrdinaryWriteIsStill` | packages/opencoat-runtime/opencoat_runtime_cli/commands/configure_cmd.py:193-212 | for updates without other line ends: unchanged if and only if every entry the updates do not touch is clean |
| `EnvRewrites.SeparatorInjectsEntry` | packages/opencoat-runtime/opencoat_runtime_cli/commands/configure_cmd.py:203-210 | a value with a line end that the printer leaves alone is cut there, and what follows can be read as another key's entry |
| `EnvRewrites.SeparatorWitness` | packages/opencoat-runtime/opencoat_runtime_cli/commands/configure_cmd.py:203-210 | such an update, with a line separator |
| `EnvRewrites.NestedQuotesMove` | packages/opencoat-runtime/opencoat_runtime_cli/commands/configure_cmd.py:189-209 | a file with a value in nested quotes, on which two writes without updates differ |
| `EnvRewrites.PrintedAlike` | packages/opencoat-runtime/opencoat_runtime_cli/commands/configure_cmd.py:203-210 | two environments have the same text if and only if they print the same for every key |
| `ModelOrder.SortModelIds` | packages/opencoat-runtime/opencoat_runtime_cli/commands/configure_cmd.py:259-267 | the loop yields the offered candidates, each where it first occurs |
| `ModelOrder.OfferedExactlyOnce` | packages/opencoat-runtime/opencoat_runtime_cli/commands/configure_cmd.py:259-267 | every id is offered exactly once and nothing else is: first the picks that are listed, then the others strictly sorted |
| `ModelOrder.OfferedByFirstPlace` | packages/opencoat-runtime/opencoat_runtime_cli/commands/configure_cmd.py:259-267 | of two offered ids the one that occurs first among the candidates comes first |
| `ModelOrder.ListingOrderIsIrrelevant` | packages/opencoat-runtime/opencoat_runtime_cli/commands/configure_cmd.py:259-267 | order and repetitions of the listed ids do not show |
| `DcnDot.QuoteIsOnePass` | packages/opencoat-runtime/opencoat_runtime_cli/visualize/dcn_dot.py:28-31 | the three replacements escape character by character: none touches what an earlier one put in |
| `DcnDot.ReadQuotedOfQuote` | packages/opencoat-runtime/opencoat_runtime_cli/visualize/dcn_dot.py:28-31 | a quoted text is read back whole whatever follows it |
| `DcnDot.NodeIdsAreInjective` | packages/opencoat-runtime/opencoat_runtime_cli/visualize/dcn_dot.py:34-49 | two node ids are equal only for the same node; concerns and joinpoints never share one |
| `DcnDot.ReadOfRender` | packages/opencoat-runtime/opencoat_runtime_cli/visualize/dcn_dot.py:83-112 | every printed node and edge line reads back as itself |
| `DcnDot.RenderIsOneLine` | packages/opencoat-runtime/opencoat_runtime_cli/visualize/dcn_dot.py:83-112 | no label or id breaks its line |
| `DcnDot.AddActivations` | packages/opencoat-runtime/opencoat_runtime_cli/visualize/dcn_dot.py:90-107 | the loop's lines, indexes, counts and key order are those of the row-by-row graph |
| `DcnDot.GraphCounts` | packages/opencoat-runtime/opencoat_runtime_cli/visualize/dcn_dot.py:91-107 | the dict counts exactly the pairs that occur, each as often as it does, in order of first occurrence |
| `DcnDot.DcnToDot` | packages/opencoat-runtime/opencoat_runtime_cli/visualize/dcn_dot.py:52-115 | the drawing is one line for each declaration and edge, between its fixed frame, and reading its lines yields exactly these statements |
| `DcnDot.ReadOfDrawing` | packages/opencoat-runtime/opencoat_runtime_cli/visualize/dcn_dot.py:52-115 | for every list of statements, splitting the drawing at line feeds and reading the lines gives the list back, in order |
| `DcnDot.DeclaredExactlyOnce` | packages/opencoat-runtime/opencoat_runtime_cli/visualize/dcn_dot.py:78-106 | the declared nodes are those of the snapshot and of the usable activations, each declared once if and only if no concern id repeats |
| `DcnDot.NodesExactly` | packages/opencoat-runtime/opencoat_runtime_cli/visualize/dcn_dot.py:78-106 | the declared nodes with style and caption, both ways: boxes with name or id and state, dashed stubs for concerns that only an activation names, ovals for joinpoints |
| `DcnDot.EdgesExactly` | packages/opencoat-runtime/opencoat_runtime_cli/visualize/dcn_dot.py:107-112 | the edges with their labels, both ways, the label being the multiplicity of the activation when it is more than one |
| `DcnDot.PlainNodes` | packages/opencoat-runtime/opencoat_runtime_cli/visualize/dcn_dot.py:78-106 | the printed nodes for names and captions with nothing to escape |
| `DcnDot.PlainEdges` | packages/opencoat-runtime/opencoat_runtime_cli/visualize/dcn_dot.py:109-112 | the printed edges for names with nothing to escape |
| `DcnDot.EdgesAreThePairs` | packages/opencoat-runtime/opencoat_runtime_cli/visualize/dcn_dot.py:107-112 | there is exactly one edge for every pair that occurs, weighted by its count, with both ends declared |
| `DcnDot.EdgesAreSorted` | packages/opencoat-runtime/opencoat_runtime_cli/visualize/dcn_dot.py:109-109 | the edges come sorted by joinpoint and then by concern |
| `DcnDot.WeightsSumToActivations` | packages/opencoat-runtime/opencoat_runtime_cli/visualize/dcn_dot.py:107-112 | the weights of all edges add up to the activations with both ids |
| `Extractor.SplitListItems` | packages/opencoat-runtime/opencoat_runtime_core/concern/extractor.py:644-661 | the cursor loop cuts the paragraph at its markers |
| `Extractor.PiecesConcatenateBack` | packages/opencoat-runtime/opencoat_runtime_core/concern/extractor.py:644-661 | the pieces concatenate back to the paragraph |
| `Extractor.PiecesStartAtMarkers` | packages/opencoat-runtime/opencoat_runtime_core/concern/extractor.py:644-661 | a paragraph is cut at every marker and nowhere else, and no piece is empty |
| `ListMarkers.MarkersAreExact` | packages/opencoat-runtime/opencoat_runtime_core/concern/extractor.py:241-241 | the positions found are exactly the leftmost matches of the list-marker expression, each search beginning behind the match before |
| `ListMarkers.MarkersAreFound` | packages/opencoat-runtime/opencoat_runtime_core/concern/extractor.py:651-651 | they increase inside the paragraph, so the results on the segmenter hold for them |
| `ListMarkers.MarkerExactly` | packages/opencoat-runtime/opencoat_runtime_core/concern/extractor.py:241-241 | a marker is found at a place if and only if the text there is the start of a line, blanks, a sign (dash, star, bullet, `1.`, `1)` or `(1)`) and blanks, and it ends with them |
| `ListMarkers.SignedLineIsCut` | packages/opencoat-runtime/opencoat_runtime_core/concern/extractor.py:644-661 | every line that begins with a sign and a blank is cut at, together with the blank lines before it |
| `Extractor.LineFeedsIsOnePass` | packages/opencoat-runtime/opencoat_runtime_core/concern/extractor.py:558-558 | the two replacements turn each line end, taken whole, into one line feed and leave no carriage return |
| `Extractor.ParagraphsAreCutAtBlankLines` | packages/opencoat-runtime/opencoat_runtime_core/concern/extractor.py:561-561 | the text is cut at every blank-line match and nowhere else |
| `Extractor.BlankLineExactly` | packages/opencoat-runtime/opencoat_runtime_core/concern/extractor.py:240-240 | a paragraph break is a line feed, spaces and tabs, and all the line feeds that follow, and nothing else is |
| `Extractor.SegmentSpans` | packages/opencoat-runtime/opencoat_runtime_core/concern/extractor.py:538-568 | the nested loops yield the texts of the span ranges |
| `Extractor.SpansAreDisjointSubstrings` | packages/opencoat-runtime/opencoat_runtime_core/concern/extractor.py:538-568 | spans are stripped, long enough, disjoint substrings of the normalised text, in its order |
| `Extractor.OnlyShortPiecesAreDropped` | packages/opencoat-runtime/opencoat_runtime_core/concern/extractor.py:538-568 | every character that is not blank is in a piece, and in a span unless its stripped piece is too short |
| `Extraction.Extract` | packages/opencoat-runtime/opencoat_runtime_core/concern/extractor.py:470-536 | candidates and rejections are those of the processed spans' outcomes, in span order |
| `Extraction.ExtractText` | packages/opencoat-runtime/opencoat_runtime_core/concern/extractor.py:470-536 | the whole call: segmentation and then the loop over the spans |
| `Extraction.EverySpanIsAccountedFor` | packages/opencoat-runtime/opencoat_runtime_core/concern/extractor.py:478-536 | processed spans are candidates, rejections or silent skips; the cap holds; stopping early means the cap was reached |
| `Extraction.OutcomesFollowSpans` | packages/opencoat-runtime/opencoat_runtime_core/concern/extractor.py:483-534 | the n-th outcome judges the n-th span's reply against the keys accepted before it |
| `Extraction.OutcomesExactly` | packages/opencoat-runtime/opencoat_runtime_core/concern/extractor.py:483-534 | what becomes of each span, reply by reply: silence for an empty record, its own reason for a failed call, a reply that is no record, an invalid record and a repetition, and acceptance otherwise |
| `Extraction.CandidatesAreDistinct` | packages/opencoat-runtime/opencoat_runtime_core/concern/extractor.py:529-534 | candidates have pairwise distinct normalised keys |
| `Extraction.ValidConcernsAreRepresented` | packages/opencoat-runtime/opencoat_runtime_core/concern/extractor.py:523-534 | every valid concern of a processed span is a candidate or has the key of one |
| `Extraction.StampedProvenance` | packages/opencoat-runtime/opencoat_runtime_core/concern/extractor.py:570-604 | the source of a stamped record is the host's and never the model's, and is absent exactly when the name is unusable; a usable emitted id is kept |
| `Extraction.StampedDefaults` | packages/opencoat-runtime/opencoat_runtime_core/concern/extractor.py:577-590 | a missing kind or schema version is filled in, and the source is stamped exactly when there is a usable name |
| `Pointcuts.ParsePointcutExpression` | packages/opencoat-runtime-protocol/opencoat_runtime_protocol/aop.py:38-68 | the nested loops over the parts and the matches of both regular expressions yield the joinpoints and keywords of the expression |
| `Pointcuts.ParseOfAnd` | packages/opencoat-runtime-protocol/opencoat_runtime_protocol/aop.py:45-68 | parsing is a homomorphism for every two expressions: `a&&b` has the joinpoints and the keywords of `a` and then those of `b` |
| `Pointcuts.ParseOfBlanks` | packages/opencoat-runtime-protocol/opencoat_runtime_protocol/aop.py:47-55 | blanks around an expression, and so around `&&`, do not matter |
| `PointcutForms.TextReadExactlyWhen` | packages/opencoat-runtime-protocol/opencoat_runtime_protocol/aop.py:47-65 | for every text: the keywords read from `name() && args("text")` are the texts between its commas, stripped and not blank, if and only if it is not empty and holds neither a double quote nor `&&` |
| `PointcutForms.KeywordsReadBackExactlyWhen` | packages/opencoat-runtime-protocol/opencoat_runtime_protocol/aop.py:47-65 | for every list of keywords: printed between quotes and commas they are read back if and only if each is stripped, not empty and without a comma, and the joined text holds neither a double quote nor `&&` |
| `PointcutForms.ReadKeywordsArePlain` | packages/opencoat-runtime-protocol/opencoat_runtime_protocol/aop.py:54-65 | no expression whatever yields a keyword that is blank, not stripped, or holds a comma or `&&` |
| `PointcutForms.JoinedCommandIsNeverRead` | packages/opencoat-runtime-protocol/opencoat_runtime_protocol/aop.py:54-65 | a guard for two shell commands joined by `&&` is read from no expression, plain as its keyword is |
| `PointcutCalls.JoinpointsExactly` | packages/opencoat-runtime-protocol/opencoat_runtime_protocol/aop.py:54-60 | for every expression: its joinpoints are exactly the names, but for the reserved ones, of the calls that begin anywhere in it, inside quotes or not |
| `PointcutForms.JoinpointsOfPrinted` | packages/opencoat-runtime-protocol/opencoat_runtime_protocol/aop.py:54-60 | whatever the quoted text: the joinpoints of the documented form are its name and then those of the text |
| `PointcutForms.NameIsOnlyJoinpointExactlyWhen` | packages/opencoat-runtime-protocol/opencoat_runtime_protocol/aop.py:57-60 | quoted text adds no joinpoint if and only if every call that begins in it has a reserved name |
| `PointcutForms.KeywordTakenForJoinpoint` | packages/opencoat-runtime-protocol/opencoat_runtime_protocol/aop.py:57-60 | in particular a keyword that is itself a call adds a joinpoint |
| `PointcutRegexes.CallExactly` | packages/opencoat-runtime-protocol/opencoat_runtime_protocol/aop.py:38-38 | the first expression matches at the front of a text if and only if the text is a name, blanks, an opening parenthesis, blanks, a closing one, and a rest |
| `PointcutRegexes.QuotedArgumentIsRead` | packages/opencoat-runtime-protocol/opencoat_runtime_protocol/aop.py:39-42 | the second expression takes a text in either kind of quotes whole, with blanks wherever they are allowed |
| `PointcutRegexes.BareArgumentIsRead` | packages/opencoat-runtime-protocol/opencoat_runtime_protocol/aop.py:39-42 | and a text without quotes up to the parenthesis |
| `ConcernPointcuts.PrimaryJoinpoints` | packages/opencoat-runtime-protocol/opencoat_runtime_protocol/aop.py:71-87 | for a concern without a legacy pointcut: the joinpoints of its first definition win, and without them they are exactly the unreserved calls that begin in its expression |
| `ConcernPointcuts.PrimaryMatch` | packages/opencoat-runtime-protocol/opencoat_runtime_protocol/aop.py:71-87 | its own match wins, and without one there is a match exactly when its expression has keywords, with just these |
| `ConcernPointcuts.PrimaryIsStored` | packages/opencoat-runtime-protocol/opencoat_runtime_protocol/aop.py:172-209 | construction stores the pointcut that the matcher takes from the lists, when there is no legacy field |
| `ConcernPointcuts.DocumentedPointcut` | packages/opencoat-runtime-protocol/opencoat_runtime_protocol/aop.py:38-87 | for the documented form the pointcut carries exactly the given keywords if and only if each is plain and the joined text can be quoted, and its joinpoints begin with the given name |
| `ConcernPointcuts.ExpressionGuardDenies` | packages/opencoat-runtime-protocol/opencoat_runtime_protocol/envelopes.py:429-445 | end to end: a tool guard that only says `before_tool_call() && args(...)`, once constructed, exported and assembled, denies every call whose serialised arguments hold one of the keywords |
| `ConcernPointcuts.ConstructionWidensToolGuards` | packages/opencoat-runtime-protocol/opencoat_runtime_protocol/aop.py:172-200 | a record with one advice blocks tool calls as written if and only if its tool guard aims at them, and as constructed whatever it aims at |
| `Pointcuts.JoinOfSplitAnd` | packages/opencoat-runtime-protocol/opencoat_runtime_protocol/aop.py:54-54 | splitting at `&&` loses nothing |
| `Strings.SplitOnSplits` | packages/opencoat-runtime-protocol/opencoat_runtime_protocol/aop.py:64-65 | the texts between commas hold no comma and join back to the whole |
| `Aop.LegacyToAopLists` | packages/opencoat-runtime-protocol/opencoat_runtime_protocol/aop.py:103-143 | the lists built from the legacy fields, with a precedence for each declaring relation |
| `Aop.LegacyRoundTrip` | packages/opencoat-runtime-protocol/opencoat_runtime_protocol/aop.py:103-169 | pointcut and advice come back from the lists unchanged, and the weaving policy if and only if an advice carries it or there is none |
| `Aop.SyncFillsLists` | packages/opencoat-runtime-protocol/opencoat_runtime_protocol/aop.py:88-143 | legacy fields become one definition and one advice that refers to it, of the kind that its type calls for |
| `Aop.SyncDeclaresPrecedence` | packages/opencoat-runtime-protocol/opencoat_runtime_protocol/aop.py:139-143 | declarations of its own stay, and without any each relation that declares precedence becomes one |
| `Aop.SyncFillsAdvice` | packages/opencoat-runtime-protocol/opencoat_runtime_protocol/aop.py:146-200 | the first advice of the lists becomes the legacy one, of its own type or else a response requirement, and its effect the weaving policy |
| `Aop.SyncIsIdempotent` | packages/opencoat-runtime-protocol/opencoat_runtime_protocol/aop.py:172-200 | synchronising twice is synchronising once |
| `Aop.SyncKeepsPrimaries` | packages/opencoat-runtime-protocol/opencoat_runtime_protocol/aop.py:172-226 | synchronising changes neither the primary pointcut nor the primary advice; what the pointcut is follows from `ConcernPointcuts.PrimaryJoinpoints` and `ConcernPointcuts.PrimaryMatch` |
| `Aop.SyncKeepsWeavingExactlyWhen` | packages/opencoat-runtime-protocol/opencoat_runtime_protocol/aop.py:172-234 | the primary weaving policy changes exactly for a lists-only concern whose own policy disagrees with its first advice's effect |
| `ConcernBuilder.EnrichFillsGapsOnly` | packages/opencoat-runtime/opencoat_runtime_core/concern/builder.py:49-113 | completing a candidate overwrites nothing that is set, the match and the context predicates of a pointcut without joinpoints included, leaves a complete one alone, and is idempotent |
| `ConcernBuilder.GapsAreFilledFrom` | packages/opencoat-runtime/opencoat_runtime_core/concern/builder.py:49-113 | what the gaps are filled with: joinpoints by name and keywords, an advice that says the description or else the name, and the weaving defaults of its type |
| `ConcernBuilder.Builder.Enrich` | packages/opencoat-runtime/opencoat_runtime_core/concern/builder.py:49-113 | the branch-by-branch updates give the completed record |
| `ConcernBuilder.Builder.BuildOrUpdate` | packages/opencoat-runtime/opencoat_runtime_core/concern/builder.py:115-127 | the stored record is the completed one merged over the existing one, with its times |
| `ConcernBuilder.NothingStoredIsLost` | packages/opencoat-runtime/opencoat_runtime_core/concern/builder.py:152-177 | over every run stored pointcut, advice, weaving policy, creation time, scope and settled lifecycle never change |
| `ConcernBuilder.DeletedIsRevived` | packages/opencoat-runtime/opencoat_runtime_core/concern/builder.py:152-177 | a stored concern that is deleted or was only created takes the lifecycle of the next candidate |
| `ConcernBuilder.FirstCallDecides` | packages/opencoat-runtime/opencoat_runtime_core/concern/builder.py:115-177 | over every run the first call for a new id decides all of these for good |
| `ConcernBuilder.ListsComeFromTheLastCandidate` | packages/opencoat-runtime/opencoat_runtime_core/concern/builder.py:115-177 | over every run the stored pointcut and advice lists and the descriptive fields are those of the last candidate with the id, whatever was stored before |
| `PidFiles.PidFile.Acquire` | packages/opencoat-runtime/opencoat_runtime_daemon/_pidfile.py:76-101 | acquiring changes file and ownership as one step of the machine, or fails and changes nothing |
| `PidFiles.PidFile.Release` | packages/opencoat-runtime/opencoat_runtime_daemon/_pidfile.py:103-114 | releasing gives up ownership and removes the file only if it records this PID |
| `PidFiles.AlwaysSingleOwner` | packages/opencoat-runtime/opencoat_runtime_daemon/_pidfile.py:76-114 | over every run of starts, crashes, acquisitions and releases at most one object of a live process owns the path, and the file records its PID |
| `PidFiles.AcquiresExactlyWhen` | packages/opencoat-runtime/opencoat_runtime_daemon/_pidfile.py:76-101 | an acquisition succeeds if and only if the object owns the path already or no live process is recorded |
| `PidFiles.ReleaseRemovesOwnFileOnly` | packages/opencoat-runtime/opencoat_runtime_daemon/_pidfile.py:103-114 | a release removes the file exactly for the owner, and never a file that records another PID |
| `PidFiles.RefusedThoughFreeExactlyWhen` | packages/opencoat-runtime/opencoat_runtime_daemon/_pidfile.py:83-92 | while nobody owns the path an object is refused exactly when a live process's PID is recorded |
| `PidFiles.ReusedPidIsRefused` | packages/opencoat-runtime/opencoat_runtime_daemon/_pidfile.py:83-92 | after a crash a process that is given the dead owner's PID is refused |

## Left out

- Host string orders and texts: `localeCompare`, `<=`, `serializeArgs`, `JSON.stringify`, `toLowerCase` and `str` of a
  count are parameters, and the order of JavaScript object keys is not modelled (objects are maps).
- Characters are Unicode scalar values; UTF-16 surrogate halves do not occur.
- Python's and JavaScript's sorts are modelled by a stable insertion sort.
- Host contexts are trees: two paths never lead to the same dict, and `deepcopy` is a copy of the tree.
- ReflexMonitors.Mediate: the decision in the record is its rank; the host's `raw` field of an action is not looked into.
- ReflexPipeline.MonitorDecidesWhatConcernsMean: inline specs and the demonstration policy are not part of the pipeline
  that is modelled.
- EnvFiles.EnvFile.Write: the wording of the three comment lines is a parameter, of which only the leading `#` and the
  absence of line breaks matter; creating the directory and restricting file permissions are not modelled.
- EnvFiles.WriteThenParse: keys of updates are assumed well-formed, as the wizard's own are; their values are arbitrary.
- Extractor.SegmentSpans: list markers are any increasing positions inside the paragraph, of which the source's expression
  is one case; which characters are decimal digits is a parameter of that case.
- Extraction.Extract: the model call, record validation, id minting, lower-casing and the shortening of spans for
  reports are parameters.
- ConcernBuilder.Builder.Enrich: the template tables that choose activation, keywords, weaving defaults, longevity and the
  scope record are parameters.
- PidFiles.AlwaysSingleOwner: acquiring and releasing are single steps; interleavings between opening, reading, unlinking
  and writing, and other programs that touch the file, are not modelled.
- InstalledHooks.Hooks.ApplyTo: event payload shaping, envelope building and `uninstall` are not part of this model.
- RuntimeObservers.Observers.OnAgentEvent: payloads of the emitted joinpoints, the polling timer and the session-key set
  for agent events are not modelled.
- HTTP clients, JSON-RPC, fetching the export, audit emission and the `tool_guard` case of `handleHook`: I/O.
- Matcher, weaver, coordinator, credit, plasticity, stores and language-model adapters.
- Bridge banner, configuration parsing and payload shaping: single-branch code that would only add easy members.
