# Hypringo, modelled in Dafny

Hypringo is a daemon that keeps one state tree, fed by source services, and serves it over a
control socket. This project models its hard parts and proves what they are for. Check it with
`dafny verify dfyconfig.toml`.

The modules follow the program:

- **Lua tables and JSON** (`LuaHeap`, `LuaMemory`, `JsonTree`, `JsonEncode`, `JsonMeaning`,
  `JsonErrors`, `JsonDecode`, `JsonRoundTrip`): a heap of table identities with sharing and
  cycles, the encoder with its visiting set, the decoder, and both round trips. `json.null` is a table with a
  metatable (identity 0), as it is in the program; the weak registry of arrays is the mark of a
  table. Any order in which `lua_next` or `pairs` may go is allowed: loops pick an arbitrary
  remaining key.
- **Configuration check** (`ConfigValidate`): the white, grey and black traversal.
- **State reducer** (`StateTree`, `StateEqual`, `StateCopy`, `StateNulls`, `StateReducer`,
  `StateMerge`): deep equality with its optimistic memo, copying, and `merge`, first on trees and
  then on the heap.
- **Reload** (`ConfigReload`, `ReloadProtocol`, `ReloadRuns`): compatibility, one reload as a
  method, and all runs in which other messages interleave with a waiting reload.
- **Actions** (`Decimal`, `Actions`, `ControlFraming`, `ControlRing`, `ActionPipeline`,
  `ActionService`): printing, byte framing, the queue, and parsing, joined into one statement, and
  the loop that serves the queue.
- **Control server** (`ControlTable`, `ControlSend`, `ControlProtocol`, `ControlRuns`,
  `ControlExample`, `StatePublish`): the client array, sending in pieces, the two threads as
  interleaved steps, one per lock or system call, and the order in which the state service
  publishes.
- **Remote sources** (`RemoteDelay`, `GithubSource`, `GithubRuns`, `HttpResponse`, `HttpMeaning`,
  `HttpBuffer`, `HyprlandEvents`): backoff, the cached GitHub source over all runs, the response
  buffer, and the event lines.

Code that changes things in place is a class or a method with loops, proved against a
specification function or predicate; the laws are lemmas about that specification. Strings are
sequences of characters, one per byte. Lua integers wrap at 64 bits where the code multiplies
without a check.

Lemmas whose names end in `Meaning` say what the basic functions and predicates decide without
naming them: letters, digits, names, texts and numbers written out.

Inputs from outside are parameters: what `recv`, `accept`, `poll` and `send` return, in which order
threads run, what an HTTP call answers, the clock, the environment, how a source answers a reload.

## What the code does not do

Some properties one would expect hold only under a condition. Each is stated as an equivalence
or with a concrete counterexample.

- `equal` decides bisimilarity. Acyclic values have the same tree iff it answers true and the tree
  holds no NaN (`StateEqual.SameTreeIff`): a table holding NaN equals itself by identity
  (`StateEqual.IdentityHidesNaN`).
- `json.null` equals exactly the unmarked empty tables (`StateEqual.NullEqualsEmptyTables`), and is
  copied as one: a copy encodes as the original did iff there is no null in it
  (`StateNulls.CopyKeepsEncodingIff`).
- `merge` is idempotent iff the patch holds no NaN (`StateReducer.MergeIsIdempotent`).
- A patch with a cyclic field raises an error after earlier fields were written, without counting
  a revision (`StateReducer.PartialMerge`, `StateReducer.UncountedChangeIffCyclic`).
- The decoder counts leaves as levels and the encoder does not, so some encodings cannot be
  decoded (`JsonRoundTrip.EncodeThenDecode`, `JsonRoundTrip.LeafAtDepth256IsEncodedButNotDecoded`).
- A Retry-After or poll interval whose milliseconds do not fit 64 bits wraps around and can be lost
  (`RemoteDelay.RetryAfterHonouredIff`, `RemoteDelay.RetryAfterOverflowIsLost`,
  `RemoteDelay.PollIntervalHonouredIff`).
- `parse` raises instead of rejecting when a number needs more than 64 bits (`Actions.RaisesIff`),
  and the pop loop does not catch it: the loop serves all commands iff none raises
  (`ActionService.ServesAllIffNoneRaises`), and one line ends it (`ActionService.OneLineEndsTheLoop`).
  No accepted argument list leads there (`ActionService.CommandLineNeverKills`).
- The notifications can outnumber `max_items` after it was lowered: they are within it iff the
  last fetch, cut at the limit of its own time, is (`GithubRuns.ShownWithinLimitIff`,
  `GithubRuns.ListOutgrowsTheLimit`).

Revisions in the payloads of a subscriber are in order because the state service publishes its
states in order (`StatePublish.PublishingKeepsOrder`); the control server itself orders
publications only.

## Model

| member | source | states |
|---|---|---|
| JsonEncode.PigeonholeKeys | src/json.c:124-144 | n distinct integer keys whose largest is n are exactly 1..n, so counting the keys and tracking the maximum decides density |
| JsonEncode.DenseLengthIsUnique | src/json.c:144-151 | a table is dense up to one length only |
| JsonEncode.CountDecidesShape | src/json.c:144-151 | whatever the visiting order, the counters at the end of the loop give exactly the shape of the key set: an array iff marked, or non-empty with keys 1..n; a marked table with other keys is refused |
| JsonEncode.EncodeContext.EnterTable | src/json.c:85-101 | fails exactly on a table already being visited, otherwise adds it to the visiting set |
| JsonEncode.EncodeContext.LeaveTable | src/json.c:103-110 | removes the table from the visiting set and changes nothing else |
| JsonEncode.TableShape | src/json.c:112-152 | the loop over the keys, in any order, computes the shape of the key set |
| JsonEncode.EncodeContext.EncodeValue | src/json.c:301-330 | returns what the specification of the encoder says of the heap, and leaves the visiting set as it was on success and on every error |
| JsonEncode.EncodeContext.EncodeTable | src/json.c:276-299 | the same for a table, with the depth limit checked before the cycle check and the visiting set restored on all paths; the recursion terminates on cyclic heaps |
| JsonEncode.EncodeContext.EncodeArray | src/json.c:176-200 | items in index order; the first error ends the loop |
| JsonEncode.EncodeContext.CollectObjectKeys | src/json.c:202-236 | all keys, sorted bytewise, whatever the visiting order; refused iff some key is not a string |
| JsonEncode.EncodeContext.EncodeObject | src/json.c:238-274 | members in ascending key order; the first error ends the loop |
| JsonEncode.UnfoldingIsUnique | src/json.c:276-330 | a value has at most one tree unfolding |
| JsonErrors.LeafErrors | src/json.c:301-330 | which values that are no tables fail, and with which error |
| JsonErrors.TableErrors | src/json.c:276-299 | which error a table itself gives: depth before cycle, shape before keys |
| JsonErrors.ArrayError | src/json.c:176-200 | the error of an array is that of its first failing item, all earlier ones being in order |
| JsonErrors.ObjectError | src/json.c:238-274 | the error of an object is that of its first failing member in key order |
| JsonMeaning.EncodeIsSound | src/json.c:276-330 | when encoding succeeds its result is the tree unfolding of the value, shared tables repeated, within the depth limit |
| JsonMeaning.EncodeIsComplete | src/json.c:276-330 | a value that has an unfolding of at most the remaining levels is encoded to it, whatever is being visited above |
| JsonMeaning.EncodeIsUnfolding | src/json.c:276-330 | for every finite heap: encoding a value succeeds with tree j if and only if j is its unfolding and j nests at most 256 tables |
| JsonMeaning.CycleIsRefused | src/json.c:85-101 | a value from which a cycle can be reached through encodable tables is never encoded |
| JsonMeaning.UnfoldingAlongPath | src/json.c:276-299 | every table on a path from an unfolded value has a smaller unfolding |
| JsonMeaning.EncodingIsCanonical | src/json.c:202-274 | two tables with equal contents, in any heaps, encode to the same result |
| JsonTree.CompareIsLexicographic | src/json.c:154-170 | the comparison is the strict bytewise lexicographic order, zero only on equal keys |
| JsonTree.BeforeIsTransitive | src/json.c:154-170 | the key order is transitive |
| JsonTree.BeforeIsTotal | src/json.c:154-170 | two different keys are ordered one way |
| JsonTree.SortIsAscending | src/json.c:231-233 | sorting distinct keys gives strictly ascending ones, the same ones |
| JsonTree.AscendingIsUnique | src/json.c:231-233 | there is only one ascending arrangement of a set of keys |
| JsonDecode.DecodeValue | src/json.c:370-439 | succeeds iff every value of the document, leaves included, is at depth at most 255; builds fresh tables that unfold to the normal form of the document and changes no other table |
| JsonDecode.DecodeArray | src/json.c:406-420 | a marked table with the decoded items at 1..n |
| JsonDecode.DecodeObject | src/json.c:421-436 | a table with one entry per distinct name, the last one of duplicates |
| JsonDecode.NearestDoubleMeaning | src/json.c:389-396 | integers from 2^63 on become the nearest double, the even one of two equally near |
| JsonRoundTrip.LastOccurrenceWins | src/json.c:427-434 | the value kept for a name is that of its last member |
| JsonRoundTrip.CanonicalIsNormal | src/json.c:370-439 | a document with sorted distinct names and 64-bit integers is its own normal form |
| JsonRoundTrip.UnfoldingIsCanonical | src/json.c:202-330 | what the encoder emits is always of that kind |
| JsonRoundTrip.NormalizeKeepsDepth | src/json.c:370-439 | normalising never deepens a document |
| JsonRoundTrip.DecodedEncodesToNormalForm | src/json.c:301-330 | encoding the result of decoding never fails and gives the normal form |
| JsonRoundTrip.DecodeThenEncode | src/json.c:301-439 | encode(decode(j)), as one method: fails iff decoding does, otherwise is j with names sorted, last duplicates kept and integers above 2^63-1 turned into reals |
| JsonRoundTrip.EncodedDecodesToAlike | src/json.c:301-439 | a value and the decoded form of its encoding have equal leaves and key sets throughout, and equal array marks except on non-empty tables with keys 1..n |
| JsonRoundTrip.EncodeThenDecode | src/json.c:301-439 | decode(encode(v)), as one method, for every value: succeeds iff v unfolds to a tree with every value, leaves included, at depth at most 255, and then gives a value alike to v; refused in encoding iff it has no unfolding of at most 256 nested tables |
| JsonRoundTrip.LeafAtDepth256IsEncodedButNotDecoded | src/json.c:278-282 | a chain of 256 tables with a leaf inside encodes, and its encoding does not decode |
| ConfigValidate.PathLowersRank | src/lualib/config.lua:148-161 | along every path of validated tables the order of validation strictly falls |
| ConfigValidate.FinishedIsAcceptable | src/lualib/config.lua:134-162 | the validated tables form a closed acyclic subgraph of plain tables |
| ConfigValidate.GreyMeansRepeat | src/lualib/config.lua:145-147 | meeting a grey table is a real cycle |
| ConfigValidate.PlainKeyMeaning | src/lualib/config.lua:154-157 | keys other than booleans and objects are allowed |
| ConfigValidate.Validator.ValidateValue | src/lualib/config.lua:134-147 | success leaves the value acceptable with the grey set unchanged; refusal is witnessed by a path; termination by the shrinking set of unvisited tables |
| ConfigValidate.Validator.ValidateTable | src/lualib/config.lua:148-161 | the loop over the entries of a table: grey during, black after |
| ConfigValidate.Validator.Validate | src/lualib/config.lua:320 | with empty sets: accepts exactly the values from which everything reachable is serializable, without metatable, keyed by strings or numbers, and acyclic |
| StateTree.TreeIsUnique | src/lualib/state.lua:25-67 | an acyclic value denotes one tree |
| LuaHeap.RawEqualMeaning | src/lualib/state.lua:41-44 | when two leaves are equal: the same nil, boolean, string or object, or two numbers of equal mathematical value, neither NaN |
| StateTree.SameAsItself | src/lualib/state.lua:42 | a tree is the same as itself iff it holds no NaN |
| StateTree.SameTreeMeaning | src/lualib/state.lua:41-67 | two trees are the same iff on every path of keys both show nothing, tables of the same array mark, or equal leaves |
| StateTree.BisimilarTreesAreSame | src/lualib/state.lua:41-67 | bisimilar acyclic values have the same trees when the left tree holds no NaN |
| StateTree.BisimilarApartIsNaNFree | src/lualib/state.lua:41-67 | bisimilar values in two parts of the heap hold no NaN when no table of both parts does |
| StateTree.SameTreesAreBisimilar | src/lualib/state.lua:41-67 | values with the same tree are bisimilar |
| StateTree.BisimilarToTreeHasTree | src/lualib/state.lua:41-67 | only an acyclic value is bisimilar to an acyclic one |
| StateEqual.Comparison.Equal | src/lualib/state.lua:41-67 | with a memo: true means related by the pairs assumed so far, each new one justified; false means not bisimilar; the memo only grows |
| StateEqual.Comparison.EqualContents | src/lualib/state.lua:56-66 | both loops, over the keys of either table, in any order |
| StateEqual.Comparison.Compare | src/lualib/state.lua:203 | with an empty memo, on any heap, cyclic ones too: true iff the two values are bisimilar |
| StateEqual.SameTreeIff | src/lualib/state.lua:41-67 | what the comparison decides on acyclic values, exactly: the trees are the same, array mark included, iff it answers true and the tree holds no NaN |
| StateEqual.BisimilarIsSameTree | src/lualib/state.lua:41-67 | so between two parts of the heap that share no table with a NaN below it, disjoint ones in particular, it decides sameness of trees |
| StateEqual.IdentityHidesNaN | src/lualib/state.lua:42-44 | the exception is real: a table holding NaN equals itself by identity although its tree is not the same as itself |
| StateEqual.NullEqualsEmptyTables | src/lualib/state.lua:41-67 | `json.null` equals a table iff that is empty and not marked as an array |
| StateCopy.CopyContext.Copy | src/lualib/state.lua:25-39 | fails iff the value is cyclic; otherwise gives fresh tables that denote the same tree and restores the visiting set |
| StateCopy.CopyContext.CopyTable | src/lualib/state.lua:32-38 | the same for a table, entry by entry in any order |
| StateCopy.CopyValue | src/lualib/state.lua:204 | with an empty visiting set: succeeds iff the value is acyclic, and shares no table with it |
| StateNulls.CopyUnfolds | src/lualib/state.lua:25-39 | a copy unfolds to the document of the original with an empty object for each null |
| StateNulls.CopyKeepsEncodingIff | src/lualib/state.lua:25-39 | a copy encodes to what the original encodes to iff no null is in it; otherwise each null becomes an empty object |
| StateReducer.MergeIsOverride | src/lualib/state.lua:198-207 | on an acyclic patch the outcome is the field-wise override, whatever order `pairs` takes, reported as a change iff some field was not already the same |
| StateReducer.MergeShowsPatch | src/lualib/state.lua:198-211 | after a merge each patch field shows on every path what the patch shows (a number perhaps in its other representation), the other fields are as they were, and a change is reported iff some field showed something else |
| StateReducer.UnchangedMeansEqual | src/lualib/state.lua:203-211 | no reported change means every field is exactly what it was |
| StateReducer.ChangedMeansDifferent | src/lualib/state.lua:203-211 | a reported change means some field now differs |
| StateReducer.MergeIsIdempotent | src/lualib/state.lua:189-212 | merging the same patch again changes nothing iff the patch holds no NaN |
| StateReducer.NothingWrittenKeepsFields | src/lualib/state.lua:198-207 | a failing merge that finds every other field already the same changes nothing |
| StateReducer.UncountedChangeIffCyclic | src/lualib/state.lua:198-212 | a failing merge leaves the state as it was in every order of traversal iff the patch has no cyclic field or writes nothing new |
| StateReducer.PartialMerge | src/lualib/state.lua:198-212 | a concrete patch that changes the state and leaves the revision where it was |
| StateReducer.RevisionGrows | src/lualib/state.lua:208-211 | over any run of acyclic patches the revision never falls |
| StateReducer.EqualRevisionEqualState | src/lualib/state.lua:189-212 | over any run of acyclic patches equal revisions mean equal states |
| StateMerge.StateStore.Merge | src/lualib/state.lua:189-212 | on the heap: names other than the seven domains and non-table patches are refused untouched; refused as cyclic iff some field is; otherwise the snapshot shows the patch path by path, the revision grows by one iff that is a change, and no table of the patch joins the snapshot (tables shared before may be, when no NaN is below them) |
| StateMerge.DomainNames | src/lualib/state.lua:5-13 | the seven domains by name |
| StateMerge.ArrayFieldMeaning | src/lualib/state.lua:15-23 | exactly three fields hold arrays |
| StateMerge.EmptyFieldTree | src/lualib/state.lua:199-202 | an empty table for such a field is merged as an empty array, elsewhere by its own mark |
| StateMerge.StateStore.MergeFields | src/lualib/state.lua:198-207 | the loop over the patch in any order, up to the first cyclic field |
| StateMerge.StateStore.MergeField | src/lualib/state.lua:199-206 | one field; an empty table in an array field counts as a marked one |
| StateMerge.StateStore.StoreField | src/lualib/state.lua:203-206 | compared, and when different copied into the domain table; the other domains and the patch are untouched |
| StateMerge.StateStore.CopyField | src/lualib/state.lua:204 | the copy becomes the field, unless the value is cyclic, which changes nothing |
| StateMerge.ComparisonMeaning | src/lualib/state.lua:203 | between the snapshot and a patch that shares with it no table with a NaN, the comparison decides sameness of trees |
| ConfigReload.EnoughWorkers | src/lualib/config.lua:308-318 | workers exceed the number of enabled ones among Hyprland, MPRIS, audio, weather and GitHub |
| ConfigReload.Reloadable | src/lualib/config.lua:328-378 | accepts iff the two configurations are compatible, otherwise names the first entry in which they differ |
| ConfigReload.ImmutableEntries | src/lualib/config.lua:329-371 | the list that is built, conditional entries included |
| ConfigReload.ListIsFaithful | src/lualib/config.lua:329-371 | all entries of the list agree iff the configurations are compatible |
| ConfigReload.CompatibleMeaning | src/lualib/config.lua:328-378 | compatible iff workers, socket path and every enabled flag are equal, and so are the two sockets when Hyprland runs and sysfs_root when the system source runs |
| ConfigReload.CompatibleIsReflexive | src/lualib/config.lua:328-378 | every loaded configuration is compatible with itself |
| ConfigReload.CompatibleIsSymmetric | src/lualib/config.lua:328-378 | compatibility is symmetric |
| ConfigReload.CompatibleIsTransitive | src/lualib/config.lua:328-378 | compatibility is transitive, the conditional socket and sysfs entries included |
| ConfigReload.CompatibleKeepsWorkers | src/lualib/config.lua:308-318 | a configuration compatible with a loaded one leaves a worker free too |
| ConfigReload.RouteMeaning | src/service/actions.lua:42-74 | workspaces go to Hyprland, media to MPRIS, audio to audio and brightness to system, iff enabled |
| ConfigReload.CompatibleRoutesTheSame | src/service/actions.lua:42-74 | compatible configurations enable the same sources and so route every action alike |
| ReloadProtocol.StateService.Reload | src/service/state.lua:52-93 | load and compatibility failures touch no configuration; success leaves the service and every running source on the candidate and counts one generation; a source failure leaves exactly the enabled sources before it switched |
| ReloadProtocol.StateService.ReloadFailed | src/service/state.lua:41-50 | only the error text and perhaps the revision change |
| ReloadProtocol.StateService.SwitchSources | src/service/state.lua:62-82 | the loop over the sources in their fixed order, up to the first failure |
| ReloadProtocol.AllSwitched | src/service/state.lua:62-83 | without a failure every running source holds the candidate |
| ReloadProtocol.FailureMeaning | src/service/state.lua:62-81 | no failure iff every running source accepts; otherwise the first that does not, in the order audio, GitHub, Hyprland, MPRIS, system, weather |
| ReloadRuns.StepInv | src/service/state.lua:52-93 | every step of the state service, a source or the action service keeps the protocol invariant, merges at the yield points included |
| ReloadRuns.ReloadSafety | src/service/state.lua:52-93 | at any moment of any run: at most one reload is in flight, the live configurations are compatible with the start-up one, a worker is free, and the start-up configuration enables and routes as the live one |
| ReloadRuns.GenerationCountsReloads | src/service/state.lua:83-87 | over any run the generation is 1 plus the number of completed reloads |
| ReloadRuns.ReloadAgreement | src/service/state.lua:62-83 | after a completed reload all running sources and the state service agree and the error is cleared; after a failed one exactly the enabled sources before the failing turn hold the candidate |
| ReloadRuns.RejectionTouchesNothing | src/service/state.lua:53-61 | a candidate that does not load or is not compatible changes no configuration and starts no call; its message is kept |
| ReloadRuns.RevisionNeverFalls | src/service/state.lua:41-93 | over any run the revision never falls, and two moments of different generations have different revisions |
| ReloadRuns.ConfigIsStableInFlight | src/service/state.lua:70-83 | while a reload is in flight the state service keeps its configuration, whatever messages run meanwhile |
| Decimal.PrintedIsRead | src/lualib/actions.lua:11-20 | printing a 64-bit integer with %d and reading it gives it back |
| Decimal.DecimalMeaning | src/lualib/actions.lua:11-20 | digits after an optional minus sign |
| Decimal.PrintedIntLength | src/lualib/actions.lua:29 | a 64-bit integer prints to at most 20 bytes |
| Actions.DenotedIsPrinted | src/lualib/actions.lua:22-65 | arguments that denote an action are accepted and print its one line |
| Actions.AcceptedIff | src/lualib/actions.lua:22-65 | arguments are accepted iff they denote an action |
| Actions.AcceptedArguments | src/lualib/actions.lua:22-62 | the accepted argument lists, one by one, with their ranges |
| Actions.LineIsWords | src/lualib/actions.lua:22-62 | the line is the word dispatch, domain, verb and value with single spaces |
| Actions.LineIsParsed | src/lualib/actions.lua:67-126 | parsing the line of any action gives exactly that action |
| Actions.ParseMeaning | src/lualib/actions.lua:64-126 | parsing yields an action iff the command spells it: its words, and its value in any decimal notation |
| Actions.ParsedIsAction | src/lualib/actions.lua:67-126 | whatever is parsed is one of the actions, in range |
| Actions.RaisesIff | src/lualib/actions.lua:68-117 | parsing raises an error iff the command is a numeric one whose number needs more than 64 bits |
| Actions.LineIsPrintable | src/lualib/actions.lua:22-65 | every printed line starts with `dispatch `, has at most 46 bytes and holds no newline or NUL |
| Actions.PrintedActionIsParsed | src/lualib/actions.lua:22-126 | printed, then parsed: exactly the action the arguments denote, over all 64-bit workspace identifiers |
| ControlFraming.FirstLineMeaning | src/control.c:199-204 | the line found is the text before the first newline, with no NUL before it |
| ControlFraming.DecisionStands | src/control.c:262-297 | bytes that arrive later never change a decision |
| ControlFraming.OnlyTheWindowDecides | src/control.c:262-272 | streams that agree in their first 127 bytes are decided alike |
| ControlFraming.DecideMeaning | src/control.c:199-297 | a line is decided iff its newline is among the first 127 bytes with no NUL before it; otherwise 127 bytes are rejected and fewer waited on |
| ControlFraming.RequestMeaning | src/control.c:205-259 | which lines ask for a status, a subscription or the queue, and in which format |
| ControlFraming.LineIsFound | src/control.c:199-204 | a clean line of at most 126 bytes is found whatever follows it |
| ControlFraming.DecidedLineFits | src/control.c:191 | a decided line fits a slot of the queue |
| ControlFraming.Connection.HandleCommand | src/control.c:197-260 | on the buffer: the request of the first line before any NUL, or none |
| ControlFraming.Connection.ReadCommand | src/control.c:262-297 | for every way of splitting the stream, interrupted calls included: a verdict is the one the first 127 bytes decide; it waits only while they decide nothing and nothing more can be read |
| ControlFraming.Connection.Receive | src/control.c:268-274 | the buffer holds the received prefix of the stream |
| ControlRing.ActionRing.Enqueue | src/control.c:181-195 | appends to the queue, accepted iff running, not stopping and fewer than 64 are queued |
| ControlRing.ActionRing.Pop | src/control.c:629-644 | removes the oldest command; what was accepted is always what was popped followed by the queue |
| ControlRing.ActionRing.Start | src/control.c:492-519 | an empty queue, refused while running |
| ControlRing.ActionRing.FinishStop | src/control.c:603-621 | drops what is still queued |
| ControlRing.PopQueued | src/control.c:638-640 | moving the head around the array is removing the first command |
| ControlRing.PushQueued | src/control.c:189-192 | writing behind the last slot is appending a command |
| ActionPipeline.ServeClient | src/control.c:230-255 | reading a client queues exactly the command its stream decides, once, or nothing |
| ActionPipeline.ActionTravels | src/lualib/actions.lua:22-65 | the printed line of an action is read as that line whatever the splitting, is queued, fits a slot and parses to the action denoted |
| ActionPipeline.PoppedActionsAreThoseSent | src/service/actions.lua:77-86 | the commands popped parse to the actions sent, in acceptance order, once each |
| ActionService.Service.Dispatch | src/service/actions.lua:24-75 | a reload for `reload`; an action goes by name and value to Hyprland, MPRIS, audio or system according to its domain, or is refused naming that source when it is off; what does not parse is logged; an error when parsing raises |
| ActionService.EffectMeaning | src/service/actions.lua:24-75 | the same of every command, and of the line of every action |
| ActionService.Service.PopLoop | src/service/actions.lua:77-86 | serves everything queued iff nothing queued raises; otherwise it ends for good at the first that does, leaving the rest queued |
| ActionService.ServesAllIffNoneRaises | src/service/actions.lua:77-86 | at any time, whatever the control thread queues meanwhile: the loop has died iff a popped command raises, which is then the last popped, and all before it had their effects in order |
| ActionService.CommandLineNeverKills | src/service/actions.lua:77-86 | commands printed from argument lists never end the loop |
| ActionService.OneLineEndsTheLoop | src/lualib/actions.lua:68-75 | a concrete line, one above the largest integer, is read from a socket, queued, and raises |
| ControlTable.SwapRemovedKeepsOthers | src/control.c:162-167 | swap-remove drops one client and keeps all others, with distinct descriptors |
| ControlTable.ClientTable.RemoveClient | src/control.c:162-167 | closes the descriptor and keeps the open descriptors exactly those of the live slots |
| ControlTable.ClientTable.AcceptClients | src/control.c:299-319 | appends the configured newcomers in order as far as there is room, unsubscribed; the others are closed, and their descriptors may come again |
| ControlTable.ConfiguredAreAdmitted | src/control.c:309-317 | every configured arrival gets a place as long as there is room to spare |
| ControlTable.ClientTable.ServePolled | src/control.c:367-376 | each polled client meets its own events exactly once, the last first, despite removals: a quiet one stays, a broken one is closed, a readable one is what reading leaves of it |
| ControlTable.ClientTable.BroadcastSnapshot | src/control.c:169-179 | every subscribed client is sent to exactly once; exactly those whose connection fails are removed |
| ControlTable.ClientTable.RemoveAll | src/control.c:385-387 | at the end no descriptor stays open |
| ControlTable.MeetStep | src/control.c:367-376 | one turn of the descending loop: the moved client has already met its events |
| ControlTable.BroadcastStep | src/control.c:169-179 | one turn of the ascending loop: the moved client is still to be visited |
| ControlSend.WriteAll | src/control.c:90-105 | succeeds iff the calls together take all of the text before one takes nothing; otherwise exactly what they took was sent, a proper prefix |
| ControlRuns.ShapeStep | src/control.c:336-389 | every step of either thread keeps identities distinct and every send aimed at a live client |
| ControlRuns.LostStep | src/control.c:336-389 | every step keeps: each subscriber was last sent the newest publication whole, is being sent to, will be visited, or a wake is coming |
| ControlRuns.StreamStep | src/control.c:336-389 | every step keeps every client's stream in order |
| ControlRuns.NoLostSnapshot | src/control.c:336-383 | in every interleaving, when the thread polls with an empty pipe and no publisher is between replacing and waking, the last thing sent to each subscriber is, whole, the text that the newest publication has in its format, or the built-in text of that format when it has none; and no stop is pending |
| ControlRuns.PayloadMeaning | src/control.c:107-160 | what is sent of a publication: its text in the format asked, each of the three, or the built-in one when that is empty |
| ControlRuns.StreamIsOrdered | src/control.c:90-105 | whatever a client was ever sent: texts of publications in one format, in order of publication, all whole except perhaps the last, which is then the beginning of one |
| ControlRuns.SubscriberIsServed | src/control.c:220-228 | a live subscriber has been sent whole texts of publications in its format, the first no older than what was current when it asked |
| ControlRuns.RequestIsHonoured | src/control.c:210-260 | asking to subscribe makes a subscriber in that format, asking for the status sets the format, and a snapshot is sent next; any other request ends in closing |
| ControlRuns.SnapshotIsSent | src/control.c:107-160 | copying takes the newest publication, and the last byte written completes the delivery |
| ControlRuns.OnlyFailureLosesSubscriber | src/control.c:169-179 | a subscriber is lost only with its connection or at the end of the thread |
| ControlExample.SubscriberGetsBoth | src/control.c:336-383 | a concrete run: a client subscribes, is sent the snapshot, and is sent the next one that is published |
| ControlRuns.CutShortIsDropped | src/control.c:169-179 | an incomplete payload is the last thing sent, and the client is gone |
| ControlRuns.StreamsOnlyGrow | src/control.c:129-160 | nothing sent is taken back, and only live clients are sent anything |
| StatePublish.PublishingKeepsOrder | src/service/state.lua:33-39 | publishing after every merge that changed something keeps publications in the order of the states |
| StatePublish.StreamRevisionsGrow | src/service/state.lua:12-39 | when the publications show the states of a run in order, the payloads a client is sent have revisions that never fall, and equal revisions show equal states |
| RemoteDelay.ExponentialDelay | src/lualib/remote.lua:45-54 | min(max, min * 2^(failures-1)), the running delay never above the maximum |
| RemoteDelay.BackoffDoubles | src/lualib/remote.lua:45-54 | the first failure waits for the minimum, each further one twice as long, up to the maximum |
| RemoteDelay.FailureDelay | src/lualib/remote.lua:56-72 | the backoff alone without headers; with Retry-After, with a reset that lies ahead while nothing remains, or with both, the largest of the waits when they fit 64 bits in milliseconds; at most one day |
| RemoteDelay.ReadSecondsMeaning | src/lualib/remote.lua:34-43 | plain decimal digits up to the largest integer, and nothing else |
| RemoteDelay.FailureWaitBounds | src/lualib/remote.lua:56-72 | the delay lies between the backoff and one day and is at least the minimum |
| RemoteDelay.RetryAfterHonouredIff | src/lualib/remote.lua:61-64 | Retry-After (section 10.2.3 of RFC 9110) is honoured iff its milliseconds fit 64 bits or one day is reached otherwise |
| RemoteDelay.RetryAfterOverflowIsLost | src/lualib/remote.lua:61-64 | a concrete Retry-After whose product wraps is lost |
| RemoteDelay.SuccessDelay | src/lualib/remote.lua:74-80 | never below the configured interval nor above one day; exactly the larger of the interval and the server's when that fits 64 bits in milliseconds, and the interval when there is none |
| RemoteDelay.SuccessWaitBounds | src/lualib/remote.lua:74-80 | never below the configured interval; the server's interval is kept when its milliseconds fit 64 bits |
| RemoteDelay.PollIntervalHonouredIff | src/lualib/remote.lua:74-80 | the server's poll interval is honoured iff its milliseconds fit 64 bits or one day is reached otherwise |
| RemoteDelay.DeadlineIsTight | src/service/github.lua:28-30 | the deadline is never early and less than 10 ms late |
| GithubSource.ParseGithub | src/lualib/remote.lua:179-189 | the projections of the first max_items items; fails iff the body is no array or one of those has no projection |
| GithubSource.GithubService.Fail | src/service/github.lua:32-47 | one more failure; the tag, the last success and the notifications stay; stale iff something succeeded before |
| GithubSource.GithubService.RequestHeaders | src/service/github.lua:49-64 | none iff the token is missing; otherwise exactly these lines, and conditional on exactly the tag held |
| GithubSource.GithubService.Refresh | src/service/github.lua:66-88 | a missing token or a failed call is a failure |
| GithubSource.GithubService.Answer | src/service/github.lua:89-128 | 304 revalidates only after a success; other statuses outside 200-299 and unparsable bodies are failures that keep the tag; otherwise the tag and the notifications are replaced together |
| GithubSource.GithubService.Idle | src/service/github.lua:130-147 | nothing is requested before the deadline or after stopping |
| GithubSource.GithubService.Reload | src/service/github.lua:159-170 | the tag is dropped iff the URL or the token variable changed; a refresh is due at once |
| GithubSource.GithubService.Status | src/service/github.lua:151-157 | the remaining time, never negative |
| GithubRuns.CacheIsCoherent | src/service/github.lua:32-128 | at any moment of any run: `failures` counts the failures since the last success, `available` iff some attempt succeeded, `stale` iff it failed since, and the notifications are those of the last body fetched |
| GithubRuns.AttemptMeaning | src/service/github.lua:66-128 | what an attempt came to: 304 is a success only after a success, and only a 2xx body whose first items all project is a fetch |
| GithubRuns.DelayIsPublished | src/service/github.lua:28-47 | the announced delay: the interval after a success, the backoff for the failures so far after a failure, when no header asks for more; the next attempt is due then |
| GithubRuns.ReloadIsDue | src/service/github.lua:159-170 | a reload takes over its configuration and makes an attempt due at once |
| GithubRuns.TimesArePublished | src/lualib/remote.lua:82-108 | the times published are those of the last attempt and of the last success |
| GithubRuns.NoErrorWithoutFailure | src/lualib/remote.lua:98-108 | no error is shown unless the last attempt failed |
| GithubRuns.NotificationsAreTheLastProjection | src/service/github.lua:111-128 | at any moment of any run the notifications are the one projection of the last 2xx body that parsed, at the limit in force when it came |
| GithubRuns.NothingShownBeforeAFetch | src/service/github.lua:111-128 | before any body parsed the list is empty |
| GithubRuns.ShownWithinLimitIff | src/service/github.lua:92-128 | the list is within the present max_items iff the last fetch, cut at the limit of its own time, is |
| GithubRuns.ListOutgrowsTheLimit | src/service/github.lua:92-170 | a concrete run (fetch, reload, 304) that ends with two notifications under a limit of one |
| GithubRuns.FetchedAtTheLimitInForce | src/service/github.lua:111-127 | the step that fetches: a 2xx body, its projection at the limit then in force, and its tag |
| GithubRuns.AvailableNeverReverts | src/lualib/remote.lua:98-108 | once available, always available |
| GithubRuns.TagIsOfTheLastFetch | src/service/github.lua:119-170 | the tag held is exactly that of the last body fetched if URL and token variable never changed since, otherwise none (sections 13.1.2 and 15.4.5 of RFC 9110) |
| GithubRuns.RevalidationKeepsTheOldLimit | src/service/github.lua:92-104 | the step that keeps it: after a reload that keeps the origin, a 304 is a success that leaves tag and list alone |
| GithubRuns.AttemptsArePaced | src/service/github.lua:130-147 | between two attempts with no reload or failed wait, at least the announced delay passes |
| HttpBuffer.ResponseBuffer.Reserve | src/http.c:45-68 | the doubling loop terminates, reaches every size within the maximum, keeps the contents, and never exceeds max(4096, maximum) |
| HttpBuffer.ResponseBuffer.Write | src/http.c:70-88 | all of the chunk or nothing: refused iff the total would exceed the maximum, overflow of size * count included |
| HttpMeaning.SameNameMeaning | src/http.c:90-103 | header names are the same iff they have equal length and at each place equal characters or the upper and lower form of one ASCII letter |
| HttpMeaning.StatusLineMeaning | src/http.c:150-160 | a status line begins with http/ in any case |
| HttpMeaning.KeptMeaning | src/http.c:161-189 | a line sets a kept header iff it is no status line and the text before its first colon is that name in any case |
| HttpMeaning.IsSpaceMeaning | src/http.c:105-117 | the six white-space characters |
| HttpBuffer.ResponseHeaders.HeaderNameEqual | src/http.c:90-103 | equality regardless of the case of ASCII letters (section 5.1 of RFC 9110) |
| HttpBuffer.ResponseHeaders.Trimmed | src/http.c:105-124 | both trimming loops together |
| HttpResponse.TrimMeaning | src/http.c:105-117 | white space is removed at both ends, all of it, and nothing else (section 5.5 of RFC 9110) |
| HttpResponse.NameOf | src/http.c:170-183 | the six kept names, each found exactly when it is spelled so in any case |
| HttpBuffer.ResponseHeaders.Read | src/http.c:143-190 | a line that begins with http/ in any case starts afresh; one that carries a kept name in any case replaces its value, trimmed, or is refused above 8192 bytes; other lines change nothing |
| HttpResponse.NextItem | src/http.c:151-161 | how one callback changes the body |
| HttpResponse.LastValuesStep | src/http.c:105-190 | how one callback changes the kept headers |
| HttpBuffer.Perform | src/http.c:70-190 | over every sequence of callbacks: succeeds iff no body on the way exceeds the maximum and no value of the six names 8192 bytes; then the body is the chunks since the last status line joined, and each of the six headers is the trimmed value of the last line that carries its name, if there is one |
| HttpMeaning.CollectedIsAnswer | src/http.c:105-190 | what was collected is the body and the headers of the final response |
| HttpMeaning.LimitsMeaning | src/http.c:70-188 | the limits in terms of the received lines |
| HyprlandEvents.SplitIsLossless | src/lualib/hyprland.lua:207-221 | the lines with their newlines and the remainder are the stream |
| HyprlandEvents.SplitContinues | src/lualib/hyprland.lua:197-222 | splitting the remainder with the next chunk continues the split |
| HyprlandEvents.IsRelevantMeaning | src/lualib/hyprland.lua:214-219 | a line counts iff it begins with a relevant name of word characters and >> |
| HyprlandEvents.RelevantMeaning | src/lualib/hyprland.lua:5-32 | the twenty-six names |
| HyprlandEvents.ConsumeEvents | src/lualib/hyprland.lua:197-223 | the scanning loop finds the remainder and counts the relevant lines; refused iff the buffer would exceed 1 MiB |
| HyprlandEvents.ConsumeLines | src/lualib/hyprland.lua:205-222 | the loop itself, for any table of relevant names |
| HyprlandEvents.ChunksJoin | src/lualib/hyprland.lua:197-223 | two chunks in turn are as their concatenation: same remainder, relevance or-ed, counts added |
| HyprlandEvents.ChunkingDoesNotMatter | src/lualib/hyprland.lua:197-223 | the same for any number of chunks |
| HyprlandEvents.RemainderIsOneLine | src/lualib/hyprland.lua:216-222 | the remainder holds no newline and ends the stream |

## Left out

- Reading and writing JSON text, UTF-8 validity and the sign of zero: documents are trees.
- Allocation failure, `malloc`/`free`, C and Lua stack limits.
- `qsort` itself: sorting is a function with its specification.
- StateCopy.CopyContext.Copy: table-valued keys are excluded; `copy` would copy them too, into keys that no lookup finds again, and JSON cannot carry them.
- StateCopy.CopyContext.CopyTable: table-valued keys are excluded, as in Copy.
- StateCopy.CopyValue: table-valued keys are excluded, as in Copy.
- StateMerge.StateStore.Merge: excludes a patch that reaches a domain table of the snapshot itself, or shares with the snapshot a table with a NaN below it; the service merges messages, which are copies.
- StateMerge.StateStore.MergeFields: excludes the same patches as Merge.
- StateMerge.StateStore.MergeField: excludes the same patches as Merge.
- StateMerge.StateStore.StoreField: excludes the same values as Merge.
- Objects shared between threads other than through the mutex and the pipe; the control thread, the
  publisher and `stop` take turns at the granularity of locks and system calls.
- Socket set-up, permissions, stale sockets, the command-line client's output, `start` and `stop`
  beyond the flags that gate publishing, queueing and popping. A session runs from start to the end
  of the thread; what a later start finds is a new session.
- `recv` that is interrupted for ever: a script of results is finite, after which the call would block.
- The texts of most errors: kinds stand for them. The error text of the GitHub domain is bounded only.
- Field-by-field projection of a notification: an item has a projection or a reason why not.
- Header values with an embedded NUL, which the program cuts when it hands them to Lua.
- libcurl's own failures: callbacks are a sequence, and only the two limits refuse one.
- Range checks of single configuration fields, and the other source services, which are branch
  tables or repeat the GitHub machine.
- The wall clock standing at 0 or before: runs of the GitHub source take times after 1970.
- The Lua tables `visiting`, `validated` and `compared` are sets of identities, and the heap of a
  class is one map, so object lifetime and garbage collection are not captured.
- `src/mpris.c`, `src/audio.c`, `src/devices.c`, `src/ipc.c`: mostly calls into other libraries.
- GithubSource.GithubService.Fail: the patch is taken to be merged as sent, because delivery of messages is the scheduler's.
