# A verified model of rub's browser driver

rub drives a browser over the Chrome DevTools Protocol. This project models the parts of its `rub-cdp` crate whose
correctness rests on state and order, and proves what they promise:

- request correlation: a bounded, expiring registry kept in five cross-indexed structures, with a fallback lookup
  (`CorrelationLedger`, `CorrelationIndexes`, `CorrelationRegistry`, `CorrelationRuns`, `CorrelationFallback`), and the
  interception step that publishes to it and rolls back (`Interception`);
- interception rules: glob matching, the request plan, header merging, url rewriting (`Wildcard`, `RulePlan`, `SentHeaders`);
- the discovery HTTP client: incremental parsing, heads and chunked decoding (`HttpReader`, `HttpHead`, `SizeLine`,
  `ChunkedCoding`);
- the download and dialog projections, and the release fence their publishers race with (`DownloadModel`,
  `DownloadHistory`, `DownloadProjection`, `Dialogs`, `ReleaseFence`, `FenceReports`), and listener generations (`ListenerGeneration`);
- frame lineage and depth (`Frames`), element projection and references (`Projection`);
- key dispatch and storage operations when any primitive call may fail (`Keyboard`, `Storage`).

Code that changes state is modelled by classes and methods, each proved to refine a pure specification; the laws are
lemmas about those specifications over all inputs, runs and interleavings. `Collections`, `Text`, `Utf8` and
`NetworkRules` hold shared definitions. The browser, the clock and other callers appear as parameters, as arbitrary
choices, or as explicit interleaving steps.

`dafny verify dfyconfig.toml` checks the project.

## What the code does differently from its description

- The user documentation says an allow rule takes precedence over block rules. The code lets the first active matching
  rewrite, block or allow rule in list order decide. `RulePlan.AllowWinsIff` says exactly when an allow rule
  wins; `RulePlan.AllowAfterBlockIsBlocked` is the counterexample.
- A dialog publisher's `false` does not mean that nothing happened: the write may be committed before the last flag
  check (`FenceReports.FalseAfterCommit`). `FenceReports.FalseIff` says exactly when it is. The download recorders report
  before that check and are exact (`FenceReports.RecorderIsExact`). The fence holds only as long as the flag stays set
  (`FenceReports.ClearedFlagLetsWriteThrough`).
- Typing a character outside ASCII that lower-cases to the name of a key types that key. `Keyboard.TypingInserts` gives
  the exact condition; `Keyboard.KelvinSignTypesLetter` is an instance.
- Storage operations pass entries through JavaScript objects, where a string under the name `__proto__` makes no
  property. `Storage.ReplaceMeansSnapshot` gives the exact condition; `Storage.ProtoKeyIsLost` is an instance.
- The chunk size line is not that of section 7.1 of RFC 9112: a plus sign, Unicode white space and empty extensions are
  accepted, and extensions that are not UTF-8 are rejected. `SizeLine.SizeLineIff` says exactly what is accepted and
  `SizeLine.StandardLineIsRead` which standard lines are; the lemmas after them give an input for each deviation.
- Adding two to a chunk size near the largest `usize` overflows. `ChunkedCoding.PanicIff` says on which bodies;
  `ChunkedCoding.LargeSizePanics` is an instance.
- A saturated id counter hands out its last id again. `CorrelationRegistry.VacantIff` says when that collides;
  `CorrelationRegistry.SaturatedIdCollides` is an instance.
- A request whose actuation fails can still cost other entries. `Interception.RollbackRestoresIff` says exactly when it
  does not; `Interception.FailureCostsRival` is an instance.
- An element reference leads back to its parts only if the frame id has no colon (`Projection.RefRoundTrip`).

## Model

| member | source | states |
|---|---|---|
| `CorrelationRegistry.RequestCorrelationRegistry.constructor` | crates/rub-cdp/src/request_correlation.rs:31-41 | a new registry is valid and empty |
| `CorrelationRegistry.RequestCorrelationRegistry.RecordAt` | crates/rub-cdp/src/request_correlation.rs:115-135 | if the next id is vacant, all five structures again describe one live list: the pruned one, rivals for either direct id dropped, the new entry last, cut to the limit from the front, with the matching degradation reason; if it is not, `order` repeats an id |
| `CorrelationRegistry.RequestCorrelationRegistry.Insert` | crates/rub-cdp/src/request_correlation.rs:115-135 | the same of the part after pruning |
| `CorrelationRegistry.RequestCorrelationRegistry.EvictOverLimit` | crates/rub-cdp/src/request_correlation.rs:115-135 | the loop evicts the oldest entry and leaves a reason iff there is one too many |
| `CorrelationRegistry.VacantIff` | crates/rub-cdp/src/request_correlation.rs:224-275 | the next id is vacant iff no entry that stays has it, as always until the counter has saturated |
| `CorrelationRegistry.SaturatedIdCollides` | crates/rub-cdp/src/request_correlation.rs:224-275 | a second record under a saturated counter finds its id taken by the first |
| `CorrelationRegistry.RepeatDisagrees` | crates/rub-cdp/src/request_correlation.rs:224-275 | an order that repeats an id is the order of no live list |
| `CorrelationRegistry.RequestCorrelationRegistry.TakeAt` | crates/rub-cdp/src/request_correlation.rs:137-153 | answers what the list specification answers (direct id first, then the unique fallback) and forgets that entry |
| `CorrelationRegistry.RequestCorrelationRegistry.PeekAt` | crates/rub-cdp/src/request_correlation.rs:155-176 | answers the same and keeps the entry; a direct hit also takes it out of the fallback |
| `CorrelationRegistry.RequestCorrelationRegistry.DiscardForFetchRequestId` | crates/rub-cdp/src/request_correlation.rs:108-113 | from a valid registry, forgets the entry of that fetch id; true iff there was one |
| `CorrelationRegistry.RequestCorrelationRegistry.Prune` | crates/rub-cdp/src/request_correlation.rs:178-203 | popping from the front of `order` refines dropping the longest prefix that is expired or over the limit; one reason per kind of drop |
| `CorrelationRegistry.RequestCorrelationRegistry.EvictOldest` | crates/rub-cdp/src/request_correlation.rs:178-203 | one eviction removes exactly the oldest live entry from every structure, if they agree |
| `CorrelationRegistry.RequestCorrelationRegistry.RemoveEntry` | crates/rub-cdp/src/request_correlation.rs:380-400 | removing an id, also when `order` has already lost it, leaves the five structures describing the list without that entry |
| `CorrelationRegistry.RequestCorrelationRegistry.ForgetIds` | crates/rub-cdp/src/request_correlation.rs:380-400 | each direct index loses the key iff it leads to the entry, and the bucket loses the id |
| `CorrelationRegistry.RequestCorrelationRegistry.RemoveFromUnresolvedIndex` | crates/rub-cdp/src/request_correlation.rs:435-446 | the id leaves its bucket and an empty bucket leaves the index |
| `CorrelationRegistry.RequestCorrelationRegistry.RetireUnresolved` | crates/rub-cdp/src/request_correlation.rs:402-414 | the entry stays live and directly findable but leaves the fallback index |
| `CorrelationRegistry.RequestCorrelationRegistry.ReplacedEntryIds` | crates/rub-cdp/src/request_correlation.rs:277-295 | the ids collected are exactly those of live entries sharing the fetch id or the network id |
| `CorrelationRegistry.RequestCorrelationRegistry.RetireReplacedDirectAuthority` | crates/rub-cdp/src/request_correlation.rs:277-295 | afterwards no live entry shares a direct id with the newcomer and every other entry is as before |
| `CorrelationRegistry.RequestCorrelationRegistry.InsertTimed` | crates/rub-cdp/src/request_correlation.rs:224-275 | the list is the unreplaced entries followed by the new one; the structures agree on it iff the id was vacant |
| `CorrelationRegistry.RequestCorrelationRegistry.Append` | crates/rub-cdp/src/request_correlation.rs:224-275 | indexing a new entry that shares no id keeps the five structures describing one list, also when the counter saturates |
| `CorrelationRegistry.RequestCorrelationRegistry.DirectEntryId` | crates/rub-cdp/src/request_correlation.rs:217-222 | the network index first, then the fetch index, find the entry the list scan finds |
| `CorrelationRegistry.RequestCorrelationRegistry.FindUniqueUnresolved` | crates/rub-cdp/src/request_correlation.rs:297-378 | the pass over one bucket refines the scan of all live entries, degradation reason included |
| `CorrelationRegistry.RequestCorrelationRegistry.EmitDegraded` | crates/rub-cdp/src/request_correlation.rs:429-433 | a reason is appended unless it repeats the last one |
| `CorrelationRegistry.MatchCandidates` | crates/rub-cdp/src/request_correlation.rs:297-378 | the loop's two ids and two ambiguity flags summarise the strict and the relaxed candidates |
| `CorrelationIndexes.IndexesMeanLive` | crates/rub-cdp/src/request_correlation.rs:31-41 | what agreement of the five structures means: each index leads to live entries and back, buckets are non-empty, duplicate-free and hold exactly the entries with their key |
| `CorrelationIndexes.BucketIsWithKey` | crates/rub-cdp/src/request_correlation.rs:263-274 | a bucket holds the ids of the live entries with its key, oldest first, and exists iff there are any |
| `CorrelationIndexes.DirectLookups` | crates/rub-cdp/src/request_correlation.rs:217-222 | each direct index agrees with a search of the list |
| `CorrelationRuns.StepSound` | crates/rub-cdp/src/request_correlation.rs:108-203 | every operation keeps ids distinct, direct ids unshared and the length within the limit |
| `CorrelationRuns.RunSound` | crates/rub-cdp/src/request_correlation.rs:108-203 | so does every run |
| `CorrelationRuns.ScanMeans` | crates/rub-cdp/src/request_correlation.rs:297-378 | the fallback answers with the only strict match, or with the only relaxed match when no match is strict, and with nothing iff nothing matches; each both ways |
| `CorrelationFallback.FiledAsPublished` | crates/rub-cdp/src/request_correlation.rs:224-275 | after any run every live entry was published by one record operation, and is filed under that operation's tab, verb and destination url (the rewritten one if there is one) and its headers, unless a direct peek retired it |
| `CorrelationFallback.FallbackMeans` | crates/rub-cdp/src/request_correlation.rs:297-378 | after any run a request whose id is no direct hit is answered with the only live record published for its tab, url and verb whose headers it carries, else with the only one published for them, else with nothing |
| `CorrelationFallback.SparedIsFallback` | crates/rub-cdp/src/request_correlation.rs:297-378 | a spared record is what a request for its tab, url and verb falls back to when no other live record was published for them; strictly iff each expected header is there under its folded name, else under the name itself |
| `CorrelationFallback.NotFallback` | crates/rub-cdp/src/request_correlation.rs:297-378 | it is never what a request for another tab, url or verb falls back to |
| `CorrelationRuns.NeverAgain` | crates/rub-cdp/src/request_correlation.rs:137-176 | an entry handed out by take never comes back, and one peeked by direct id never comes back to the fallback, over the rest of any run |
| `CorrelationRuns.SingleHandOut` | crates/rub-cdp/src/request_correlation.rs:137-176 | of any two answers of a run, the later is not what an earlier take returned, nor a fallback hit on what an earlier direct peek returned |
| `CorrelationRuns.PruneIsExact` | crates/rub-cdp/src/request_correlation.rs:178-203 | on a list in time order, pruning from the front removes exactly the expired entries and no fresh one |
| `CorrelationRuns.RunChronological` | crates/rub-cdp/src/request_correlation.rs:115-203 | with a clock that does not go back, every run keeps the list in time order |
| `CorrelationRuns.ExpiryIsExact` | crates/rub-cdp/src/request_correlation.rs:178-203 | so from the empty registry pruning always removes exactly the expired entries |
| `CorrelationRuns.RollbackIsExact` | crates/rub-cdp/src/request_correlation.rs:108-113 | discarding a fetch id after any run removes all entries with it and touches nothing else |
| `Interception.HandleRequestPaused` | crates/rub-cdp/src/network_rules.rs:154-332 | a response or an unmatched request leaves the registry alone; with a vacant id success leaves the published record and any failure leaves it published and rolled back |
| `Interception.FailureLeavesNothing` | crates/rub-cdp/src/network_rules.rs:291-332 | after a failed preparation or actuation no entry has the fetch id and every other entry is untouched by the rollback |
| `Interception.RollbackRestoresIff` | crates/rub-cdp/src/network_rules.rs:274-332 | publishing and rolling back give back the list as it was iff the oldest entry need not go, none shares an id with the request, and there is room for one more |
| `Interception.FailureCostsRival` | crates/rub-cdp/src/network_rules.rs:274-332 | an entry under the same network id is lost although the request failed |
| `Interception.RolledBack` | crates/rub-cdp/src/network_rules.rs:274-332 | in general they leave the unexpired entries that share no id with the request, less the oldest if there was no room |
| `Interception.PublishedIsFound` | crates/rub-cdp/src/network_rules.rs:274-289 | after any further operations that neither replace, take nor discard it, fewer than the limit of them recording others, taking by the network id returns the published record until it expires |
| `Interception.PublishedFallsBack` | crates/rub-cdp/src/network_rules.rs:274-289 | after any operations that spare it, a request from its tab with its verb and for the url it was sent to is answered with the published record, if the request's id is no direct hit and no other live record was published for the same; strictly iff the request carries every header pair the plan sent |
| `Interception.RewrittenIsNotOriginal` | crates/rub-cdp/src/network_rules.rs:274-289 | a record whose url was rewritten is not what a request for the original url falls back to |
| `CorrelationRuns.RunHolds` | crates/rub-cdp/src/request_correlation.rs:115-203 | such a run keeps a record live |
| `CorrelationRuns.HeldIsFound` | crates/rub-cdp/src/request_correlation.rs:137-153 | a live record that has not expired is what its network id finds |
| `Interception.PublishedHeaders` | crates/rub-cdp/src/network_rules.rs:154-272 | the record keeps the request's tab and url, the rewritten url and the effects, and when the plan sends headers exactly the pairs that are sent |
| `Wildcard.WildcardMatches` | crates/rub-cdp/src/network_rules.rs:488-524 | the greedy matcher accepts iff each star can be filled with some text so that the pattern becomes the url |
| `Wildcard.MatchNamed` | crates/rub-cdp/src/network_rules.rs:498-524 | the loop over the named parts with its anchors decides the chain of the parts |
| `Wildcard.Leftmost` | crates/rub-cdp/src/network_rules.rs:511-515 | taking the leftmost occurrence of a part never loses a match |
| `Wildcard.DropEmptyParts` | crates/rub-cdp/src/network_rules.rs:502 | empty parts between stars change nothing |
| `Wildcard.ConsumePart` | crates/rub-cdp/src/network_rules.rs:511-515 | one turn of the loop keeps the question to be decided |
| `Wildcard.GlobIsPartsMatch` | crates/rub-cdp/src/network_rules.rs:488-524 | filling the stars is the same as finding the parts in order with the ends anchored |
| `RulePlan.BuildRequestPlan` | crates/rub-cdp/src/network_rules.rs:349-451 | the loop over the rules computes the declarative plan |
| `RulePlan.InsertAll` | crates/rub-cdp/src/network_rules.rs:420-422 | the inner loop overrides headers in key order |
| `RulePlan.PlanIffRuleApplies` | crates/rub-cdp/src/network_rules.rs:349-451 | there is a plan iff some active rule matches |
| `RulePlan.EffectsInOrder` | crates/rub-cdp/src/network_rules.rs:349-451 | the effects are those of every active matching rule and no other, each at its rank, with the rule's id and the kind of its constructor |
| `RulePlan.FirstTerminalDecides` | crates/rub-cdp/src/network_rules.rs:349-451 | the first active matching rewrite, block or allow rule is the one that decides |
| `RulePlan.PlanActionMeans` | crates/rub-cdp/src/network_rules.rs:349-451 | the request is blocked iff that rule is a block, and redirected iff it is a rewrite, then to that rule's target |
| `RulePlan.AllowAfterBlockIsBlocked` | README.md:366 | an allow rule listed after a block rule does not take precedence |
| `RulePlan.AllowWinsIff` | crates/rub-cdp/src/network_rules.rs:349-451 | with a matching allow rule, the request is let through iff some matching rewrite or allow rule has no matching block rule before it |
| `SentHeaders.MergedMeans` | crates/rub-cdp/src/network_rules.rs:419-472 | a name is merged iff an applying override or a member of the request's header object folds to it; its value is that of the last such override (the greatest such key of its map), else the text of the last such member |
| `SentHeaders.PlanHeaders` | crates/rub-cdp/src/network_rules.rs:419-486 | a continue sends headers iff some override applies, and then exactly those pairs, each name once and in order |
| `RulePlan.InsertedMeans` | crates/rub-cdp/src/network_rules.rs:460-472 | the last of several headers that fold to one name wins |
| `RulePlan.EntriesRoundTrip` | crates/rub-cdp/src/network_rules.rs:474-479 | the sorted entries of a map rebuild it over any other map |
| `RulePlan.HeaderEntriesRoundTrip` | crates/rub-cdp/src/network_rules.rs:474-486 | a folded header map survives becoming a header list and back |
| `RulePlan.JoinIgnoresSlashes` | crates/rub-cdp/src/network_rules.rs:537-544 | how many slashes end the base or start the suffix does not matter |
| `RulePlan.TrimmedEnds` | crates/rub-cdp/src/network_rules.rs:537-544 | trimming leaves a prefix, or suffix, with no slash at the join |
| `RulePlan.RewrittenUrl` | crates/rub-cdp/src/network_rules.rs:526-544 | a pattern that ends in a star rewrites to the base without end slashes, one slash, and the rest of the url without start slashes; to the base as it is if nothing is left |
| `RulePlan.OtherwiseBase` | crates/rub-cdp/src/network_rules.rs:526-535 | any other pattern, and one whose text before the last star does not begin the url, rewrites to the base |
| `RulePlan.PrefixPatternRewrites` | crates/rub-cdp/src/network_rules.rs:526-535 | a pattern with one star at its end matches iff its prefix does, and keeps what follows the prefix |
| `RulePlan.ExactPatternRewrites` | crates/rub-cdp/src/network_rules.rs:526-535 | a pattern without a star matches only itself and rewrites to the target alone |
| `HttpReader.ReadHeaders` | crates/rub-cdp/src/attachment.rs:336-407 | the header map holds the last value of each folded name |
| `HttpReader.ReadHead` | crates/rub-cdp/src/attachment.rs:336-407 | status and framing are decided as the specification decides them, chunked before length before close |
| `HttpReader.ParseHttpResponseBody` | crates/rub-cdp/src/attachment.rs:336-407 | refines the specification of one attempt on the bytes so far |
| `HttpReader.DecodeChunkedBody` | crates/rub-cdp/src/attachment.rs:409-450 | the decoding loop ends and refines the recursive decoder, panics included |
| `HttpReader.CommittedIsStable` | crates/rub-cdp/src/attachment.rs:336-450 | once an attempt is not told to wait, more bytes or the end of the stream do not change its answer |
| `HttpReader.ReadResponse` | crates/rub-cdp/src/attachment.rs:239-265 | reading packet by packet gives what one attempt on everything delivered gives, however it was cut |
| `HttpReader.AnyCutDelivers` | crates/rub-cdp/src/attachment.rs:239-265 | cutting a stream into non-empty packets delivers all of it |
| `HttpHead.StatusDecides` | crates/rub-cdp/src/attachment.rs:336-361 | a response whose status line carries another code than 200 fails with that code, or as a bad code above 65535 |
| `HttpHead.MissingCodeFails` | crates/rub-cdp/src/attachment.rs:351-358 | a first line without a second word has no status code |
| `HttpHead.BadCodeFails` | crates/rub-cdp/src/attachment.rs:351-358 | a second word that is no number is a bad status code |
| `HttpHead.ChunkedDecides` | crates/rub-cdp/src/attachment.rs:363-376 | with 200 and a last transfer-encoding, names folded, that lists chunked in any case, the result is the chunked payload, whatever content-length says |
| `HttpHead.LengthDecides` | crates/rub-cdp/src/attachment.rs:378-396 | otherwise, if the last content-length is the digits of n, the result is the first n bytes, or an error that tells how many are missing |
| `HttpHead.BadLengthFails` | crates/rub-cdp/src/attachment.rs:378-384 | a content length that is empty or holds another character than digits and a plus sign is an error |
| `HttpHead.CloseDecides` | crates/rub-cdp/src/attachment.rs:398-406 | with neither header the result is everything up to the end of the stream |
| `HttpHead.OutcomeOfResponse` | crates/rub-cdp/src/attachment.rs:239-265 | however a response is cut into reads, the caller gets its payload as text, or its status when that is not 200 |
| `Text.FoldedAlike` | crates/rub-cdp/src/attachment.rs:366-373 | two texts fold alike iff they differ at most in the case of ASCII letters |
| `Text.SpacesAre` | crates/rub-cdp/src/attachment.rs:366-373 | trimming removes the 25 characters of the Unicode White_Space property |
| `Utf8.DecodeIff` | crates/rub-cdp/src/attachment.rs:348-348 | bytes are accepted as a text iff they are its UTF-8 encoding |
| `SizeLine.SizeLineIff` | crates/rub-cdp/src/attachment.rs:420-427 | a size line is read as n iff it is UTF-8 text of white space, an optional plus sign, hexadecimal digits of value n, white space, and nothing or a semicolon and anything; n must fit |
| `SizeLine.OtherLineFails` | crates/rub-cdp/src/attachment.rs:419-428 | any other line is an error: not UTF-8, or not a size |
| `SizeLine.StandardLineIsRead` | crates/rub-cdp/src/attachment.rs:420-427 | a size line of section 7.1 of RFC 9112 (digits, then extensions) is read as its number iff it is UTF-8 and the number fits |
| `SizeLine.StandardLineEnds` | crates/rub-cdp/src/attachment.rs:416-419 | such a line is all there is before the CRLF that ends it |
| `SizeLine.PlusSignIsRead` | crates/rub-cdp/src/attachment.rs:422-427 | deviation: "+5" is accepted and is not of the standard |
| `SizeLine.UnicodeSpaceIsTrimmed` | crates/rub-cdp/src/attachment.rs:421 | deviation: white space outside ASCII is trimmed |
| `SizeLine.EmptyExtensionIsIgnored` | crates/rub-cdp/src/attachment.rs:421 | deviation: a semicolon with no extension name is accepted |
| `SizeLine.ByteExtensionIsStandard` | crates/rub-cdp/src/attachment.rs:420 | the standard allows any byte from 0x80 on in a quoted extension value |
| `SizeLine.ByteExtensionIsRejected` | crates/rub-cdp/src/attachment.rs:420 | deviation: one that is not UTF-8 is rejected |
| `ChunkedCoding.WireDecodes` | crates/rub-cdp/src/attachment.rs:409-450 | every list of chunks under accepted size lines, closed by a zero line, decodes to its payload whatever follows |
| `ChunkedCoding.DecodedIsWire` | crates/rub-cdp/src/attachment.rs:409-450 | everything the decoder accepts is of that form |
| `ChunkedCoding.DecodedIff` | crates/rub-cdp/src/attachment.rs:409-450 | the decoder returns a payload iff the body is of that form with that payload |
| `ChunkedCoding.StandardDecodes` | crates/rub-cdp/src/attachment.rs:409-450 | a chunked body of section 7.1 of RFC 9112 decodes to its payload iff its size lines are UTF-8, and fails as not UTF-8 otherwise |
| `ChunkedCoding.HexLineIsStandard` | crates/rub-cdp/src/attachment.rs:409-450 | a size written in hexadecimal is a size line of the standard |
| `ChunkedCoding.HexLineSays` | crates/rub-cdp/src/attachment.rs:409-450 | and is read back |
| `ChunkedCoding.RoundTrip` | crates/rub-cdp/src/attachment.rs:409-450 | encoding any non-empty chunks and decoding them gives their concatenation, whatever follows |
| `ChunkedCoding.PanicIff` | crates/rub-cdp/src/attachment.rs:409-450 | the decoder panics iff, after some well-formed chunks, a size line states one of the two largest sizes, except a wrapping build on the largest with nothing after the line |
| `ChunkedCoding.LargeSizePanics` | crates/rub-cdp/src/attachment.rs:409-450 | one input: a body that declares one less than the largest size |
| `ChunkedCoding.OversizePanics` | crates/rub-cdp/src/attachment.rs:409-450 | such a body panics |
| `ChunkedCoding.CrashIff` | crates/rub-cdp/src/attachment.rs:239-450 | reading a response crashes iff its head asks for a chunked body and that body panics |
| `DownloadProjection.DownloadRuntimeProjectionState.constructor` | crates/rub-cdp/src/downloads.rs:66-83 | a new projection is valid and empty |
| `DownloadProjection.DownloadRuntimeProjectionState.MarkRuntimeDegraded` | crates/rub-cdp/src/downloads.rs:90-97 | adds a reason once, and only after some generation has written |
| `DownloadProjection.DownloadRuntimeProjectionState.Clear` | crates/rub-cdp/src/downloads.rs:99-101 | back to the empty projection |
| `DownloadProjection.DownloadRuntimeProjectionState.SetRuntime` | crates/rub-cdp/src/downloads.rs:111-123 | replaces the runtime fields unless the generation is old |
| `DownloadProjection.DownloadRuntimeProjectionState.RecordStarted` | crates/rub-cdp/src/downloads.rs:125-151 | refines the model's started event |
| `DownloadProjection.DownloadRuntimeProjectionState.RecordProgress` | crates/rub-cdp/src/downloads.rs:153-194 | refines the model's progress event |
| `DownloadProjection.DownloadRuntimeProjectionState.Store` | crates/rub-cdp/src/downloads.rs:153-194 | an updated entry goes to the back of the queue of its state and the lists follow |
| `DownloadProjection.DownloadRuntimeProjectionState.Requeue` | crates/rub-cdp/src/downloads.rs:153-194 | the queue is chosen by whether the state is terminal |
| `DownloadProjection.DownloadRuntimeProjectionState.PrepareGeneration` | crates/rub-cdp/src/downloads.rs:196-208 | an old generation is refused, a new one starts from scratch |
| `DownloadProjection.DownloadRuntimeProjectionState.MoveToActive` | crates/rub-cdp/src/downloads.rs:210-220 | the guid leaves both queues, goes to the back of the active one, which is then trimmed |
| `DownloadProjection.DownloadRuntimeProjectionState.MoveToCompleted` | crates/rub-cdp/src/downloads.rs:222-232 | the same for the completed queue |
| `DownloadProjection.DownloadRuntimeProjectionState.RefreshProjectionLists` | crates/rub-cdp/src/downloads.rs:234-245 | the projected lists are the queues looked up in the entries |
| `DownloadProjection.TrimDownloadOrder` | crates/rub-cdp/src/downloads.rs:265-280 | the queue keeps its newest guids up to the limit and the dropped ones lose their entries |
| `DownloadProjection.FilterMap` | crates/rub-cdp/src/downloads.rs:234-245 | looking up a queue skips missing guids and keeps the order |
| `DownloadModel.StepValid` | crates/rub-cdp/src/downloads.rs:125-280 | each event keeps the whole representation invariant |
| `DownloadModel.RunValid` | crates/rub-cdp/src/downloads.rs:125-280 | in every reachable state the queues are duplicate-free, disjoint, within 32 and 64, together exactly the keys of the entries, completed iff terminal, and the projection is what they say |
| `DownloadModel.StaleIsIgnored` | crates/rub-cdp/src/downloads.rs:111-208 | an event of an older generation changes nothing |
| `DownloadModel.GenerationFiltering` | crates/rub-cdp/src/downloads.rs:111-208 | the final state of any run is that of a fresh projection given only the events of the newest generation |
| `DownloadModel.BytesNeverDecrease` | crates/rub-cdp/src/downloads.rs:153-194 | while a guid is retained within a generation its received bytes never go down |
| `DownloadHistory.EntryIsToldBy` | crates/rub-cdp/src/downloads.rs:125-194 | while a guid is retained within a generation, its entry follows from the events since its creation: the state of the last one, the largest byte count, the last total and path given, url, filename and frame of the last start, the time of the last terminal event and of the creation |
| `DownloadHistory.RetainedWhile` | crates/rub-cdp/src/downloads.rs:210-280 | a download stays, as its last event left it, until events about 32 others came since, or 64 once it ended |
| `DownloadHistory.RuntimeIsToldBy` | crates/rub-cdp/src/downloads.rs:90-123 | mode, directory, status and reason are those of the newest generation's last set-runtime event, or the defaults without one, degraded by the marks after it |
| `DownloadHistory.SettledOrUntouched` | crates/rub-cdp/src/downloads.rs:90-123 | in every run there is such an event, unless there were only marks, which change nothing |
| `DownloadHistory.MarksAreListed` | crates/rub-cdp/src/downloads.rs:282-295 | the reason text lists what it listed before, then what every mark says, and nothing else |
| `DownloadHistory.MarksAreListedOnce` | crates/rub-cdp/src/downloads.rs:282-295 | marks without commas or outer blanks are listed once each |
| `DownloadModel.ValidUnderInterleaving` | crates/rub-cdp/src/downloads.rs:360-412 | the invariant holds under every interleaving of publishers with the release flag |
| `ReleaseFence.CallbackFollowsWrite` | crates/rub-cdp/src/dialogs.rs:175-289 | over all interleavings a publisher writes and calls back at most once, the call after its own write |
| `ReleaseFence.FenceHolds` | crates/rub-cdp/src/downloads.rs:360-412 | while the flag stays set, a publisher writes only if it had already rechecked under the lock, and calls back only if it had passed its last check |
| `ReleaseFence.OneWriter` | crates/rub-cdp/src/dialogs.rs:175-212 | only the holder of the lock is past the recheck |
| `ReleaseFence.ReleaseLetsOneWriteThrough` | crates/rub-cdp/src/downloads.rs:360-412 | after the flag is set at most one more write lands |
| `ReleaseFence.Linearizes` | crates/rub-cdp/src/dialogs.rs:175-289 | the shared value is always what the committed writes give in log order |
| `ReleaseFence.InvariantUnderInterleaving` | crates/rub-cdp/src/dialogs.rs:175-289 | what every write keeps, every interleaving keeps |
| `FenceReports.FalseIff` | crates/rub-cdp/src/dialogs.rs:175-289 | a publisher that reports `false` met the set flag at one of its checks, and its write is committed iff that was the check after the write |
| `FenceReports.FalseIffLate` | crates/rub-cdp/src/dialogs.rs:175-289 | if the flag is set once and stays set, `false` means a committed write iff the publisher was past its recheck when the flag was set |
| `FenceReports.RecorderIsExact` | crates/rub-cdp/src/downloads.rs:360-412 | the download recorders, which report right after the write, are exact: `true` comes with the write, and after `false` it never happens |
| `FenceReports.FalseAfterCommit` | crates/rub-cdp/src/dialogs.rs:175-212 | a run from the start in which a publisher reports `false` and its write is committed |
| `FenceReports.ClearedFlagLetsWriteThrough` | crates/rub-cdp/src/dialogs.rs:175-212 | a run from the start in which a publisher that held the lock when the flag was set writes once the flag is cleared |
| `Dialogs.DialogRuntime.constructor` | crates/rub-cdp/src/dialogs.rs:75-77 | a new runtime is inactive with nothing pending |
| `Dialogs.DialogRuntime.ApplyStatus` | crates/rub-cdp/src/dialogs.rs:438-444 | a degraded reason overrides the wanted status |
| `Dialogs.DialogRuntime.WriteOpening` | crates/rub-cdp/src/dialogs.rs:175-212 | the dialog becomes pending and last, and the status follows |
| `Dialogs.DialogRuntime.WriteClosed` | crates/rub-cdp/src/dialogs.rs:214-256 | the pending dialog is cleared and the last result recorded |
| `Dialogs.DialogRuntime.WriteInterceptFailure` | crates/rub-cdp/src/dialogs.rs:258-289 | the runtime degrades |
| `Dialogs.DialogRuntime.ClearStale` | crates/rub-cdp/src/dialogs.rs:102-126 | clears iff the pending dialog's tab is gone and the caller may commit, and then degrades |
| `Dialogs.DialogRuntime.CommitHookInstall` | crates/rub-cdp/src/dialogs.rs:446-468 | sets the degraded reason and keeps a pending dialog |
| `Dialogs.DegradedStays` | crates/rub-cdp/src/dialogs.rs:438-444 | no write ends degradation |
| `Dialogs.DegradedIff` | crates/rub-cdp/src/dialogs.rs:102-289 | after any run the status is degraded iff some write of it degraded |
| `Dialogs.PendingIff` | crates/rub-cdp/src/dialogs.rs:102-289 | after any run a dialog is pending iff it was opened and nothing since closed, replaced or lost it; a pending dialog is the last one |
| `Dialogs.LastResultIs` | crates/rub-cdp/src/dialogs.rs:214-256 | after any run the last result is that of the last closing, with the user's input iff the last dialog opened before it was a prompt |
| `Dialogs.NoResult` | crates/rub-cdp/src/dialogs.rs:214-256 | without a closing there is none |
| `Dialogs.ReasonIs` | crates/rub-cdp/src/dialogs.rs:102-289 | the reason is that of the last write that degraded |
| `Dialogs.PendingIsLastUnderInterleaving` | crates/rub-cdp/src/dialogs.rs:175-289 | the same under every interleaving with the release flag |
| `Dialogs.ArmedAsGiven` | crates/rub-cdp/src/browser.rs:532-565 | arming gives a policy without a tab the only open page and changes nothing else of it |
| `Dialogs.UnboundIff` | crates/rub-cdp/src/browser.rs:532-565 | arming fails to bind iff the policy has no tab and the one open page cannot be told |
| `Dialogs.DialogIntercept.constructor` | crates/rub-cdp/src/browser.rs:514-530 | a new slot is empty |
| `Dialogs.DialogIntercept.Set` | crates/rub-cdp/src/browser.rs:514-530 | arms the bound policy, fails on a poisoned lock |
| `Dialogs.DialogIntercept.Clear` | crates/rub-cdp/src/browser.rs:568-580 | empties the slot, fails on a poisoned lock |
| `Dialogs.DialogIntercept.TakeMatching` | crates/rub-cdp/src/dialogs.rs:148-173 | takes the policy iff it is for that tab, recovering a poisoned lock |
| `Dialogs.SlotWasArmed` | crates/rub-cdp/src/dialogs.rs:138-173 | a policy in the slot was armed and not disarmed, rearmed or taken since |
| `Dialogs.ConsumedWasArmed` | crates/rub-cdp/src/dialogs.rs:138-173 | a consumed policy was armed, still live, and taken by its own tab |
| `Dialogs.ConsumedIff` | crates/rub-cdp/src/dialogs.rs:138-173 | a take hands out a policy iff that policy is armed, still live, and for its tab |
| `Dialogs.ConsumedOnce` | crates/rub-cdp/src/dialogs.rs:138-173 | no arming is consumed twice |
| `ListenerGeneration.NextListenerEvent` | crates/rub-cdp/src/listener_generation.rs:19-57 | an event is returned only if the generation was current when it arrived; news of an unchanged generation is skipped |
| `ListenerGeneration.DeliveredIsFresh` | crates/rub-cdp/src/listener_generation.rs:19-57 | over its whole life a listener hands on exactly the items that arrive before the generation changes, the channel closes or the stream ends |
| `ListenerGeneration.StaleDeliversNothing` | crates/rub-cdp/src/listener_generation.rs:19-57 | once another generation is read nothing more is handed on |
| `Frames.CollectFrameLineage` | crates/rub-cdp/src/frame_runtime.rs:460-474 | for every parent map, cyclic or not, the walk ends with a duplicate-free path along parent links that stops only at the top or at a repeat |
| `Frames.OneLineage` | crates/rub-cdp/src/frame_runtime.rs:460-474 | there is only one such path |
| `Frames.LineageMeans` | crates/rub-cdp/src/frame_runtime.rs:437-474 | the computed lineage is the only lineage |
| `Frames.MeasureDepth` | crates/rub-cdp/src/frame_runtime.rs:476-509 | the depth walk ends and counts the links up to the main frame, the top or a repeat |
| `Frames.DepthFromLineage` | crates/rub-cdp/src/frame_runtime.rs:476-509 | when the main frame has no parent, depth is lineage length minus one on acyclic chains and lineage length on cyclic ones |
| `Frames.FrameDepth` | crates/rub-cdp/src/frame_runtime.rs:476-509 | a cached depth equals the uncached one and the cache stays right |
| `Frames.FrameDepths` | crates/rub-cdp/src/frame_runtime.rs:307-324 | so for any order of frames sharing one cache |
| `Projection.BodyIsRoot` | crates/rub-cdp/src/projection.rs:368-401 | the traversal root is the first element of the preorder named body in any case |
| `Projection.RootWithoutBody` | crates/rub-cdp/src/projection.rs:368-401 | without one it is the first element child of a document that lists its children, else the node itself if it is an element |
| `Projection.CollectElementBackendIds` | crates/rub-cdp/src/projection.rs:403-413 | appends the ids of the elements in preorder |
| `Projection.ElementIdsInOrder` | crates/rub-cdp/src/projection.rs:403-413 | the ids are those of every element and no other node, each at its rank |
| `Projection.SubtreeIsRun` | crates/rub-cdp/src/projection.rs:403-413 | the preorder of any node of a tree is one run of the tree's preorder |
| `Projection.CollectedIsSlice` | crates/rub-cdp/src/projection.rs:368-413 | the ids collected from the root are a contiguous slice of those of the whole tree |
| `Projection.VerifiedIff` | crates/rub-cdp/src/projection.rs:158-219 | verified iff the root is the same, the count equals the number of backend ids modulo 2^32 and every index is in range; otherwise the warning names the first that fails; both counts modulo 2^32 |
| `Projection.VerifiedResolves` | crates/rub-cdp/src/projection.rs:158-219 | exactly the in-range positions get a reference, each leading back to its backend id and frame, and a verified resolution leaves none out |
| `Projection.RefRoundTrip` | crates/rub-cdp/src/targeting.rs:494-503 | a reference parses back to its backend id iff the frame id has no colon, and to its frame iff moreover that is not blank |
| `Projection.RefIsRead` | crates/rub-cdp/src/targeting.rs:494-503 | any text is read as the signed 64-bit number after its first colon, and as the frame before it unless that is blank |
| `Projection.DecimalRoundTrip` | crates/rub-cdp/src/targeting.rs:494-498 | every 64-bit id parses back from its decimal form |
| `Keyboard.Page.Execute` | crates/rub-cdp/src/keyboard.rs:302-322 | one command, which may fail |
| `Keyboard.Page.KeyDownThenRelease` | crates/rub-cdp/src/keyboard.rs:302-322 | a key that went down was released or has a guard; on success both commands were sent and the guard is gone |
| `Keyboard.Page.Release` | crates/rub-cdp/src/keyboard.rs:286-300 | a failed release leaves its guard |
| `Keyboard.Page.Press` | crates/rub-cdp/src/keyboard.rs:47-64 | a modifier down gets its guard |
| `Keyboard.Page.LetGo` | crates/rub-cdp/src/keyboard.rs:86-99 | a modifier's guard is dropped only after its release succeeded |
| `Keyboard.PressAll` | crates/rub-cdp/src/keyboard.rs:47-64 | modifiers go down in order up to the first failure |
| `Keyboard.ReleaseAll` | crates/rub-cdp/src/keyboard.rs:86-99 | modifiers come up in reverse order up to the first failure, dropping their guards |
| `Keyboard.SendKeys` | crates/rub-cdp/src/keyboard.rs:22-102 | at every exit each key that went down was released or has a pending guard; the commands are the plan up to the first failure; an unknown key sends nothing |
| `Keyboard.CombinationNests` | crates/rub-cdp/src/keyboard.rs:22-102 | the downs and ups of a combination nest like brackets |
| `Keyboard.CombinationCommands` | crates/rub-cdp/src/keyboard.rs:22-102 | the commands of a combination, one by one: each modifier down under its own name, the key, the modifiers up in reverse |
| `Keyboard.TypeUppercase` | crates/rub-cdp/src/keyboard.rs:208-263 | the letter between shift down and shift up, with the same guarantee at every exit |
| `Keyboard.TypeChar` | crates/rub-cdp/src/keyboard.rs:129-165 | the commands of one character, with the same guarantee |
| `Keyboard.TypeText` | crates/rub-cdp/src/keyboard.rs:112-173 | the text's commands up to the first failure, or up to a whole character at which the caller's guard failed, with the same guarantee |
| `Keyboard.TextNests` | crates/rub-cdp/src/keyboard.rs:112-173 | the commands of any text nest like brackets |
| `Keyboard.LookupAscii` | crates/rub-cdp/src/keys.rs:19-22 | an ASCII character that is not upper case is found iff it is a letter, digit or space, and then as itself |
| `Keyboard.LookupNamed` | crates/rub-cdp/src/keys.rs:19-22 | the editing and function keys are found under their names |
| `Keyboard.LookupEnter` | crates/rub-cdp/src/keys.rs:19-22 | the Enter key is found |
| `Keyboard.CharInserts` | crates/rub-cdp/src/keyboard.rs:129-165 | one character inserts itself, a line break a carriage return, unless it is confused with a key |
| `Keyboard.TypingInserts` | crates/rub-cdp/src/keyboard.rs:112-173 | typing inserts exactly the text, each CRLF, CR or LF as one carriage return, iff no character outside ASCII lower-cases to a key name; so always for ASCII text |
| `Keyboard.ConfusedTypesKey` | crates/rub-cdp/src/keyboard.rs:150-155 | a character that lower-cases to a key is typed as that key |
| `Keyboard.KelvinSignTypesLetter` | crates/rub-cdp/src/keyboard.rs:150-155 | so the Kelvin sign is typed as the letter k |
| `Storage.StorageFrame.SetItem` | crates/rub-cdp/src/storage.rs:432-435 | sets one key or, failing, nothing |
| `Storage.StorageFrame.RemoveItem` | crates/rub-cdp/src/storage.rs:436-439 | removes one key or, failing, nothing |
| `Storage.StorageFrame.ClearArea` | crates/rub-cdp/src/storage.rs:412-414 | empties one area or, failing, nothing |
| `Storage.StorageFrame.SnapshotArea` | crates/rub-cdp/src/storage.rs:390-400 | the loop copies every entry that can be an object property |
| `Storage.StorageFrame.TakeSnapshot` | crates/rub-cdp/src/storage.rs:402-410 | both areas as objects |
| `Storage.StorageFrame.Fill` | crates/rub-cdp/src/storage.rs:459-466 | a cleared area holds part of what is wanted, all of it on success, and the other area is untouched |
| `Storage.StorageFrame.ReplaceWith` | crates/rub-cdp/src/storage.rs:451-467 | on success both areas are the snapshot's properties; uncommitted means unchanged; committed means stopped at one of the listed points |
| `Storage.StorageFrame.Mutate` | crates/rub-cdp/src/storage.rs:429-470 | the flag says whether an area may have changed, for every operation |
| `Storage.StorageFrame.Run` | crates/rub-cdp/src/storage.rs:371-483 | success is the whole effect and an exact snapshot; failure without the flag is no change; failure with it is a listed stopping point; an origin refusal is never committed |
| `Storage.Execute` | crates/rub-cdp/src/storage.rs:134-310 | a report that nothing was committed is always true, through both error paths; a capture implies no frame drift; the internal error follows the whole effect |
| `Storage.EffectAt` | crates/rub-cdp/src/storage.rs:429-470 | what each operation leaves under each key of each area |
| `Storage.RefusedIff` | crates/rub-cdp/src/storage.rs:416-427 | an operation is refused iff the origin is unknown or opaque, or not the expected one or the snapshot's, and for which reason |
| `Storage.SteadyIsNotDrifted` | crates/rub-cdp/src/storage.rs:288-310 | a frame with the same id and url whose known origins are the expected one has not drifted |
| `Storage.ReplaceMeansSnapshot` | crates/rub-cdp/src/storage.rs:451-467 | a replacement leaves the areas equal to the snapshot iff no key is `__proto__` |
| `Storage.CaptureReplaceRoundTrip` | crates/rub-cdp/src/storage.rs:390-467 | capturing and later replacing restores the areas iff no key is `__proto__` |
| `Storage.ProtoKeyIsLost` | crates/rub-cdp/src/storage.rs:390-400 | with that key the replacement loses the entry |

## Left out

- CorrelationRegistry.RequestCorrelationRegistry.RecordAt: what the registry does after two entries have collided on the last id of a saturated counter is not modelled beyond the repeated id.
- CorrelationRuns.SingleHandOut: the runs use ids that never repeat, as the registry's do not until its 64-bit counter saturates.
- Interception.HandleRequestPaused: preparation and actuation are two given outcomes, and the plan's conversion to protocol parameters is not modelled.
- The authority reset and restore (crates/rub-cdp/src/browser/runtime_authority.rs, lines 880-889 and 1035-1046), which replace the registry, the dialog runtime, the intercept slot and the download projection as a whole: the run theorems speak of what happens between two of them. A reset ends degradation, and a restore brings back what its snapshot held, taken entries and consumed policies included.
- Keyboard.TypeText: the pauses between characters are not modelled, and neither is a guard's timer firing while commands are still being sent.
- Keyboard.SendKeys: key codes, `code` names and modifier flags of the commands are not modelled, only which key goes down or up and what text it types.
- Storage.Execute: the parsing of a frame URL into an origin is not modelled; the frame's origin is given with the frame.
- HttpHead.StatusDecides, and the laws after it: the head is ASCII text with no carriage return inside a line; other heads are covered by what `HttpReader.CommittedIsStable` and `HttpReader.ReadResponse` say of every stream.
- HttpReader.ReadResponse: read errors and the deadline are not modelled.
- ListenerGeneration.NextListenerEvent: which branch of the select completes, and what the channel holds at each read, is given turn by turn.
- Unicode lower-casing and white space: lower-casing is a parameter known only on ASCII text, and white space is the set the text module lists.
- The text of error messages, the fallback metrics of the registry and log output.
- The download projection's snapshot restore, its listeners' setup and the normalisation of protocol values.
- The dialog handling command, and the page hooks around the publishers.
- Element fingerprints, bounding boxes, frame documents and the ordering of the frame inventory: comparisons and lookups with little to prove.
- Protocol calls, sockets, deadlines and process management.
- Injected JavaScript other than the storage program, stealth, profiles and humanised delays.
- Update in place of the response buffer and of the DOM id vector: both are values that are reassigned.
