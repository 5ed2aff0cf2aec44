# Verification of the Is It SQL core

This project models the parts of Is It SQL that compute something hard to get
right, and proves what they promise, for all inputs and all runs.

* **Blocking** (`Blocking.dfy`, `BlockingTree.dfy`): the walk up a chain of
  blocked sessions and the counts of blocked sessions, on any graph of blockers,
  cycles and missing sessions included.
* **Semantic versions** (`SemverOrder.dfy`, `SemverInc.dfy`, `SemverRange.dfy`,
  `SemverPasses.dfy`, `SemverPrerelease.dfy`, `SemverOutside.dfy`): precedence,
  increments, the rewriting of ranges into comparators and what they mean for
  releases and pre-releases, range tests, and `gtr`/`ltr`. Versions and ranges
  start from their parsed components.
* **Waits** (`WaitBox.dfy`, `WaitRing.dfy`, `WaitRepository.dfy`,
  `RepositoryCalls.dfy`): the charging of waits to groups over interleaved polls
  and emits, the ring of recent lists with its ranking, the repository of rings,
  and its concurrent calls.
* **Text** (`Crlf.dfy`, `Slashes.dfy`, `VersionKey.dfy`): line endings, backslashes
  and the sortable version key.
* **Circular buffer** (`CircularBuffer.dfy`): the head/tail ring that the CPU and
  metric histories share.
* **Error latch** (`ErrorLatch.dfy`): the double-checked error state of the metric
  repository, under concurrent calls.
* `Common.dfy` holds strings, remainders and failure values used by several models.

Objects that the program updates are classes whose methods are tied to a function
of the old state; the lemmas are about those functions. The program's maps of waits
are objects (`WaitBox.WaitMap`), so that handing one over and then forgetting to
start a fresh one would show. Where a map is walked, the model picks the next key
arbitrarily, so the results hold for every iteration order. Times, query results
and the wait table (`lookup`) are inputs. Polls, emits, the locked sections of
`handleError` and of the repository, and the work on one ring are atomic steps, as
their locks make them.

Findings about the code, each with the exact condition under which it shows:

* a poll that finds no request brings no server name. While one server answers, a
  poll therefore resets the wait box exactly when one, and only one, of it and the
  poll before it found no request, and what its requests had waited by then is
  charged to nobody (`WaitBox.IdlePollsReset`);
* `gtr` and `ltr` look at two comparators of a set only. With ordered bounds they are
  right about a version exactly when it is not one that a further bound, or the rule
  on pre-releases, refuses although the nearest edge lets it pass
  (`SemverOutside.OutsideIsExact`): `gtr` holds of 1.5.0 on `>=1.0.0 >=2.0.0 <3.0.0`
  (`SemverOutside.SecondBoundMisleads`), and both hold of 1.5.0-0 on `>=1.0.0 <2.0.0`
  (`SemverOutside.UnopenedPrereleaseMisleads`). For a pair of bounds `gtr` is right
  about releases exactly when the lower is below the upper one
  (`SemverOutside.GtrNeedsProperInterval`); on `1.2.3 - 1.2.3` it never holds, and
  `ltr` holds of every other version (`SemverOutside.LtrOnEqualEnds`);
* an error whose own message is "Error Cleared" logs the same line as a clearance
  (`ErrorLatch.ClearanceCanLookLikeAnError`); this is the only way in which
  neighbouring lines can be equal (`ErrorLatch.EveryInterleaving`);
* concurrent calls of the wait repository are linearizable
  (`RepositoryCalls.EveryRunLinearizes`), but a write that found its ring reaches the
  ring in use exactly when its key was not deleted in between
  (`RepositoryCalls.WriteReachesReaders`, `RepositoryCalls.OvertakenWrite`); the
  overtaken write counts as one that came just before the deletion;
* version keys sort as the versions do exactly while the components stay below
  100000000 (`VersionKey.LimitIsExact`); from nine digits on they sort below smaller
  ones (`VersionKey.NineDigitsSortWrong`). The comment on `VersionToString` shows a
  key of 33 characters; the code yields 32. The comment on `Repository.Top` promises
  the asked number of waits; the code always asks its ring for five. The model follows
  the code in both.

## Model

| member | source | states |
|---|---|---|
| Blocking.HeadBlockerExact | internal/mssql/session/session.go:169-190 | the walk fails exactly when the first 101 ids of the chain are distinct and all blocked; otherwise it visits exactly the reachable ids, once each, and its head is the only unblocked one or the first id met twice |
| Blocking.SmallGraphNeverFails | internal/mssql/session/session.go:17-17 | with at most 100 blocked sessions the depth limit is never reached |
| Blocking.WalkHeads | internal/mssql/session/session.go:169-190 | of every walk that ends, the visited list is the one repeat-free chain of the session, and its head is the reachable unblocked session or the first id that the chain meets twice, and nothing else |
| Blocking.PathSpells | internal/mssql/session/session.go:185-190 | the path split at its slashes is the ids of the chain in decimal, from the end of the chain to the session |
| Blocking.BuildBlockedBy | internal/mssql/session/session.go:60-66 | the map holds exactly the sessions with a row that names a blocker, each with the blocker of its last such row |
| Blocking.CountParents | internal/mssql/session/session.go:82-93 | every visited id other than the start gains exactly one |
| Blocking.WalkRow | internal/mssql/session/session.go:71-93 | one row: an error leaves it as it was; success stores a path that spells its chain, and as head the session that heads the chain unless that is the row's own; the count of every session it waits for grows by one |
| Blocking.WalkRows | internal/mssql/session/session.go:69-94 | the counts are the numbers of waiting rows; a failure stops at the first row too deep |
| Blocking.StoreTotals | internal/mssql/session/session.go:96-102 | totals are set for counted sessions and kept for the others |
| Blocking.PopulateBlocking | internal/mssql/session/session.go:58-104 | succeeds exactly when no chain is too deep; then head and path of every row are told by the blocking graph alone, and its total is the number of rows of other sessions from which it is reachable; a failure leaves a stated partial result |
| BlockingTree.TotalIsSubtreeSize | internal/mssql/session/session.go:82-102 | without cycles the total is the sum over directly blocked sessions of one plus their total |
| BlockingTree.CycleTotalsEqual | internal/mssql/session/session.go:179-183 | sessions on one cycle block equally many |
| SemverOrder.ComparePre | static/js/semver.js:374-402 | the index loop computes the recursive pre-release order |
| SemverOrder.IdentifiersAgree | static/js/semver.js:544-559 | comparing identifiers is zero only on equal ones, flips sign, and follows 11.4.1 to 11.4.3 of Semantic Versioning 2.0.0 |
| SemverOrder.RawIdentifiersAgree | static/js/semver.js:544-559 | the same order when numeral text takes part, which counts as a number |
| SemverOrder.CompareFollowsSpec | static/js/semver.js:357-402 | comparison is the precedence of section 11 of Semantic Versioning 2.0.0, in both directions |
| SemverOrder.CompareAntisymmetric | static/js/semver.js:357-402 | zero exactly on equal cores and pre-releases, build ignored; swapping flips the sign |
| SemverOrder.CompareTransitive | static/js/semver.js:357-402 | comparison is transitive, and strict when a part is |
| SemverInc.SemVer.IncPre | static/js/semver.js:469-492 | the downward scan adds one to the last number and changes nothing else, or appends a zero; an identifier starts over at zero unless it leads the list and a number follows |
| SemverInc.SemVer.Inc | static/js/semver.js:406-499 | in place, every kind yields the stated version; an unknown kind is refused and changes nothing |
| SemverInc.IncIsLeastStep | static/js/semver.js:437-466 | patch, minor and major give the least release of their shape strictly above the input |
| SemverInc.PreKindsExactly | static/js/semver.js:406-499 | for every kind with a pre-release result: which component steps, which start over, and the exact identifiers that follow, with and without an identifier; all kinds keep the build |
| SemverInc.BumpPreIncreases | static/js/semver.js:469-492 | exactly when the next pre-release is higher, for any identifier text and without one |
| SemverInc.IncIncreasesExactly | static/js/semver.js:406-499 | exactly which increments raise precedence: all, but 'pre' of a release, and 'pre' or 'prerelease' with an identifier that sorts too low |
| SemverInc.PreKindsIncrease | static/js/semver.js:408-435 | the four pre-release kinds strictly increase without an identifier |
| SemverInc.PreKindsAreLowest | static/js/semver.js:408-435 | without an identifier they yield the very first version of the next major, minor or patch ('prerelease' for a release) |
| SemverRange.CaretPreserves | static/js/semver.js:894-941 | a caret means at least the version and unchanged up to its left-most non-zero given component |
| SemverRange.TildePreserves | static/js/semver.js:853-880 | a tilde means at least the version with the same major and given minor |
| SemverRange.XRangePreserves | static/js/semver.js:950-1012 | an operator on a partial version compares the given components only |
| SemverRange.HyphenPreserves | static/js/semver.js:1027-1052 | both bounds of a hyphen range are inclusive on the given components |
| SemverRange.RejoinPreserves | static/js/semver.js:795-797 | joining and splitting again drops only "any version" entries |
| SemverRange.CompilePreservesMeaning | static/js/semver.js:729-809 | a release satisfies the compiled range exactly when it has the meaning of one alternative as written |
| SemverRange.TestSet | static/js/semver.js:1070-1101 | the two loops decide: all comparators accept, and a pre-release needs one that opens its core |
| SemverRange.TestRange | static/js/semver.js:1055-1068 | some set accepts |
| SemverPasses.LaterPassesKeep | static/js/semver.js:824-835 | what the caret or tilde pass writes is unchanged by all later passes; every token ends as final comparators |
| SemverPasses.ExpandedIsKept | static/js/semver.js:824-835 | a final comparator passes through unchanged |
| SemverPasses.HyphenIsKept | static/js/semver.js:770-809 | the comparators of a hyphen range pass through unchanged |
| SemverPasses.BoundsOf | static/js/semver.js:847-941 | a caret or tilde with a major becomes a lower bound and a higher release as strict upper bound |
| SemverPasses.PrereleaseNeedsItsOwnCore | static/js/semver.js:1076-1098 | a pre-release satisfies a caret or tilde exactly when the range names a pre-release of its core that is not above it, or allows any version |
| SemverPasses.CompileSucceeds | static/js/semver.js:690-706 | building succeeds exactly when the given components, and the one that each operator steps, do not exceed 9007199254740991 |
| SemverPrerelease.HyphenRenders | static/js/semver.js:1027-1052 | a pre-release passes a hyphen range exactly when it lies between the ends as written and an end names a pre-release of its core, or both ends are wildcards |
| SemverPrerelease.CompileMeansForPrereleases | static/js/semver.js:729-1101 | a pre-release satisfies any compiled range exactly when one alternative admits it as written: bounds are compared with the releases before it, and a token must name a pre-release of its core or a wildcard stand at an end |
| SemverOutside.ScanEdges | static/js/semver.js:1181-1192 | the scan throws exactly when it meets "any version"; else no comparator lies beyond the high edge or before the low one, and each edge is the first such |
| SemverOutside.Outside | static/js/semver.js:1145-1210 | the whole test, with its early exits in order |
| SemverOutside.BoundsTrichotomy | static/js/semver.js:1070-1101 | a release is below, in or above ordered bounds, and never two of them |
| SemverOutside.OutsideBounds | static/js/semver.js:1133-1210 | for a union of ordered bounds, in any number and order, and any version, pre-releases included, gtr and ltr hold exactly when the version is past, or misleads, every set |
| SemverOutside.OutsideIsExact | static/js/semver.js:1194-1207 | the answer on ordered bounds is right exactly when the version does not mislead |
| SemverOutside.OutsideThrows | static/js/semver.js:1175-1192 | a set with "any version" makes the test throw exactly when no set accepts and all earlier sets leave the version outside |
| SemverOutside.OutsideIntervals | static/js/semver.js:1133-1210 | intervals, one-sided ones included, mislead about no release: gtr holds exactly above every one and ltr exactly below every one |
| SemverOutside.OutsideTrichotomy | static/js/semver.js:1133-1210 | for one interval exactly one of ltr, satisfies and gtr holds |
| SemverOutside.GtrNeedsProperInterval | static/js/semver.js:1194-1207 | for a lower and an upper bound, gtr is right about all releases exactly when the first is below the second; otherwise it never holds |
| SemverOutside.LtrOnEqualEnds | static/js/semver.js:1181-1207 | with equal ends ltr holds of every version that is not accepted |
| SemverOutside.SecondBoundMisleads | static/js/semver.js:1203-1209 | gtr holds of a release below the second lower bound |
| SemverOutside.UnopenedPrereleaseMisleads | static/js/semver.js:1203-1209 | gtr and ltr both hold of every pre-release between two bounds that the bounds do not name |
| SemverOutside.CaretsAndTildesAreIntervals | static/js/semver.js:847-941 | carets and tildes compile to intervals; below and above are told by the range as written |
| WaitBox.Box.MapAndSaveWait | internal/dwaits/box.go:351-375 | adds to the mapped group; empty and excluded waits change nothing |
| WaitBox.Box.PollRequest | internal/dwaits/box.go:300-327 | one request adds its charge to its group and to no other, and is stored |
| WaitBox.Box.ChargeRequests | internal/dwaits/box.go:300-328 | the whole loop adds the charge of the poll to every group, in any order of requests |
| WaitBox.Box.RemoveInactive | internal/dwaits/box.go:333-341 | exactly the requests not polled are forgotten |
| WaitBox.Box.PollWaits | internal/dwaits/box.go:261-349 | a poll is the poll step of the state machine and leaves exactly the polled requests stored; a failed one changes nothing; emitted maps are untouched |
| WaitBox.Box.EmitWaits | internal/dwaits/box.go:190-200 | hands over the very map that was filled, with its content, and continues with a fresh empty one |
| WaitBox.EmitHandsOver | internal/dwaits/box.go:190-200 | after any run an emit hands over exactly what was held and leaves nothing held |
| WaitBox.EmitHoldsCharges | internal/dwaits/box.go:190-349 | an emitted list holds exactly the charges since the emit before it |
| WaitBox.ChargeOverSplit | internal/dwaits/box.go:300-328 | the sum of charges does not depend on the order of requests |
| WaitBox.RunConserves | internal/dwaits/box.go:190-349 | over every interleaving, emitted plus held amounts are the charges of the polls, and emitted lists stay as they are |
| WaitBox.RunRemembersLastPoll | internal/dwaits/box.go:281-341 | after any run the box holds the requests, server and boot time of the last successful poll and nothing older, across emits, failures and resets |
| WaitBox.ChargesTelescope | internal/dwaits/box.go:311-327 | a steady wait is charged, to its group only, its last reading minus the reading stored before the run |
| WaitBox.ChargeIsMetered | internal/dwaits/box.go:281-341 | over any run, with falls, changes, disappearances and resets: a request is charged every reading that no later reading of the same wait continues, minus the readings stored before the run or by a reset |
| WaitBox.WaitsAreMetered | internal/dwaits/box.go:190-349 | what a group has been handed over and still holds is told by the polled readings alone |
| WaitBox.ChargedGroups | internal/dwaits/box.go:300-375 | a poll gives a group an entry exactly when some request shows a new or moved wait of the group |
| WaitBox.RunChargeIsPerRequest | internal/dwaits/box.go:298-328 | the charge of a run to a group is the sum of the charges of its requests: nothing twice, nothing left out |
| WaitBox.QueryWaits | internal/dwaits/box.go:378-417 | the snapshot has the server of the last row, exactly the requests of the rows, and for each of them its last row |
| WaitBox.IdlePollsReset | internal/dwaits/box.go:281-296 | while one server answers, a poll resets exactly when one, and only one, of it and the successful poll before it is without rows; it charges exactly when it does not reset |
| WaitRing.Ring.Enqueue | internal/waitring/waitring.go:140-147 | the ring holds the newest entries of everything written |
| WaitRing.Ring.Last | internal/waitring/waitring.go:151-159 | the entry written last, or an empty one |
| WaitRing.Ring.Values | internal/waitring/waitring.go:161-182 | the last entries up to the size, in the order written |
| WaitRing.Ring.AddList | internal/waitring/waitring.go:71-80 | only positive durations are added, in any order of groups |
| WaitRing.TotalIsSum | internal/waitring/waitring.go:70-81 | a total is the sum of the positive durations of the group |
| WaitRing.TotalIsPositive | internal/waitring/waitring.go:70-81 | a group has a total exactly when it has a positive entry |
| WaitRing.SortedMap.Less | internal/waitring/sortedmap.go:16-25 | larger total first, then ascending name |
| WaitRing.SortedMap.Swap | internal/waitring/sortedmap.go:27-29 | exactly the two keys change places |
| WaitRing.OutranksIsTotal | internal/waitring/sortedmap.go:16-25 | of two different keys exactly one comes first |
| WaitRing.OutranksTransitive | internal/waitring/sortedmap.go:16-25 | the ranking is transitive |
| WaitRing.Ring.Top | internal/waitring/waitring.go:61-99 | totals are those of the retained lists, keys come by falling total and then rising name, the cut has the asked size and no key left out outranks a kept one |
| WaitRepository.Repository.Write | internal/dwaits/repository.go:121-153 | appends to the log of one key only; ignored when closed |
| WaitRepository.Repository.Values | internal/dwaits/repository.go:166-175 | the last 60 lists of the key, nothing when closed or unknown |
| WaitRepository.Repository.Last | internal/dwaits/repository.go:177-190 | the newest list of the key or an empty one |
| WaitRepository.Repository.Top | internal/dwaits/repository.go:192-205 | the ranking of the visible lists of the key, cut to five |
| WaitRepository.Repository.Delete | internal/dwaits/repository.go:207-214 | forgets one key only; ignored when closed |
| WaitRepository.Repository.Close | internal/dwaits/repository.go:113-119 | closes and keeps everything else |
| WaitRepository.RunShowsLastWrites | internal/dwaits/repository.go:113-214 | after any run of writes and deletions a reader sees the last 60 lists written to the key since its deletion; nothing after a close |
| WaitRepository.KeysAreIndependent | internal/dwaits/repository.go:121-214 | what a reader of a key sees after a run is what it sees after the events of that key alone |
| RepositoryCalls.HistoryLegal | internal/dwaits/repository.go:113-214 | from any reachable state, every read returns what the sequential repository shows at its place in the history, and calls that begin later agree with it |
| RepositoryCalls.HistoryPoints | internal/dwaits/repository.go:121-190 | a call that is done has one point in the history, with its key and list; one that is under way has none |
| RepositoryCalls.EveryRunLinearizes | internal/dwaits/repository.go:113-214 | every interleaving of writes, reads, deletions and closes, with the separate sections of writes and reads, is equivalent to a sequential history in the order of time |
| RepositoryCalls.EffectWithinCall | internal/dwaits/repository.go:121-190 | each call takes effect between its look and its end |
| RepositoryCalls.RealTimeOrder | internal/dwaits/repository.go:121-190 | a call that ended before another began comes first |
| RepositoryCalls.WriteReachesReaders | internal/dwaits/repository.go:121-153 | in an open repository a write extends the log of its key exactly when no deletion of the key came after it found its ring, and touches no other key |
| RepositoryCalls.OvertakenWrite | internal/dwaits/repository.go:127-150 | a write can be enqueued into a ring that is no longer in use |
| Crlf.Normalize.Transform | internal/crlf/transform.go:17-41 | output, state and counts of a call on any buffers; it stops only when the source or the destination is used up |
| Crlf.ToCrlf.Transform | internal/crlf/transform.go:50-70 | the same; it also stops before a line end that lacks room for two bytes |
| Crlf.NormalizeStream | internal/crlf/transform.go:17-41 | repeated calls with any window and buffer sizes of at least one end, with the one-pass output |
| Crlf.ToCrlfStream | internal/crlf/transform.go:50-70 | the same for buffer sizes of at least two |
| Crlf.WithCrlfPlaces | internal/crlf/transform.go:50-70 | every byte moves on by one place for each line feed up to it, a line feed has a CR before it, and nothing else is written |
| Crlf.NormalizedIsUnixLines | internal/crlf/transform.go:11-41 | the one-byte memory reads CRLF, CR and LF as the definition with lookahead does |
| Crlf.NormalizeUndoesToCrlf | internal/crlf/transform.go:17-70 | normalizing undoes the CRLF conversion exactly on texts without CR |
| Crlf.NormalizeAbsorbsRoundTrip | internal/crlf/transform.go:17-70 | normalizing, converting and normalizing again is normalizing once |
| Slashes.FixSlashesEvensRuns | internal/c2/utils.go:15-19 | each maximal run of backslashes becomes even, by one more when odd; all other bytes stay in place |
| Slashes.FixSlashesIdempotent | internal/c2/utils.go:15-19 | fixing twice is fixing once; a text is left alone exactly when all runs are even |
| Slashes.FixSlashesKeepsOthers | internal/c2/utils.go:15-19 | the other bytes are kept in order |
| Common.SplitJoins | internal/mssql/version.go:14-14 | splitting loses nothing, and no part holds the separator |
| VersionKey.First4IsParts | internal/mssql/version.go:14-18 | component i is part i of the version, or zero when there is none |
| VersionKey.AtoiExact | internal/mssql/version.go:21-21 | a component is a number exactly when it is a numeral with at most one sign that fits 64 bits |
| VersionKey.ChunkReads | internal/mssql/version.go:21-26 | the text of a component reads back as its number, negative and large ones included, and has eight characters or more |
| VersionKey.KeyInFull | internal/mssql/version.go:19-28 | the key is the four texts in order |
| VersionKey.VersionToString | internal/mssql/version.go:13-29 | the loops build the key of the first four components |
| VersionKey.KeyIsOrderEmbedding | internal/mssql/version.go:9-29 | 32-character keys compare as the first four components do as numbers, missing or malformed ones as zero |
| VersionKey.NineDigitsSortWrong | internal/mssql/version.go:20-27 | the key of every version from 100000000 to 199999999 sorts below that of every one from 20000000 to 29999999 |
| VersionKey.LimitIsExact | internal/mssql/version.go:9-29 | for every bound, keys of all versions below it sort right exactly when the bound is at most 100000000 |
| Common.ModIsRemainder | internal/cpuring/ring_cpu.go:188-191 | the index reduction used by both rings is the remainder |
| CircularBuffer.Ring.Put | internal/cpuring/ring_cpu.go:66-74 | writing after the head keeps the newest elements up to the capacity |
| CircularBuffer.Ring.Enqueue | internal/cpuring/ring_cpu.go:65-74 | adds the newest element; a full ring loses its oldest |
| CircularBuffer.PushedBound | internal/cpuring/ring_cpu.go:66-74 | an element is dropped exactly when the ring is full, and it is the oldest |
| CircularBuffer.Ring.CheckInit | internal/cpuring/ring_cpu.go:193-203 | first use gives an unused ring 60 empty slots and leaves a used one alone |
| CircularBuffer.Ring.Dequeue | internal/cpuring/ring_cpu.go:76-92 | removes the oldest element, or nothing from an empty ring |
| CircularBuffer.Ring.Peek | internal/cpuring/ring_cpu.go:94-103 | the oldest element, with the queue unchanged |
| CircularBuffer.Ring.GetNewest | internal/cpuring/ring_cpu.go:105-114 | the newest element, with the queue unchanged |
| CircularBuffer.Ring.Values | internal/cpuring/ring_cpu.go:116-132 | the walk from tail to head lists the queue, oldest first |
| CircularBuffer.Ring.Unmarshal | internal/metricvaluering/metricvaluering.go:169-199 | reading back enqueues the stored values one by one |
| CircularBuffer.ReloadExact | internal/metricvaluering/metricvaluering.go:149-199 | storing and reading back keeps the values exactly when there are at most 60, and always the last value |
| CircularBuffer.RunIsFifo | internal/cpuring/ring_cpu.go:65-92 | over every run elements leave in the order they came, none lost or repeated, within the capacity |
| ErrorLatch.Repository.Unchanged | internal/mrepo/repository.go:96-106 | the look finds nothing to do exactly when the messages agree |
| ErrorLatch.Repository.Store | internal/mrepo/repository.go:111-141 | the second look; a difference stores error and time and logs the stated line, no difference changes nothing |
| ErrorLatch.Repository.HandleError | internal/mrepo/repository.go:91-142 | an undisturbed call is one update |
| ErrorLatch.InterleavingIsSequential | internal/mrepo/repository.go:91-142 | every interleaving of looks and locked updates leaves what the calls would leave one after the other |
| ErrorLatch.CallsTakeEffectOnce | internal/mrepo/repository.go:91-142 | every call takes effect once or is still under way |
| ErrorLatch.EffectsComeFromCalls | internal/mrepo/repository.go:91-142 | what takes effect was reported by a call, and what is stored has the time of a locked section |
| ErrorLatch.SequentialLogsChanges | internal/mrepo/repository.go:126-141 | the log shows each change once; error and time are those of the last change |
| ErrorLatch.EveryInterleaving | internal/mrepo/repository.go:91-142 | in every interleaving the error matches the last line, the time is zero exactly without an error, and neighbouring lines differ but for the one stated case |
| ErrorLatch.ClearanceCanLookLikeAnError | internal/mrepo/repository.go:127-139 | the case is real |

## Left out

- SQL queries, HTTP handlers, files, JSON text, clocks and logging: they deliver inputs or show results.
- Session fields that blocking does not touch, the count of sessions per head blocker (computed and never read), and the filter and sort of `session.Get`: they would only add easy members.
- Parsing of version and range text, and loose mode: the model starts from components, and numbers from 9007199254740991 on in pre-releases, which stay text, are not modelled.
- SemverInc.SemVer.Inc: whether text reads as a JavaScript number is a parameter, and numeral text compares as an exact integer, not as a double.
- SemverOutside.OutsideBounds: does not cover sets whose lower bounds are not all below their upper ones, except pairs, nor sets that mix exact versions with other comparators.
- WaitBox.RunConserves: amounts are unbounded integers; wrap-around of 64-bit sums is not modelled.
- The wait table and `SetWaitGroups`: `lookup` is any fixed function from a wait to its mapping.
- The error state that `pollWaitsWrapper` keeps for logging, and the start and stop of the polling goroutines.
- WaitRepository.Repository.Write: is one atomic step in the class; its separate locked sections, and those of reads, are modelled in RepositoryCalls, where `Get` stands for every read of one key. Reading history from files is left out.
- WaitRing.SortedMap.Sort: an insertion sort by `Less` and `Swap` stands for the library sort.
- The slice that a ring which is not full returns shares its array in the original; the model returns a copy.
- `GetHistory`, the raw JSON form of the wait and CPU rings, `Len`, and changing the capacity of a ring in use.
- CircularBuffer.Ring.New: allocates the asked size at once; the original makes 60 slots and then cuts or extends them.
- VersionKey.VersionToString: `Atoi` is that of a 64-bit platform.
- Connection strings and `parseFQDN` of the metric repository; a nil repository, on which calls do nothing.
