# Traceloom: a verified model

Traceloom appends trace events to a directory of JSONL shards that many processes share. Before an
event is written its payload is sanitized: secrets are masked, sizes are bounded, and whatever is
left out is marked. A command-line reader later reassembles the timeline of one trace.

This project models the parts of the Go program in which a mistake would lose, corrupt or disclose
data, and proves what the code and its documentation promise about them.

## How the project is organized

**The shard writer.** `Protocol.dfy` is a labelled transition system: any number of writers, one
system call per step, two kinds of kernel lock, stale sizes, races for the last space in a shard,
failures in the middle of a record, repair, retention and crashes. `ProtocolInvariant.dfy` proves
an inductive invariant, step by step; `ProtocolTheorems.dfy` states what it means for every
reachable state, and `Histories.dfy` what stays as a run goes on. `Shards.dfy` relates the bytes of a
shard to its lines, and `TornLines.dfy` shows that no line with a broken fragment is a JSON object.
`ShardWriter.dfy` holds the source's `Write`, `rotate` and their helpers as a class with loops and mutable fields. Each system
call in it is one protocol step that must be enabled, and between two calls any other writers may
run, so every behaviour of the class is a run of the protocol. A call that fails, a lock that cannot
be had in time included, is counted as a fault, and what a writer opens, sweeps and removes is recorded with its steps.

**Shard names and dates.** `ShardNames.dfy`, `Calendar.dfy` and `Decimals.dfy` cover what is printed,
what is recognized, and why comparing date strings is calendar arithmetic.

**The sanitizer.** `Payload.dfy` gives payloads (finite heaps, shared and cyclic ones included) a
meaning without a budget: an ordered tree. `Budget.dfy` defines the cut of such a tree to a number
of nodes. `Sanitizers.dfy` is the source's traversal, with its mutable budget and its set of
references on the current path, proved to produce exactly the cut of that tree.
`Telling.dfy` says, without walking it, what the tree of a payload has to be. `Masking.dfy`,
`Disclosure.dfy`, `Unfolding.dfy`, `Bounds.dfy`, `Markers.dfy` and `Emission.dfy` draw the
consequences. `Keys.dfy` and `Utf8.dfy` treat keys and truncation; `Configurations.dfy` validates
settings.

**From event to timeline.** `EventNames.dfy` and `Traces.dfy` model `EventContext`, `Timelines.dfy` the
reader, and `EndToEnd.dfy` joins them: exactly which events a reader shows that takes no lock, reading
one file after the other while others write, rotate, expire shards and crash. `Lex.dfy`, `Sets.dfy`
and `Wrappers.dfy` hold what all of them use.

A Go string is a Dafny `string` in which each character stands for one byte. Comparison of strings
is Go's (`Lex.Less`), not Dafny's prefix order.

## Steps of the protocol

| event | source |
|---|---|
| `Begin` | jsonl_writer.go:38-70 |
| `LockDirectory`, `LockFails` | jsonl_writer.go:186-192 |
| `CloseHandle` | jsonl_writer.go:194-196, jsonl_writer.go:317-326 |
| `Discover` | jsonl_writer.go:198-201, jsonl_writer.go:237-250 |
| `Probe` | jsonl_writer.go:203-211 |
| `Open` | jsonl_writer.go:213-228 |
| `SkipRetention`, `StartRetention`, `Remove`, `FinishRetention` | jsonl_writer.go:229-232, jsonl_writer.go:280-301 |
| `UnlockDirectory` | jsonl_writer.go:192 |
| `LockShard`, `LockFails` | jsonl_writer.go:73-76 |
| `Stat` | jsonl_writer.go:78-93 |
| `Transfer`, `TransferFails`, `FinishWrite` | jsonl_writer.go:95, jsonl_writer.go:372-385 |
| `Repair` | jsonl_writer.go:96-98, jsonl_writer.go:310-315 |
| `Unlock` | jsonl_writer.go:99-107 |
| `Close` | jsonl_writer.go:127-137 |
| `Crash` | the process dies; nothing of the source runs |

## Where the code and its documentation differ

- `parseShardName` is said to recognize only names that the writer produces (jsonl_writer.go:252-254).
  It also recognizes an index with a plus sign or leading zeros: `ShardNames.ImpostorIsRecognized`.
  Such a file is rotated past and removed by retention although it "belongs to somebody else":
  `ShardNames.ImpostorsExpireToo`. Exactly when a recognized name is the writer's own:
  `ShardNames.RecognizedNamesAreOurs`.
- `normalizeKey` is called collision-free (sanitizer.go:377-380). A key within the limit may spell
  the truncated form of a longer one and overwrite it: `Keys.EveryLongKeyHasATwin`. With distinct
  digests that is the only collision: `Keys.CollisionExactly`.
- Key folding is documented as ASCII (README.md:179). `CanonicalizeKey` lower-cases by Unicode first,
  so U+212A folds to `k` and U+0130 to `i`, and these are the only exceptions:
  `Keys.KelvinSignFoldsToK`, `Keys.FoldingIsAsciiExactlyWithoutLookalikes`.
- The last fallback of `normalizeEventName` (trace.go:108-110) is never reached:
  `EventNames.LastFallbackIsDead`.
- The size limit is "at most the limit, or a single line": a degraded record is not measured again
  (jsonl_writer.go:336-339) and an empty shard takes any line (jsonl_writer.go:85).
- An event reported as dropped may be stored all the same, when unlocking fails or when a write
  reports an error after its last byte (jsonl_writer.go:95-105). Exactly when such an event is shown:
  `EndToEnd.ShownExactly`.
- Nothing keeps `maxRecordBytes` (configuration.go:130-132) below the 8 MiB that the reader takes for
  one line (internal/eventtracecli/command.go:20-22). With the default limit it takes 32
  crashes or failed repairs in one directory to reach it: `EndToEnd.ShortRecordsHideNothing`,
  `EndToEnd.DefaultRecordsAreShort`. A record of that size hides itself and the rest
  of its file, which is why `EndToEnd.UnexpiredIsReachedExactly` speaks of the lines up to a record.
- A payload string may spell a marker text: "[CIRCULAR_REFERENCE]" and "[REDACTED]" say nothing about
  where they come from (sanitizer.go:20-21, sanitizer.go:168). Exactly which strings do that:
  `Markers.MarkerTextsAreForgeable`. Marker keys cannot be forged: `Markers.MarkersAreUnforgeable`.
- A circular marker is no proof of a cycle. An acyclic payload gets one if it holds two slices with
  the same base, one inside the other (sanitizer.go:126-132): `Unfolding.AliasedSlicesLookCircular`.
  Exactly when there is a marker: `Unfolding.CircularMarkerExactly`.
- An entry whose key collides with another's is lost without being counted as omitted:
  `Bounds.TwinIsLost`. Of the entries of maps and lists and the visible fields of structs, nothing
  else is lost silently: `Bounds.NothingIsLostSilently`.
- Keys are bounded and escaped, but not checked for malformed text, which the JSON encoder replaces
  by U+FFFD; two keys may so become one: `Markers.MalformedKeysReadAlike`.
- A list that ends in a map whose entries were all omitted reads like a list with that many items
  omitted: `Markers.OmissionsAreAmbiguous`. All that the JSON of a result tells its reader:
  `Markers.JsonTellsWhatIsRead`.

## Model

| member | source | states |
|---|---|---|
| ProtocolInvariant.InitHolds | jsonl_writer.go:31-36 | any number of new writers and an empty directory satisfy the invariant |
| ProtocolInvariant.StepKeeps | jsonl_writer.go:38-108 | whatever the next step of whichever writer is, crash, failed repair and retention included, it keeps the invariant on files, locks, handles, histories and order |
| ProtocolInvariant.RunsKeep | jsonl_writer.go:38-108 | every state of every run satisfies the invariant |
| ProtocolInvariant.StepIsRelied | jsonl_writer.go:73-76 | no step of another writer touches a file or the directory while this writer has it locked, nor removes a finished append, nor brings an unlinked shard back |
| ProtocolInvariant.OnlyWritesGrow | jsonl_writer.go:310-315 | no step other than a write and the repair's newline makes a file longer |
| ProtocolInvariant.OpenNewKeeps | jsonl_writer.go:213-228 | creating the next shard under the directory lock keeps the invariant, the order of histories across shards included |
| ProtocolInvariant.RemoveKeeps | jsonl_writer.go:291-299 | unlinking an expired shard, which another writer may still have open, keeps the invariant |
| ProtocolInvariant.TransferKeeps | jsonl_writer.go:372-385 | a chunk continues the line begun under the lock and the file respects its limit with it |
| ProtocolInvariant.RepairKeeps | jsonl_writer.go:310-315 | all three outcomes of a repair keep the invariant: truncated, closed with a newline, or neither |
| ProtocolInvariant.CrashKeeps | jsonl_writer.go:95-99 | a crash at any point, locks released and nothing repaired, keeps the invariant |
| ProtocolTheorems.FilesAreWholeLines | jsonl_writer.go:303-315 | whatever has crashed elsewhere, a file that nobody is appending to and in which no fragment dangles splits at its newlines into one line per append: a whole record, or a fragment closed with a newline |
| ProtocolTheorems.FilesAreTheirSegments | jsonl_writer.go:303-315 | in every reachable state the lines of a file are those of what appends have left in it, the unfinished append counting as one more segment |
| ProtocolTheorems.DanglingFragmentsSpoilAtMostOneRecordEach | jsonl_writer.go:303-309 | with crashes, failed repairs and an append in progress, k unterminated fragments spoil at most k whole records of a file, and all others are lines of their own, in order |
| ProtocolTheorems.AccidentsAreTheDanglingFragments | jsonl_writer.go:303-315 | over all files of any reachable state, unlinked ones included, there are exactly as many unterminated fragments as there were crashes and failed repairs in the middle of a record, so k of these spoil at most k records of the whole directory |
| ProtocolTheorems.FilesRespectTheLimit | jsonl_writer.go:85-93 | a file has at most maxFileBytes bytes or holds a single, possibly partial, line, in every reachable state |
| ProtocolTheorems.AttemptsLeaveAtMostOneTrace | jsonl_writer.go:95-107 | no attempt, acknowledged, failed or in progress, is found at two places of the log |
| ProtocolTheorems.AcknowledgedExactlyOnce | jsonl_writer.go:95-107 | an acknowledged record stands whole, at exactly one place, in a file of its own date, which is in the directory unless a sweep with a later cutoff has run |
| ProtocolTheorems.AcknowledgedLineIsReadable | jsonl_writer.go:95-107 | in bytes: after any number of crashes, and whoever is appending there, the line at that place of the file ends with the record, and it is the record exactly if no unterminated fragment stands right in front of it |
| ProtocolTheorems.AcknowledgedInOrder | jsonl_writer.go:198-213 | read by index, the shards of one date show a writer's acknowledged records in the order of acknowledgement, despite competing rotations |
| ProtocolTheorems.RotationMovesForward | jsonl_writer.go:198-213 | a rotation opens no shard below the highest index of its date, and at most the next one above it |
| ProtocolTheorems.NothingBehindTheOpenShard | jsonl_writer.go:237-250 | while a shard is open, nothing of this writer lies in a later shard of that date |
| ProtocolTheorems.ShardIndexNeverDecreases | jsonl_writer.go:198-213 | over any run, with competing rotations and crashes, a writer never goes back to an earlier shard of a date that has not expired |
| ProtocolTheorems.RepairIsLocal | jsonl_writer.go:310-315 | truncation removes exactly the failing writer's fragment; the other outcomes remove nothing; no other file changes |
| ProtocolTheorems.CrashesAreAlwaysPossible | jsonl_writer.go:73-107 | a process may die at any moment; its locks are free then, its event has failed, and no byte and no directory entry changes |
| ProtocolTheorems.NoHoldAndWait | jsonl_writer.go:66-93 | nobody waits for a lock or holds a shard lock while holding the directory lock, and a file's lock belongs to a writer that has that file open |
| ProtocolTheorems.DeadlockFree | jsonl_writer.go:66-93 | while any event is in progress, some writer in the middle of an event can take its next step |
| ProtocolTheorems.TwoProbesSuffice | jsonl_writer.go:203-211 | under the directory lock at most one shard is skipped, and the one after it does not exist, so it is opened |
| ProtocolTheorems.RetryMeansGrowth | jsonl_writer.go:85-93 | a writer that has just rotated finds its shard full only if the shard has grown since it was probed |
| Histories.ReachableLedger | jsonl_writer.go:38-108 | in every reachable state a writer's attempts have different tickets, and every record in any file is an attempt that was acknowledged, has failed, or is being written |
| Histories.LaterStatesPreserve | jsonl_writer.go:38-108 | over any run, attempts, acknowledgements and finished appends stay, and no file changes its shard |
| Histories.AttemptsStayInOneFile | jsonl_writer.go:73-107 | an attempt that has left anything in one file, even an unfinished append that is truncated later, leaves nothing in another one at any later time |
| Shards.LinesOfContent | jsonl_writer.go:303-309 | splitting a shard's bytes at newlines gives back what was appended, a dangling fragment running into its successor |
| Shards.DanglingSpoilsAtMostOneEach | jsonl_writer.go:303-309 | dangling fragments spoil at most one whole record each, and the remaining ones are a subsequence of the lines |
| TornLines.RecordsAreObjects | event.go:22-30 | a line whose first name is `timestamp`, as every record's is, meets what is assumed of records |
| TornLines.ObjectsCloseNothing | jsonl_writer.go:303-306 | whatever a JSON scanner has open, inside a string or not, is still open behind the beginning or the whole of another record |
| TornLines.LinesAreObjectsOnlyIfWhole | jsonl_writer.go:303-309 | a line of a shard is one JSON object exactly if it is a single full record, with or without its newline: neither a record appended straight onto a fragment, nor a fragment closed with a newline, can be decoded |
| TornLines.RecordsAreLines | jsonl_writer.go:303-309 | each full record with nothing in front of it and nothing glued to it is such a line |
| ShardWriter.World.Interfere | jsonl_writer.go:73-107 | any number of steps of other writers leave this one's lock and file alone, and make files grow only by spending their finite budget |
| ShardWriter.HighestOfIsHighest | jsonl_writer.go:242-249 | accumulating the larger index over a listing in any order ends at the highest index of the date |
| ShardWriter.JSONLFileWriter.constructor | jsonl_writer.go:31-36 | a new writer is open and has no shard |
| ShardWriter.JSONLFileWriter.Write | jsonl_writer.go:38-108 | every event ends in exactly one new entry of the writer's history, and it is acknowledged if and only if the writer is open and no system call fails; a closed writer takes none; more than one rotation happens only if other writers made files grow; retention sweeps with the cutoff today minus the retention days, once, if a shard was opened and the event's date is not the one swept last, and removes nothing else |
| ShardWriter.JSONLFileWriter.TryShard | jsonl_writer.go:73-107 | one look under the shard lock acknowledges, fails exactly if a call fails, or retries with nothing recorded; it retries after a rotation only if another writer made a file grow |
| ShardWriter.JSONLFileWriter.StatShard | jsonl_writer.go:78-93 | the size under the lock decides: appended at that size if the shard is empty or has room, retried only if it is neither, failed exactly if the size cannot be read |
| ShardWriter.JSONLFileWriter.Append | jsonl_writer.go:95-107 | an append is acknowledged if and only if every write takes bytes without an error and the lock is released without one |
| ShardWriter.JSONLFileWriter.WriteAll | jsonl_writer.go:372-385 | partial writes add up to the whole line; a reported error or a write of nothing ends it, even behind the last byte, with the number of bytes written, which selects repair or none |
| ShardWriter.JSONLFileWriter.RestoreLineBoundary | jsonl_writer.go:310-315 | afterwards the file holds exactly what it held when the append began, or, only if truncating fails, the fragment with a newline behind it, or, only if that fails too, the bare fragment |
| ShardWriter.JSONLFileWriter.Rotate | jsonl_writer.go:186-235 | a rotation ends with a shard of the event's date open whose size was read, or, exactly if a call fails, with the event failed and the directory lock released; retention is as for `Write` |
| ShardWriter.JSONLFileWriter.OpenFrom | jsonl_writer.go:203-234 | the unbounded probing loop terminates, within two probes; afterwards the directory holds what it held and the shard opened, less exactly the shards before today minus the retention days if a sweep was due; if it fails, no other shard is gone |
| ShardWriter.JSONLFileWriter.OpenShard | jsonl_writer.go:213-234 | so it is for opening one shard: the sweep that follows uses the cutoff today minus the retention days, on the first opening for a date that is not the one swept last |
| ShardWriter.JSONLFileWriter.OpenFile | jsonl_writer.go:213-228 | the open file is no longer than the size that was probed, unless another writer has appended since |
| ShardWriter.JSONLFileWriter.DiscoverShardIndex | jsonl_writer.go:237-250 | the loop over the listing finds the index that the protocol's step takes |
| ShardWriter.JSONLFileWriter.ApplyRetention | jsonl_writer.go:280-301 | a sweep happens once per date and only with retention on; a successful one leaves exactly the shards from the cutoff on, a failed one closes the new shard again |
| ShardWriter.JSONLFileWriter.Sweep | jsonl_writer.go:291-299 | a successful sweep removes exactly the shards before the cutoff and keeps all others |
| ShardWriter.JSONLFileWriter.CloseHandle | jsonl_writer.go:317-326 | the handle is gone even if closing it reports an error, and without a handle there is none |
| ShardWriter.JSONLFileWriter.Close | jsonl_writer.go:127-137 | closing is terminal and idempotent, and records nothing |
| ShardNames.NamesRoundTrip | jsonl_writer.go:255-276 | parsing a printed name returns the date and the index it was printed from, for every date of the years 0 to 9999 and every 64-bit index |
| ShardNames.NamesLookLikeThis | jsonl_writer.go:364-370 | two names, letter by letter |
| ShardNames.RecognizedNamesAreOurs | jsonl_writer.go:252-276 | a recognized name is one that the writer prints exactly if its index has no plus sign and no leading zero |
| ShardNames.ImpostorIsRecognized | jsonl_writer.go:272-275 | every indexed shard has other spellings, with a plus sign or a zero, that are recognized as that shard |
| ShardNames.EntriesAreDistinct | jsonl_writer.go:364-370 | different shards have different directory entries |
| ShardNames.ListingShowsTheShards | jsonl_writer.go:237-250 | a listing shows all of the writer's shards and whatever is recognized among the other names, and exactly the writer's shards if and only if the others add nothing recognized |
| ShardNames.RetentionIsCalendarCorrect | jsonl_writer.go:285-294 | comparing date strings removes exactly the recognized shards whose Gregorian day number is below today's minus the retention days, cutoffs before year 0 included |
| ShardNames.OwnShardsExpireByDay | jsonl_writer.go:280-301 | for printed names this is the protocol's comparison of days |
| ShardNames.ImpostorsExpireToo | jsonl_writer.go:252-254 | a file that only looks like a shard is removed by the same rule |
| Calendar.YearLength | jsonl_writer.go:285 | the closed day-number formula gives every year 365 or 366 days by the Gregorian rule |
| Calendar.YesterdayIsOneLess | jsonl_writer.go:285 | turning the calendar back one day, across months, years and leap days, lowers the day number by one |
| Calendar.DaysAgoSubtracts | jsonl_writer.go:285 | going back n days subtracts n |
| Calendar.DayNumberOrder | jsonl_writer.go:293 | day numbers order dates by year, month and day, and are unique |
| Calendar.ParseOfFormat | jsonl_writer.go:261 | a formatted date is parsed as itself |
| Calendar.FormatOfParse | jsonl_writer.go:261 | a parsed date is formatted as the text it came from |
| Calendar.StringOrderIsDayOrder | jsonl_writer.go:293 | the order of date strings is the order of days, also against a cutoff before year 0 |
| Calendar.TimestampOrderIsTimeOrder | event.go:40 | the order and equality of timestamp strings are those of the instants in microseconds |
| Calendar.TimestampsLookLikeThis | event.go:40 | a timestamp, letter by letter |
| Decimals.ItoaOfNumber | jsonl_writer.go:364-370 | a numeral without leading zero is the printed form of its number |
| Decimals.FixedWidthOrder | jsonl_writer.go:293 | numerals of one width compare as strings as their numbers do |
| Budget.CutKeepsAPreorderPrefix | sanitizer.go:153-268 | cutting to a budget keeps exactly the first nodes in depth-first preorder |
| Budget.CutIsThePreorderCut | sanitizer.go:153-268 | the cut is the one and only trimming of a tree whose preorder is the first budget-many nodes |
| Budget.CutSpends | sanitizer.go:160-164 | the budget is spent in full before anything is omitted for it, and a tree within the budget is left alone |
| Sanitizers.Sanitizer.Sanitize | sanitizer.go:48-71 | the stateful traversal returns the emitted preorder cut of the payload's budget-free tree, which is the one that tells the payload |
| Sanitizers.Sanitizer.Normalize | sanitizer.go:73-151 | for any value, depth, path and budget left, the result and the budget spent are those of the cut, and the set of visited references is restored |
| Telling.TheTreeTellsThePayload | sanitizer.go:73-151 | a tree is that of a value exactly if it tells it: primitives are themselves, nil is null, text is itself, or its size and longest valid prefix, or its size and first 32 bytes; failures and unsupported kinds have their markers; lists show their first items, maps and structs all their names in order, sensitive ones without their value |
| Telling.TextIsTold | sanitizer.go:324-336 | valid text within the limit is kept, longer text is cut to its longest valid prefix, malformed text is shown as bytes |
| Disclosure.SanitizedTellsThePayload | sanitizer.go:48-71 | the sanitized payload is the emitted cut of the one tree that tells it |
| Sanitizers.Sanitizer.NormalizeStringMap | sanitizer.go:153-178 | the loop over sorted keys computes the cut of the map's tree |
| Sanitizers.Sanitizer.NormalizeSlice | sanitizer.go:180-203 | two limits in one loop compute the cut of the capped list, with one count of what either left out |
| Sanitizers.Sanitizer.NormalizeStruct | sanitizer.go:205-268 | fields by JSON name, the last one winning, sorted, zero omitempty fields dropped first, compute the cut of the struct's tree |
| Sanitizers.Sanitizer.VisibleKeys | sanitizer.go:210-247 | a name is listed exactly if the last included field of that name is not an empty one marked omitempty; the list ascends; each name stands for that last field |
| Payload.FieldsByNameIsDetermined | sanitizer.go:207-232 | the table built by the loop is the only one that has a name exactly if an included field has it, and then the last such field |
| Payload.StructKeysAreTheVisibleNames | sanitizer.go:234-247 | the keys of a struct are the one and only ascending list of its visible names |
| Payload.NamedFieldsExactly | sanitizer.go:210-226 | which fields have a name: the reachable exported ones, by tag or else by Go name, but not "-" and no untagged embedded struct |
| Lex.AscendingIsUnique | sanitizer.go:239 | a set of keys has one ascending list, so sorting is determined by its result |
| Sanitizers.Sanitizer.Assign | sanitizer.go:365-372 | an entry is stored under its bounded and escaped key |
| Payload.EnteringLeavesLess | sanitizer.go:126-132 | following a reference that is not on the path leaves fewer references to follow, which is why cyclic payloads terminate |
| Masking.MaskingIsNonInterference | sanitizer.go:166-171 | payloads that agree outside values under sensitive keys and fields, up to a renaming of addresses, give the same output, budget and omission counts included |
| Disclosure.PrimitivesAreShown | sanitizer.go:73-151 | a primitive under no sensitive name, within the depth, item and node limits and not overwritten, is in the output at its place |
| Disclosure.WhatIsNotMaskedInterferes | sanitizer.go:166-171 | so payloads that differ in such a primitive are sanitized differently |
| Unfolding.SharingIsHarmless | sanitizer.go:126-132 | an acyclic payload, whatever it shares, is sanitized as the tree it unfolds to exactly if no walk meets two cells that the traversal cannot tell apart; that tree has no circular marker |
| Unfolding.CircularMarkerExactly | sanitizer.go:126-132 | before the budget is applied, there is a circular marker exactly if some walk of references, within the limits and past no secret, meets two cells with one address and type |
| Unfolding.CircularMarkerMeansCycleOrAlias | sanitizer.go:126-132 | where no two cells that matter share an address and type, a payload without a cycle gets no circular marker |
| Unfolding.AliasedSlicesLookCircular | sanitizer.go:126-132 | the acyclic payload [1, [1]] whose inner slice starts at the outer one's base gets a circular marker |
| Emission.CutKeepsLeavesByRank | sanitizer.go:160-164 | a leaf of the tree is in the cut exactly if its preorder rank is below the budget |
| Emission.EmittedExactlyIfSurviving | sanitizer.go:365-372 | a leaf of the cut is in the result exactly if no later colliding key overwrites it or a container around it |
| Emission.CircularMarkerIsEmittedExactly | sanitizer.go:126-132 | the sanitized payload shows a circular marker exactly if one of the tree has a preorder rank below the budget and is not overwritten; without colliding keys the rank alone decides |
| Bounds.SanitizedIsBounded | sanitizer.go:118-120 | at most maxPayloadNodes nodes, nesting at most maxDepth + 1, lists at most maxArrayItems, and nothing missing below the budget |
| Bounds.NothingIsLostSilently | sanitizer.go:153-203 | for any payload and budget, at every depth of the result: a container shows its first entries, those emitted and those counted as omitted are never more than its entries, and they are all of them exactly if no two shown keys are assigned alike |
| Bounds.TwinIsLost | sanitizer.go:365-388 | for every key over the limit, the map of it and of the key that spells its truncation loses one of two entries, with none counted as omitted |
| Markers.EmittedIsGenuine | sanitizer.go:357-372 | at every level, payload keys are within the limit plus one and never spell a marker |
| Markers.MarkersAreUnforgeable | sanitizer.go:357-372 | a marker key is in the JSON exactly if the sanitizer put it there, with its value, and all payload members are there too, under their keys as the encoder repairs them |
| Markers.LeavesAreSpelledOut | sanitizer.go:19-21 | the JSON of every kind of leaf |
| Markers.WithoutCollisionsNothingIsOverwritten | sanitizer.go:365-372 | if the keys of an object do not collide, each entry is in the output under its own key |
| Markers.ShortKeysDoNotCollide | sanitizer.go:365-372 | different keys within the limit never collide, marker-like ones included |
| Markers.JsonTellsWhatIsRead | sanitizer.go:357-372 | two results have the same JSON exactly if they read the same: text markers count as the texts they spell, numbers as their literals, keys as the encoder repairs them, a list's omission marker as a map with nothing but omissions |
| Markers.SanitizedJsonTellsWhatIsRead | sanitizer.go:357-372 | this holds of whatever the sanitizer emits, so nothing else is ambiguous |
| Markers.MarkerTextsAreForgeable | sanitizer.go:324-336 | a payload string comes out as the text of any marker in brackets, or of NaN or an infinity, exactly if it is valid UTF-8 within the limit and spells it |
| Markers.CircularMarkerCanBeForged | sanitizer.go:19-21 | so the string [CIRCULAR_REFERENCE] cannot be told from a circular reference |
| Markers.NumbersReadAlike | sanitizer.go:89-105 | an int, a uint and a literal of one spelling have the same JSON |
| Markers.RepairingChangesExactlyTheMalformed | sanitizer.go:365-372 | exactly the keys that are not valid UTF-8 are changed by the encoder |
| Markers.MalformedKeysReadAlike | sanitizer.go:365-372 | one-entry objects read alike exactly if their keys are repaired alike, which different malformed keys may be |
| Markers.OmissionsAreAmbiguous | sanitizer.go:199-201 | for every number omitted there are two such results |
| Keys.FoldingIgnoresCaseAndPunctuation | configuration.go:289-298 | replacing an ASCII character by one that folds alike, anywhere in a key, does not change its folded form |
| Keys.AsciiFolds | configuration.go:289-298 | an ASCII letter folds to its lower case, a digit to itself, anything else to nothing |
| Keys.FoldingIsPiecewise | configuration.go:289-298 | ASCII text is folded character by character, whatever stands behind it |
| Keys.FoldingIsIdempotent | configuration.go:289-298 | folding a folded key changes nothing |
| Keys.FoldingIsAsciiExactlyWithoutLookalikes | configuration.go:290-298 | folding is the documented ASCII folding exactly for keys without U+0130 and U+212A, malformed text included |
| Keys.KelvinSignFoldsToK | configuration.go:290-298 | U+212A between folded letters folds to `k`, so the key "to", U+212A, "en" is the secret "token" |
| Keys.CanonicalizeKey | configuration.go:290-298 | the loop over the runes computes the folded form |
| Keys.MarkersAreTheShortestReserved | sanitizer.go:360 | the four markers are the reserved keys that are not reserved without their first underscore |
| Keys.ReservedExactly | sanitizer.go:360 | a key is reserved exactly if it is one or more underscores and one of the four names |
| Keys.EscapeRoundTrips | sanitizer.go:362-372 | escaping has an inverse, so it is injective |
| Keys.EscapeAvoidsExactlyTheMarkers | sanitizer.go:357-372 | the escaped keys are all strings except the four markers |
| Keys.AssignedKeyIsBounded | sanitizer.go:374-388 | output keys have at most maxKeyBytes + 1 bytes, a truncated key is never reserved, and no key is a marker |
| Keys.ShortKeysAreSpelledOut | sanitizer.go:365-381 | a key within the limit is kept, with one more underscore exactly if it is reserved |
| Keys.LongKeysKeepTheirFront | sanitizer.go:381-388 | a longer key becomes a front of it, a tilde and its digest; of a valid key the longest valid prefix that fits, of any other nothing but continuation bytes is lost below the limit |
| Keys.CollisionExactly | sanitizer.go:374-388 | with distinct digests two different keys collide exactly if one spells the truncation of the other |
| Keys.EveryLongKeyHasATwin | sanitizer.go:377-380 | every key over the limit collides with some other key |
| Utf8.TruncateUTF8 | sanitizer.go:441-453 | the loop steps back to where a rune starts |
| Utf8.EncodingsAreRunes | sanitizer.go:441-453 | the encoding of every Unicode scalar value is accepted as a rune |
| Utf8.RunesAreEncodings | sanitizer.go:441-453 | and nothing else is: no surrogates, nothing overlong, nothing beyond U+10FFFF |
| Utf8.TruncatedIsLongestValidPrefix | sanitizer.go:441-453 | on valid UTF-8 the result is valid and the longest valid prefix within the limit |
| Utf8.Boundary | sanitizer.go:449-451 | a prefix of valid text is valid exactly if it stops where a rune starts |
| Configurations.NewConfiguration | configuration.go:95-184 | succeeds exactly if no setting is at fault, each condition spelled out; string, record and file limits are nested; a key is sensitive exactly if it folds like a default or configured key, or, unless strict, its folded form holds a fragment |
| Configurations.Validate | configuration.go:116-150 | reports the first fault in the order of the checks |
| Configurations.FoldKeys | configuration.go:159-164 | the key set holds the folded forms, empty ones left out |
| Configurations.SecretsAreSpelledOrHoldFragments | sanitizer.go:338-355 | a key is secret if and only if it folds, not to nothing, like some key of the configuration, or matching is not strict and its folded form is something, a fragment, and something |
| Keys.SecretExactly | sanitizer.go:338-355 | the same over the folded key set |
| Configurations.SpellingsAreSecrets | sanitizer.go:338-355 | every spelling of a configured key is redacted, in strict mode nothing else is, and strict mode redacts less |
| EventNames.NormalizedIsAccepted | trace.go:86-112 | whatever the bytes, an accepted name is valid UTF-8, trimmed, free of stripped characters, not empty, at most 128 bytes |
| EventNames.AcceptedNamesAreFixed | trace.go:86-112 | exactly the clean names are left as they are; normalization is idempotent |
| EventNames.ValidNamesKeepTheirRunes | trace.go:86-112 | of a valid name exactly the runes are kept, in order, that are not stripped and not white space at an end; if there are none, the fallback stands for it |
| EventNames.MalformedNamesAreReplaced | trace.go:91-92 | a name that is not valid UTF-8 becomes the fallback |
| EventNames.RefusedOnlyIfBlank | trace.go:87-90 | a name is refused exactly if it is valid text of white space only |
| EventNames.BoundedIsLongest | trace.go:105-107 | bounding keeps each prefix of at most 128 bytes that does not end in white space |
| EventNames.LastFallbackIsDead | trace.go:108-110 | the bounded name is never empty |
| Traces.AfterBalances | trace.go:48-61 | one event keeps stored and lost numbers a partition of 1 up to the sequence |
| Traces.EveryRunBalances | trace.go:48-61 | over every interleaving of calls on any number of traces, each trace is balanced and the tracer's counter is the sum of its drops |
| Traces.GapsAreTheLostEvents | trace.go:48-49 | the numbers missing between two neighbours in the log are exactly lost events |
| Traces.Trace.constructor | tracer.go:73-82 | a new trace has sent nothing |
| Traces.Trace.EventContext | trace.go:38-65 | the number advances exactly if the name is usable, before the writer is asked; what is handed over is the normalized name and the sanitized payload under that number; the event is stored if and only if it can be encoded, the writer is open and no system call fails; the outcome decides the account, the counter and the error; every event handed over has its own ticket |
| Traces.Trace.Write | jsonl_writer.go:328-341 | an event that cannot be encoded is not written; the line handed over is the full record if that is within maxRecordBytes, and otherwise a degraded one; it is acknowledged if and only if no system call fails |
| Traces.EncodedExactly | jsonl_writer.go:328-341 | which line is written: the full record within the limit, else the degraded one of that reason; a line over the limit is a degraded record |
| Traces.LinesKeepTheLimit | jsonl_writer.go:328-341 | where degraded records are within the limit, every line is |
| Traces.RecordsAreFiledByTimestamp | event.go:32-40 | a record lies in the shards of the date that its timestamp begins with, and of no other |
| Traces.SecretsStayOutOfTheLine | trace.go:43-61 | payloads that agree outside sensitive values are written as the same line |
| Traces.Trace.StaysValid | trace.go:45-46 | whatever the writer does for other traces, a trace's history stays intact |
| Traces.Trace.StoredEventsAreInOrderOnDisk | trace.go:48-61 | two stored events of one date stand in the date's shards, read by index, in the order of their numbers |
| Timelines.FindEvents | internal/eventtracecli/command.go:120-166 | the result is the stable sort of the lines found, file by file; the warning count is the number of scanned lines that contain the ID and cannot be decoded, plus the number of readable files with a line over the cap |
| Timelines.FindInFile | internal/eventtracecli/command.go:125-157 | one file contributes its matching decodable lines up to a line that is too long; its warnings are its undecodable lines that contain the ID, and one if a line is too long |
| Timelines.MentionsAreSharedOut | internal/eventtracecli/command.go:133-143 | each line that contains the ID is shown, warned about, or of another trace, and just one of these |
| Timelines.TokensAreLinesWithoutEnds | internal/eventtracecli/command.go:131-134 | the scanner drops a newline, or a carriage return and a newline, and nothing else |
| Timelines.LongestLines | internal/eventtracecli/command.go:20-22 | a line is too long exactly from 8 MiB on, its newline aside |
| Timelines.StableSortIsStable | internal/eventtracecli/command.go:159-164 | sorted by timestamp and number, with equal keys in their old order and nothing lost |
| Timelines.StableSortIsUnique | internal/eventtracecli/command.go:159-164 | there is only one such list |
| Timelines.TimelineIsInSequenceOrder | internal/eventtracecli/command.go:159-164 | the timeline is in sequence order exactly if the wall clock never ran backwards between the events of the trace |
| Timelines.SequenceOrderIsUnique | internal/eventtracecli/command.go:159-164 | a timeline in sequence order depends only on which events were found, not on shards or files |
| Timelines.RecordIsInTimeline | internal/eventtracecli/command.go:131-142 | a record of the trace in any readable shard, behind no overlong line, is in the timeline |
| Timelines.PrefilterLosesNothing | internal/eventtracecli/command.go:133-135 | the substring test loses nothing exactly if every line of the trace spells the ID as it is |
| Timelines.QuotingLeavesTraceIdsAlone | trace_id.go:9 | JSON quoting leaves exactly the strings without escapes alone, and accepted trace IDs are among them |
| Timelines.QuotingRoundTrips | jsonl_writer.go:343-351 | quoting has an inverse: what RFC 8259 says that the quoted string stands for |
| Timelines.TraceIdsExactly | trace_id.go:9 | the accepted IDs by code points |
| Timelines.QuotedIdIsContained | internal/eventtracecli/command.go:133-135 | so a line that quotes an accepted ID passes the substring test |
| Timelines.PrintTimeline | internal/eventtracecli/command.go:174-192 | behind an event is printed the time since the latest earlier event that has one, never negative; the total is the time of the last event that has one, or zero; the deltas add up to the upward steps |
| Timelines.DeltasAddUp | internal/eventtracecli/command.go:174-192 | the deltas add up to last minus first exactly if the elapsed times never run backwards, and to more otherwise |
| EndToEnd.BeginningIsTold | trace.go:45-61 | from its first step on, an event is one of the trace's attempts, so that it counts even if the process dies in the middle of it |
| EndToEnd.StoriesStayTold | trace.go:45-61 | what has been attempted stays so in all later states, the death of the trace's own process included |
| EndToEnd.StoredEventsAreAcknowledged | trace.go:48-61 | the events that a trace object counts as stored are acknowledged attempts |
| EndToEnd.DecodedLineIsAnAttempt | internal/eventtracecli/command.go:133-142 | a line that decodes to the trace is the full record of one of its attempts, alone in its line, in the file as it was when it was read |
| EndToEnd.ShownExactly | internal/eventtracecli/command.go:120-166 | while others write, an event that was handed over, acknowledged or dropped, is in the timeline if and only if a file read holds its full record, its newline aside, behind no fragment, with nothing glued to it, and with no line up to it over the reader's cap |
| EndToEnd.AcknowledgedIsVisibleExactly | internal/eventtracecli/command.go:105-118 | an event acknowledged before the reading is visible exactly if the reader comes to its place and no fragment stands right in front of it |
| EndToEnd.AcknowledgedIsShownExactly | internal/eventtracecli/command.go:120-166 | and under the same condition it is in the timeline |
| EndToEnd.UnexpiredIsReachedExactly | internal/eventtracecli/command.go:105-131 | the reader comes to a place in a listed shard that has not expired exactly if no line of that file up to it is over the reader's cap |
| EndToEnd.ShortRecordsHideNothing | internal/eventtracecli/command.go:131-157 | if every record has at most n bytes and there were k crashes and failed repairs, and (k + 1) n is within the cap, no line of any file is too long |
| EndToEnd.ShortRecordsAreReached | internal/eventtracecli/command.go:105-157 | then the reader comes to every place in a listed shard that has not expired |
| EndToEnd.DefaultRecordsAreShort | configuration.go:20-21 | with the default record limit this holds for up to 31 crashes and failed repairs |
| EndToEnd.StoriesKeepTo | jsonl_writer.go:328-341 | a trace whose degraded records are within its limit hands over nothing longer |
| EndToEnd.AtMostOneEventPerAccident | jsonl_writer.go:303-315 | at most as many acknowledged events of a trace stand behind a fragment as there were crashes and failed repairs in the middle of a record |
| EndToEnd.DifferentLinesDifferentNumbers | trace.go:48-61 | two such lines, wherever they lie and whenever they are read, carry different numbers |
| EndToEnd.ClockNeverBackIsClockHeld | event.go:40 | timestamp strings never run backwards by number exactly if the clock readings they were printed from did not |
| EndToEnd.OnlySpoiledAreMissing | internal/eventtracecli/command.go:120-166 | of the events acknowledged before the reading that the reader comes to, exactly those behind a fragment are missing, and they are at most as many as the crashes and failed repairs before |
| EndToEnd.TimelineOfTrace | internal/eventtracecli/command.go:120-166 | if nobody else uses its ID, a trace's timeline shows exactly its visible events, nothing else, and each number once; of those acknowledged before that the reader comes to, at most one is missing per crash or failed repair; it is in sequence order exactly if the clock readings of the events shown never ran backwards |

## Left out

- Kernel locks: polling, timeouts and `filelock*.go`. A lock is one atomic exclusive step that may also fail.
- Filesystem effects: permissions, `Chmod`, `MkdirAll`, the `directoryReady` cache, directories that are moved under a live handle, `fsync` and `Flush`.
- An unlock that fails is taken to release the lock all the same.
- ShardWriter.World.Interfere: the other writers make files grow any finite number of times during one event, so that `Write` terminates; the protocol itself has no such bound.
- ShardWriter.JSONLFileWriter.ReadDirectory: yields shards instead of names; `ShardNames.ListingShowsTheShards` is the link, with the exact condition on the other names of the directory.
- ProtocolTheorems.FilesRespectTheLimit: all writers of a directory share one limit.
- The wait for the writer's gate and cancellation by a context: the class is called by one goroutine at a time.
- Index overflow beyond 64 bits in the probing loop.
- The JSON library: an arbitrary encoder whose lines end in their only newline, and an arbitrary decoder. Where lines are read back, every writer's lines are taken to be JSON objects whose first name begins with a letter, as `"timestamp"` does; a text that begins with a brace is taken to be decoded only if it is one such object by its brackets and strings. String quoting is modelled on ASCII.
- EndToEnd.TimelineOfTrace: that nobody else uses the trace's ID is a hypothesis, about whole records; nothing is assumed of damaged lines. Each file is read at one moment, different files at different ones; a file that is truncated between two reads of the scanner's buffer is not covered.
- Log files in the directory that are no shard of any writer, which the reader reads as well.
- Clock readings outside the years 0 to 9999, whose dates are not printed with four-digit years.
- Go reflection: payloads are given as heaps of values, with interfaces unwrapped. Marshalers give a decoded tree, a text or a failure; their panics are failures. A panic of the traversal itself does not occur in the model.
- The hex digits of binary previews and the formatting of floats: a preview is kept as its bytes, a float is spelled by an arbitrary function. Literals that `json.Number` accepts as floats and JSON does not ("0x1p4", "Inf") are taken as they are.
- SHA-256: an arbitrary function to 16 characters; distinctness is a hypothesis where it is needed.
- Unicode tables: arbitrary predicates that leave visible ASCII alone. Lower-casing is modelled exactly where it reaches ASCII.
- Library sorting: the sorted key list and the stable sort are specified by properties with one solution each.
- The rounding of elapsed times in a record.
- Read errors in the middle of a log file, terminal escaping, formatting of numbers and times, argument parsing and usage text of the command-line reader.
- Option setters, getters, trace ID generation, the custom error handler, examples and benchmarks.
