# go-util core in Dafny

A Dafny model of the core of `fd/go-util`, with proofs about it.

**Consistent-hash ring.** The main part is the ring in `container/consistent_hash`. `New` turns a node list and a replication factor ("buckets") into a table of virtual entries in five stages:

1. wrap every node into `buckets` partitions;
2. hash every entry;
3. sort by entry hash;
4. drop every entry whose node equals that of its cyclic predecessor;
5. give every entry a preference list, made by rotating a base list.

`Lookup` hashes the key, finds the first entry whose hash is at least the key's, and returns a prefix of that entry's list.

- SHA-1 is a parameter of the model, `sha1: string -> Digest` with 20-byte digests.
- The 8-byte big-endian fold of a digest into a `uint64` is concrete.
- So is the text that gets hashed. The node hash covers `id + "\n"`. The entry hash covers `id + "\n" + decimal(partition) + "\n"`, because the digest is not reset between the two writes.
- `New` returns `Built(ring)` or `Panicked`. It panics in three cases: an empty node list, a non-positive bucket count, or a table that deduplication leaves empty.
- Sorting is unstable in the source, so everything after sorting is proved for *any* sorted permutation of the hashed table.

**Smaller pieces.** The model also covers:

- `errors/list.go`: error lists and how `Add` flattens them; the joined message; the JSON value.
- `errors/stack.go`: `Skip`/`Limit` on stacks; the source-context windows around a line; the split of a runtime function name into package path and function.
- `errors/sentry/packet.go`: the version-4 UUID. This is random bytes with the version and variant fields of section 4.4 of RFC 4122 stamped in, written as lowercase hex. Also the JSON names of the Sentry levels, tag appending and packet copying.
- `log/logger.go` and `log/format_heroku.go`: the logger. This covers `New`, `Sub` (namespace composition and level inheritance), reading the `namespace` field, and the level gate of `emit`/`emitf`. Writes are modelled as a trace of records. The line formatter of the `heroku` build (`log/format_heroku.go`) is modelled too, with the `level_codes` table of `log/format.go`.

**Where the model departs from the comments.** The comment at `ring.go:35-36` says this case arises when the hash is before the first entry; it arises when the hash is past the last entry. The code then uses the last entry, and `ConsistentHash.SelectEntry` states this.

**Preference lists.** `make_entry_rings` is modelled twice:

- as written, where every rotation is applied to the base list;
- corrected, where every rotation is applied to the previous list (see Findings).

`RingBuild.New` is the as-written pipeline. `RingBuild.NewCorrected` is the corrected one.

## Model

| member | source | states |
|---|---|---|
| `ConsistentHash.MakeHash` | container/consistent_hash/ring.go:49-62 | the hash of a key is the big-endian value of the first 8 digest bytes |
| `ConsistentHash.MakeHashBijective` | container/consistent_hash/ring.go:54-61 | two digests fold to the same hash exactly when their first 8 bytes agree; every `uint64` is reached; 256^8 = 2^64 |
| `ConsistentHash.DigitsOfFold` | container/consistent_hash/ring.go:54-61 | unfolding a folded byte string gives back the bytes |
| `ConsistentHash.FoldOfDigits` | container/consistent_hash/ring.go:54-61 | folding the bytes of a value below 256^k gives back the value |
| `ConsistentHash.Search` | container/consistent_hash/ring.go:31-33 | binary search on a sorted table returns the lower bound: every entry before it hashes below the key, every entry from it on hashes at or above the key |
| `ConsistentHash.PicksEntryUnique` | container/consistent_hash/ring.go:31-39 | at most one index satisfies the lookup's choice rule, so the rule determines the entry |
| `ConsistentHash.SelectEntry` | container/consistent_hash/ring.go:31-39 | the chosen index is in range and is the lower bound; when the key hashes past every entry, it is the last entry |
| `ConsistentHash.Truncate` | container/consistent_hash/ring.go:41-44 | for 0 < n < length, the first n nodes; otherwise the whole list |
| `ConsistentHash.Lookup` | container/consistent_hash/ring.go:28-47 | the result is the truncated list of the entry the choice rule picks |
| `ConsistentHash.LookupPrefix` | container/consistent_hash/ring.go:41-46 | every lookup is a prefix of the full lookup for the same key, of length n when 0 < n < length |
| `EntryHashing.Decimal` | container/consistent_hash/ring_build.go:60 | a partition number is written as a non-empty string of decimal digits |
| `EntryHashing.DecimalRoundTrip` | container/consistent_hash/ring_build.go:60 | reading the decimal text back gives the partition number |
| `EntryHashing.EntryHashInputInjective` | container/consistent_hash/ring_build.go:46-61 | distinct (id, partition) pairs give distinct entry-hash inputs, whatever characters the id contains |
| `EntryHashing.MakeEntryHashes` | container/consistent_hash/ring_build.go:36-76 | every entry keeps node, id, partition and list, and gets the node hash of its id and the entry hash of its id and partition |
| `RingStages.Partitions` | container/consistent_hash/ring_build.go:24-30 | one node gives `buckets` entries, partition j at position j |
| `RingStages.WrapNodes` | container/consistent_hash/ring_build.go:18-34 | exactly len(l)·buckets entries; slot i·buckets+j holds node l[i], its id and partition j |
| `RingStages.Insert` | container/consistent_hash/ring_build.go:78-81 | inserting into a sorted table keeps it sorted and adds exactly the one entry |
| `RingStages.SortEntries` | container/consistent_hash/ring_build.go:156-160 | the result is sorted by entry hash and is a permutation of the input |
| `RingStages.KeepFrom` | container/consistent_hash/ring_build.go:83-97 | the reference definition of deduplication: every entry that differs from its cyclic predecessor is kept |
| `RingStages.DedupFrom` | container/consistent_hash/ring_build.go:87-94 | the scan keeps only input entries; survivors differ from their neighbours and from the carried id; the output is empty exactly when every id equals the carried id; sorting is preserved |
| `RingStages.RemoveDuplicateEntries` | container/consistent_hash/ring_build.go:83-97 | adjacent survivors and the last and first survivors have different ids; the output is empty exactly when all ids are equal; order and sortedness are kept |
| `RingStages.DedupFromIsKeepFrom` | container/consistent_hash/ring_build.go:84-94 | the scan from position k with the previous id equals the reference definition from k |
| `RingStages.RemoveDuplicateEntriesIsKept` | container/consistent_hash/ring_build.go:83-97 | deduplication keeps exactly the entries whose id differs from their cyclic predecessor's, in order |
| `RingStages.EveryIdSurvives` | container/consistent_hash/ring_build.go:83-97 | when the table holds two different ids, every id has a surviving entry |
| `RingRotation.FirstSeen` | container/consistent_hash/ring_build.go:109-116 | the base scan keeps table entries whose node hash was not seen before, each hash at most once |
| `RingRotation.FirstSeenHashes` | container/consistent_hash/ring_build.go:109-116 | the kept hashes are exactly the table's hashes minus those already seen; the first entry is kept when its hash is new |
| `RingRotation.BaseListIsFirstAppearanceOrder` | container/consistent_hash/ring_build.go:109-118 | the base list is the nodes in order of first appearance in the table; its head is the first entry's node |
| `RingRotation.BaseListCoversTable` | container/consistent_hash/ring_build.go:109-118 | the base list has no repeats and holds exactly the nodes of the table |
| `RingRotation.Positions` | container/consistent_hash/ring_build.go:111-114 | the position map sends each key of the base list to its index and nothing else |
| `RingRotation.UpdatePositions` | container/consistent_hash/ring_build.go:135-143 | the update has the same keys as before |
| `RingRotation.PositionsIsPositionMap` | container/consistent_hash/ring_build.go:103-116 | the initial map is a bijection onto 0..N-1 |
| `RingRotation.UpdateKeepsPositionMap` | container/consistent_hash/ring_build.go:135-145 | the update keeps the map a bijection onto 0..N-1 |
| `RingRotation.UpdateTracksMoveToFront` | container/consistent_hash/ring_build.go:125-145 | the updated map is the position map of the list with element idx moved to the front |
| `RingRotation.Rotations` | container/consistent_hash/ring_build.go:121-151 | one list per entry; entry 0 gets the base list; every list is the base list with one element moved to the front, namely the element the current map names for the entry |
| `RingRotation.MakeEntryRings` | container/consistent_hash/ring_build.go:99-154 | as written: entries keep all their fields but the list; entry 0's list is the base list; every list is a rotation of the base list |
| `RingRotation.RotationKeepsOrder` | container/consistent_hash/ring_build.go:126-133 | such a rotation is a permutation without repeats, and the order of the other nodes is the base list's |
| `RingRotation.OwnNodeFirstAtEnds` | container/consistent_hash/ring_build.go:117-133 | as written, the first and the last entry list their own node first |
| `RingRotation.MiddleEntryNotOwnNodeFirst` | container/consistent_hash/ring_build.go:145-150 | as written, for the sorted nodes [A,B,C,A,C] entry 3 (node A) gets the list [B,A,C] |
| `RingRotation.MakeEntryRingsIntended` | container/consistent_hash/ring_build.go:99-154 | corrected: entries keep all their fields but the list; entry 0's list is the base list; every list is a permutation of it |
| `RingRotation.IntendedListsPermuteBase` | container/consistent_hash/ring_build.go:121-151 | corrected: every list of the chain is a permutation of the base list |
| `RingRotation.IntendedStep` | container/consistent_hash/ring_build.go:125-145 | one corrected step moves the entry's own node to the front and leaves the map describing the new list |
| `RingRotation.IntendedOwnNodeFirst` | container/consistent_hash/ring_build.go:121-151 | corrected: every entry's list starts with its own node |
| `RingRotation.IntendedLosesBaseOrder` | container/consistent_hash/ring_build.go:121-151 | corrected: the lists no longer keep the other nodes in base-list order; for [A,B,C,A,C] entry 3 gets [A,C,B], and without its head that is [C,B] where the base list gives [B,C] |
| `RingBuild.HashedTableFacts` | container/consistent_hash/ring_build.go:18-76 | every hashed entry is a partition of a listed node with its two hashes; with buckets ≥ 1 every node owns an entry |
| `RingBuild.SurvivorFacts` | container/consistent_hash/ring_build.go:83-97 | after sorting and deduplication the table is empty exactly when there is one node, and otherwise still sorted, covers every node and repeats no id between neighbours on the circle |
| `RingBuild.BaseIsNodes` | container/consistent_hash/ring_build.go:109-118 | the base list of the built table is a permutation of the caller's node list |
| `RingBuild.Assemble` | container/consistent_hash/ring_build.go:13-15 | for any sorted permutation of the hashed table: panics exactly for one node; otherwise the ring is well built, the end entries list their own node first, and with the corrected rule every entry does |
| `RingBuild.New` | container/consistent_hash/ring_build.go:9-16 | panics exactly when there are fewer than two nodes or fewer than one bucket; otherwise the ring holds the caller's nodes, a sorted table of their partitions, every node owns an entry, neighbours differ, every list is a permutation of the nodes |
| `RingBuild.NewCorrected` | container/consistent_hash/ring_build.go:9-16 | the same, and with the corrected rotation every entry's list starts with its own node |
| `RingBuild.LookupOnBuiltRing` | container/consistent_hash/ring.go:28-47 | on a built ring a lookup returns min(n, N) nodes for n > 0 and N otherwise, all distinct, all from the node list, all N of them for n ≤ 0 or n ≥ N |
| `RingBuild.CorrectedLookupPrimary` | container/consistent_hash/ring.go:41-46 | on a corrected ring the first node of a lookup is the node of the chosen entry |
| `ErrorList.HasErrors` | errors/list.go:18-20 | true exactly for a non-empty list |
| `ErrorList.Normalize` | errors/list.go:10-16 | nil exactly for an empty list, otherwise the list itself |
| `ErrorList.Add` | errors/list.go:22-37 | existing members stay in place; nil adds nothing; a list adds exactly its non-nil members in order; anything else is appended once |
| `ErrorList.AddListIsAddEach` | errors/list.go:27-34 | adding a flat list equals adding its members one at a time |
| `ErrorList.NestedListStays` | errors/list.go:27-33 | only one level is flattened: a list inside the added list stays one element |
| `ErrorList.ErrorText` | errors/list.go:39-47 | the empty list has message ""; a single member's message is the list's |
| `ErrorList.SplitJoin` | errors/list.go:46 | splitting the joined text at newlines gives back newline-free parts |
| `ErrorList.JoinNewlines` | errors/list.go:46 | k parts are joined by exactly k-1 newlines plus those inside the parts |
| `ErrorList.ErrorTextLines` | errors/list.go:39-47 | with one-line member messages, the lines of the message are the member messages |
| `ErrorList.MarshalJson` | errors/list.go:49-64 | `null` exactly for the empty list; otherwise an array with one element per member |
| `ErrorList.MarshalElemsAt` | errors/list.go:56-62 | each element is the member's message, the member's own JSON, or the nested list's JSON value |
| `ErrorStack.Skip` | errors/stack.go:30-36 | empty when len ≤ n, otherwise the suffix from n |
| `ErrorStack.Limit` | errors/stack.go:38-44 | the whole stack when len ≤ n, otherwise the prefix of length n |
| `ErrorStack.LimitThenSkip` | errors/stack.go:30-44 | the first n frames followed by the frames after n are the stack |
| `ErrorStack.SkipSkip` | errors/stack.go:30-36 | skipping a then b frames skips a+b |
| `ErrorStack.LimitLimit` | errors/stack.go:38-44 | limiting twice limits to the smaller bound |
| `ErrorStack.Source` | errors/stack.go:183-188 | a line exactly for an index in range, and then the line at that index |
| `ErrorStack.ContextLine` | errors/stack.go:179-181 | the line at n, or "" out of range |
| `ErrorStack.PreContext` | errors/stack.go:138-156 | the lines from max(0, n-context) up to min(n, len), in order; at most `context` of them |
| `ErrorStack.PostContext` | errors/stack.go:158-177 | the lines from n+1 up to min(n+context+1, len), in order; at most `context` of them |
| `ErrorStack.LastIndexOf` | errors/stack.go:197 | -1 exactly when the character is absent, otherwise its last occurrence |
| `ErrorStack.IndexOf` | errors/stack.go:198 | -1 exactly when the character is absent, otherwise its first occurrence |
| `ErrorStack.SplitFunctionName` | errors/stack.go:196-202 | the split fails (the source panics) exactly when the name has neither '/' nor '.' |
| `ErrorStack.SplitRejoins` | errors/stack.go:196-202 | with a '.' after the last '/', package + "." + function is the name, the function has no '/', and the package's last segment has no '.' |
| `ErrorStack.SplitUnique` | errors/stack.go:196-202 | conversely, joining such a package and function and splitting gives them back |
| `SentryPacket.StampVersion` | errors/sentry/packet.go:143-145 | the high nibble becomes 4, the low nibble is kept |
| `SentryPacket.StampVariant` | errors/sentry/packet.go:147-149 | the high two bits become 10, the low six bits are kept |
| `SentryPacket.Stamp` | errors/sentry/packet.go:141-149 | the result carries version 4 and the RFC 4122 variant; every other bit is the input's |
| `SentryPacket.StampFixesVersion4` | errors/sentry/packet.go:141-149 | stamping leaves a version-4 UUID unchanged |
| `SentryPacket.HexEncode` | errors/sentry/packet.go:151 | two lowercase hex digits per byte, high nibble first |
| `SentryPacket.HexRoundTrip` | errors/sentry/packet.go:151 | decoding the hex text gives back the bytes |
| `SentryPacket.Uuid4String` | errors/sentry/packet.go:136-152 | 32 hex digits, digit 12 is '4', digit 16 is one of 8, 9, a, b, and the text decodes to the stamped random bytes |
| `SentryPacket.LevelJson` | errors/sentry/packet.go:78-93 | a quoted name; ERROR and every value outside 1..5 are "error" |
| `SentryPacket.LevelJsonRoundTrip` | errors/sentry/packet.go:78-93 | the five named levels have five names that read back as exactly that level (any text other than the five names reads back as nothing); any other value is written as the name of ERROR |
| `SentryPacket.AddTag` | errors/sentry/packet.go:154-158 | one more tag at the end, the earlier tags unchanged |
| `SentryPacket.Copy` | errors/sentry/packet.go:102-112 | copying the tags element by element gives a packet equal to the original |
| `LogFormat.LevelsIncrease` | log/interface.go:5-15 | the named levels are 2^1 .. 2^7, above DEFAULT and increasing |
| `LogFormat.Code` | log/format_heroku.go:15-18 | the code is one of the table's; it is 'U' exactly for UNKNOWN and the levels outside the table, DEFAULT among them |
| `LogFormat.CodeIdentifiesLevel` | log/format.go:3-11 | the seven codes are pairwise distinct |
| `LogFormat.TrimSpace` | log/format_heroku.go:12 | the result neither starts nor ends with white space |
| `LogFormat.TrimSplits` | log/format_heroku.go:12 | the text is leading white space, the trimmed text, trailing white space |
| `LogFormat.TrimUnique` | log/format_heroku.go:12 | conversely, bare text between white space is what trimming returns |
| `LogFormat.TrimIdempotent` | log/format_heroku.go:12 | trimming twice is trimming once |
| `LogFormat.Indent` | log/format_heroku.go:12 | every newline of the result is followed by two spaces; first and last characters are kept |
| `LogFormat.IndentRoundTrip` | log/format_heroku.go:12 | removing the indentation gives back the text |
| `LogFormat.IndentConcat` | log/format_heroku.go:12 | indenting distributes over concatenation |
| `LogFormat.TrimIndentCommute` | log/format_heroku.go:12 | indenting then trimming equals trimming then indenting |
| `LogFormat.Body` | log/format_heroku.go:12 | the message part of a record is the trimmed message, indented, and neither starts nor ends with white space |
| `LogFormat.Format` | log/format_heroku.go:10-28 | `[C] `, then `namespace: ` exactly when there is a namespace, then the body, then one newline; the record never ends in a blank line |
| `LogFormat.FormatRecoversMessage` | log/format_heroku.go:12-25 | removing the indentation from the text after the head gives back the trimmed message |
| `LogFormat.FormatContinuationsIndented` | log/format_heroku.go:11-25 | with a newline-free namespace, every newline but the last is followed by two spaces |
| `Logging.New` | log/logger.go:9-15 | a nil writer becomes standard output, any other is kept; namespace and level as given |
| `Logging.Sub` | log/logger.go:27-39 | the parent's writer; the namespace kept, appended after '/', or standing alone; DEFAULT inherits the parent's level |
| `Logging.ComposeAssociative` | log/logger.go:28-32 | namespace composition does not depend on grouping |
| `Logging.SubSub` | log/logger.go:27-39 | two `Sub` steps equal one, with the namespaces composed and the inner level kept unless the outer names its own |
| `Logging.SubExtendsNamespace` | log/logger.go:28-32 | a child's namespace starts with its parent's |
| `Logging.Emit` | log/logger.go:89-101 | one record, formatted with the call's level and the logger's namespace, to the logger's writer, exactly when the level reaches the threshold; nothing otherwise; earlier records kept |
| `Logging.CallLevel` | log/logger.go:41-87 | each logging call has a named level below UNKNOWN |
| `Logging.LogWritesOnce` | log/logger.go:41-101 | a call let through writes one record whose code is the call's; any other call writes nothing |
| `Logging.DefaultEmitsAll` | log/logger.go:90 | a DEFAULT logger lets every call through |
| `Logging.FatalEmitsOnlyFatal` | log/logger.go:81-90 | a FATAL logger lets through exactly `Fatal`/`Fatalf` |
| `Logging.UnknownEmitsNothing` | log/logger.go:89-94 | an UNKNOWN logger writes nothing |
| `Logging.EmitsUpward` | log/logger.go:89-94 | a call let through lets through every call of a higher level |
| `Logging.DefaultSubSameThreshold` | log/logger.go:34-36 | a child made with DEFAULT lets through exactly what its parent does |

## Left out

- SHA-1 itself is a parameter. The model says nothing about digest values, only about the text that is hashed and the fold of the digest.
- RingBuild.New: requires the nodes' hashes to be pairwise distinct. With repeated ids or colliding node hashes, the source builds lists with trailing nil slots; that case is not modelled.
- ConsistentHash.Lookup: requires a non-empty table sorted by hash. On the zero `Ring` the source indexes entry -1 and panics; `New` never returns such a ring.
- Lookup is a pure function of the ring, key and n, so determinism and "the ring is unchanged" hold by construction. Slice aliasing between the returned list and the ring's storage is not modelled.
- The iteration order of the position-map update does not affect its result. The update is modelled as a map comprehension.
- ErrorStack.Skip: takes n as a natural number. A negative n panics in the source (`s[n:]`).
- ErrorStack.Limit: takes n as a natural number. A negative n panics in the source (`s[:n]`).
- ErrorStack.PreContext: `StackContext` is declared outside the files modelled here, so it is the parameter `context`.
- ErrorStack.SplitFunctionName: works on the name text only. `runtime.FuncForPC` and the nil-function early return are not modelled.
- ErrorList.ErrorText: requires nil-free members. A nil member panics in the source.
- ErrorList.MarshalJson: requires nil-free members, and stops at the JSON value; the text `json.Marshal` produces is not modelled.
- SentryPacket.Copy: states value equality only. That the tags live in a fresh slice, and that `Extra`/`Modules` are shared, are aliasing facts and are not modelled.
- Packet fields: `Timestamp` is an integer, each `Extra` value is its text, and the stack-trace frames are not part of the model.
- `uuid4_str` takes the 16 random bytes as input. The error from `rand.Read` is ignored in the source, and here too.
- `NewPacket`, `init`, `to_json`, `Send` and `CaptureStack` in packet.go are not modelled: they use the clock, the runtime, JSON and the network.
- `Stack.String`, `write_to`, `CaptureStack` and `filename` in errors/stack.go are not modelled: they use `runtime.Caller`, file reads, `tabwriter` and `path`.
- errors/error.go, errors/annotation.go, errors/fwd.go, errors/sentry/client.go and errors/sentry/config.go are not part of this model.
- Logging.Emit: the record is the one the `heroku` build writes (`log/format_heroku.go`, built only with that tag); the default build formats with `log/format_default.go`, which is not modelled.
- Logging.Emit: also, the message is taken as already rendered; `fmt.Sprint`/`fmt.Sprintf` argument formatting is not modelled. Errors returned by `Write` are ignored, as in the source.
- `SetLevel` is declared in the `Logger` interface but `logger.go` does not define it, so it is not modelled. Neither are the package-level forwarding functions or the global `DefaultLogger`.
- log/format_default.go is not modelled: it uses the wall clock, terminal detection and ANSI colours.
- LogFormat.TrimSpace: works on Unicode code points. The source works on UTF-8 bytes; invalid UTF-8, which decodes to U+FFFD and is not white space, is not modelled.

## Findings

| source | as written | input that shows it | evidently intended | confidence | as-written member | corrected member |
|---|---|---|---|---|---|---|
| container/consistent_hash/ring_build.go:150 | `r = r` is a no-op. Every rotation is applied to the base list `l`, while the position map `known_a` tracks the rotated order, so a middle entry's list can start with another node | sorted table with nodes [A,B,C,A,C]: entry 3 (node A) gets [B,A,C] | `l = r`, so that each list is the previous list with the entry's node moved to the front, and every entry lists its own node first. This fix gives up what the as-written lists keep: the other nodes no longer follow base-list order (`RingRotation.IntendedLosesBaseOrder`) | medium (not executed) | `RingRotation.MiddleEntryNotOwnNodeFirst` | `RingRotation.IntendedOwnNodeFirst` |
