# distributed-kv-store, modelled in Dafny

A model of the sharded key–value engine of `distributed-kv-store` and of the
connection table beside it, with every lock erased and every operation taken
as atomic and sequential.

- **Byte strings and tokenising** (`ByteStrings.dfy`): Go strings are byte
  sequences. `strings.TrimSpace` is modelled over ASCII white space.
  `strings.Split(_, " ")` keeps Go's semantics: runs of spaces give empty
  tokens, and the empty string gives one empty token.
- **Hash** (`Fnv.dfy`): 32-bit FNV-1 as Go's `hash/fnv.New32` computes it
  (section 2 of the IETF draft "The FNV Non-Cryptographic Hash Algorithm").
  It multiplies by the prime and then xors in the byte, and wraps modulo
  2^32 through `bv32`.
- **Partitioned map** (`Partitions.dfy`): `P` maps, with key `k` held in map
  `FNV-1(k) mod P`. `Put`, `Lookup` and `Remove` are the value-level meaning
  of `Set`, `Get` and `Delete`. `Contents` is the store as one map, as
  clients see it. The invariant `WellPlaced` says every key sits in its hash
  partition.
- **Command interpreter** (`Interpreter.dfy`): `Execute` is the decision
  `ProcessCommand` makes for one line: the reply and the new partitions.
  A SET with a key and no value is a Go panic (index out of range), and
  appears as the reply `Panic`.
- **Append-only log** (`Aof.dfy`): the file "AOF.txt" as a sequence of
  lines, and a handle that can be missing, read-only, read-write or closed.
  `RootWrites` and `InternalWrites` give the lines each copy of
  `ProcessCommand` appends. `Process` folds `Execute` over lines until a
  panic, which is both a live run and `LoadDataFromAOFFile`'s replay.
  `ReplayLogged` is the round trip the root store promises: its log,
  replayed, ends as the run that wrote it ended. `Frame` gives the file's
  bytes, each line followed by "\n", and `ScanLines` reads them back as
  `bufio.Scanner` does; `ReplayFile` is the same round trip through those
  bytes.
- **The two stores** (`DistributedStore.dfy`, `InternalStore.dfy`): classes
  holding the partitions as an `array` of maps updated in place, plus the
  log lines and the handle. Each method is proved against the functions
  above.
- **Statistics** (`Statistics.dfy`): a class around the address → connect
  instant map. The current instant is a parameter.

## Model

| member | source | states |
|---|---|---|
| ByteStrings.TrimSpace | distributed-store.go:181 | the trimmed line has white space at neither end |
| ByteStrings.TrimSpaceInfix | distributed-store.go:181 | the trimmed line is a contiguous piece of the input, and everything dropped before and after it is white space |
| ByteStrings.TrimSpaceIdempotent | distributed-store.go:181 | trimming an already trimmed line changes nothing |
| ByteStrings.Split | distributed-store.go:182 | splitting always gives at least one token, so the first token always exists |
| ByteStrings.JoinSplit | distributed-store.go:182 | no token holds a space, and joining the tokens with single spaces gives back the line |
| ByteStrings.SplitJoin | distributed-store.go:182 | splitting a space-joined list of space-free tokens gives back the list |
| Fnv.Round | distributed-store.go:227-232 | one FNV-1 round multiplies by the prime and then xors in the byte, which changes only the low eight bits |
| Fnv.Absorb | distributed-store.go:227-232 | the bytes fed one at a time from the front; its laws are `AbsorbConcat` and `AbsorbLast` |
| Fnv.Sum32 | distributed-store.go:227-232 | the offset basis for no bytes; otherwise one more round, with the last byte, over the hash of the bytes before it |
| Fnv.AbsorbConcat | distributed-store.go:227-232 | writing `a` and then `b` into the hash gives the same state as writing `a + b` |
| Fnv.AbsorbLast | distributed-store.go:227-232 | the last byte written is the last multiply-then-xor round applied |
| Fnv.TestVectors | distributed-store.go:227-232 | FNV-1 32 of "" is 0x811c9dc5 and of "a" is 0x050c5d7e (the FNV-1, not the FNV-1a, value) |
| Partitions.PartitionOf | distributed-store.go:225-234 | the partition index lies in `[0, P)`, for a 64-bit Go `int` |
| Partitions.EmptyIsEmpty | distributed-store.go:44-47 | `P` empty maps satisfy the invariant and hold no key |
| Partitions.Put | distributed-store.go:111-121 | keeps the number of partitions and changes only the key's partition, which then holds an accepted key; `PutSpec` gives its full meaning |
| Partitions.Lookup | distributed-store.go:125-134 | found exactly when the key's partition holds the key, and Go's zero value "" when not; `LookupSpec` gives its meaning over `Contents` |
| Partitions.Remove | distributed-store.go:138-149 | keeps the number of partitions, changes only the key's partition, leaves the key absent, and changes nothing when it reports false; `RemoveSpec` gives its meaning over `Contents` |
| Partitions.PutSpec | distributed-store.go:111-121 | Set keeps the invariant and touches no other partition; a key over 128 bytes returns "Key size is too large" and changes nothing; otherwise the store maps the key to the value and the key is returned |
| Partitions.LookupSpec | distributed-store.go:125-134 | Get reports a key present exactly when the store holds it, with its value, and otherwise the empty string |
| Partitions.RemoveSpec | distributed-store.go:138-149 | Delete keeps the invariant, returns true exactly when the key was present, removes only that key, and changes nothing when it returns false |
| Partitions.PutThenLookup | internal/store/store_test.go:15-29 | Get after Set of a key of at most 128 bytes returns the value and true |
| Partitions.PutThenLookupOther | distributed-store.go:115-120 | Set of one key leaves what Get returns for every other key unchanged |
| Partitions.RemoveThenLookup | internal/store/store_test.go:32-47 | Get after Delete reports the key absent |
| Partitions.TotalSizeIsStoreSize | distributed-store.go:239-245 | the sum of the partition sizes is the number of keys in the store |
| Interpreter.Execute | distributed-store.go:181-214 | the decision for one line keeps the number of partitions; `ExecuteTrimmed` and the `*Exchange` lemmas state its replies and effects |
| Interpreter.Dispatch | distributed-store.go:192-214 | the decision for a line's tokens keeps the number of partitions; `DispatchFrame`, `DispatchSet`, `DispatchGet`, `DispatchDel` and `DispatchUnknown` state it verb by verb |
| Interpreter.Tokens | distributed-store.go:181-182 | a line always has a first token |
| Interpreter.DispatchWellPlaced | distributed-store.go:196-214 | every command keeps every key in its hash partition |
| Interpreter.DispatchFrame | distributed-store.go:192-199 | fewer than two tokens answers "invalid command\n" and changes nothing; verbs other than SET and DEL change nothing; the command panics exactly when it is SET with two tokens |
| Interpreter.DispatchSet | distributed-store.go:197-199 | SET answers "OK\n" even when the key is refused; it stores the value for a key of at most 128 bytes and otherwise changes nothing |
| Interpreter.DispatchGet | distributed-store.go:200-205 | GET answers the value and "\n", or "NOT FOUND\n", and changes nothing |
| Interpreter.DispatchDel | distributed-store.go:206-211 | DEL answers "KEY DELETED\n" when the key was stored and "NOT FOUND\n" when not; afterwards the key is absent |
| Interpreter.DispatchUnknown | distributed-store.go:212-213 | any other verb answers "unknown command: " and the verb, and changes nothing |
| Interpreter.ExecuteTrimmed | distributed-store.go:181-182 | a line and its trimmed form are the same command |
| Interpreter.TokensOfWords | distributed-store.go:181-182 | a line of words joined by single spaces tokenises back into those words |
| Interpreter.SetExchange | internal/store/store_test.go:62-66 | the line "SET k v" answers "OK\n" and stores `v` under `k` |
| Interpreter.GetExchange | internal/store/store_test.go:69-73 | the line "GET k" answers the stored value and "\n", or "NOT FOUND\n" |
| Interpreter.DelExchange | internal/store/store_test.go:76-80 | the line "DEL k" answers "KEY DELETED\n" for a stored key and removes it |
| Interpreter.SetGetDelExchange | internal/store/store_test.go:60-80 | SET, GET, DEL, GET of one key answer "OK\n", the value and "\n", "KEY DELETED\n", "NOT FOUND\n" |
| Interpreter.UnknownVerbExchange | internal/store/store_test.go:82-87 | "UNKNOWN x" answers "unknown command: UNKNOWN\n" |
| Interpreter.ExecuteChecked | distributed-store.go:197-199 | corrected: a SET without a value answers "invalid command\n" and changes nothing; every other line is decided as written |
| Aof.RootWrites | distributed-store.go:183-190 | a live line whose first token is SET or DEL is appended once, trimmed, before any check of the rest of the line; replayed lines and other verbs append nothing |
| Aof.InternalWrites | internal/store/store.go:156-186 | a live DEL with a key is appended twice, a live SET (or a DEL with no key) once, and anything else or a replayed line never |
| Aof.Logged | distributed-store.go:183-190 | a run appends at most one line per command |
| Aof.Process | distributed-store.go:68-71 | one `ProcessCommand` per line, in order, until the first panic; a live ending keeps the number of partitions; `ProcessConcat` and `ReplayLogged` state its laws |
| Aof.InternalLogged | internal/store/store.go:156-186 | the lines the internal store attempts to write over a run, at most two per command; `ReplayInternalLogged` states what they would replay to |
| Aof.ProcessWellPlaced | distributed-store.go:68-71 | replay keeps every key in its hash partition |
| Aof.ProcessConcat | distributed-store.go:68-71 | replaying `a + b` is replaying `a` and then `b` from where `a` left off; a panic in `a` ends it |
| Aof.ProcessSnoc | distributed-store.go:68-71 | one more line after a replay that did not panic is one more `ProcessCommand` |
| Aof.LoggedSnoc | distributed-store.go:183-190 | the log of one more command is the old log followed by what that command appends |
| Aof.UnloggedIsInert | distributed-store.go:183-190 | a live command that is not logged changes nothing and does not panic |
| Aof.LoggedLineReplays | distributed-store.go:183-190 | replaying what one live command appended ends as that command ended |
| Aof.ReplayLogged | distributed-store.go:59-72 | replaying the log a run appended, from the partitions it started on, ends on the same partitions or in the same panic as the run |
| Aof.Frame | distributed-store.go:184 | the file's bytes, each line followed by "\n", at least one byte per line; `ScanFrame` reads them back |
| Aof.ScanLines | distributed-store.go:66-70 | the lines a `bufio.Scanner` reads from the file's bytes, none holding a line break |
| Aof.ScanFrame | distributed-store.go:66-70 | lines with no "\n" inside and no "\r" at the end, each written with "\n" after it as at :184, are read back as the same lines in the same order |
| Aof.TrimmedFramable | distributed-store.go:181-184 | a line with no "\n", trimmed as the store logs it, has no "\n" and ends in no "\r" |
| Aof.LoggedFramable | distributed-store.go:155-159 | every line a run on scanner lines logs survives the file |
| Aof.ReplayFile | distributed-store.go:59-72 | the round trip through the file's bytes: for scanner lines, the lines scanned from the written log replay to the run's ending |
| Aof.RestartRestores | distributed-store.go:59-72 | replaying the whole file from empty partitions, its earlier lines and then a run's log, ends as that run ended |
| Aof.FrameConcat | distributed-store.go:184 | appending lines to the file appends their framed bytes |
| Aof.RestartFromFile | distributed-store.go:59-72 | through the file's bytes: framed earlier lines that replay to `q`, followed by a run's log, scan back and replay from empty to the run's ending |
| Aof.DoubleDeleteReplaysOnce | internal/store/store.go:184-187 | the two copies of a live DEL replay as one copy does |
| Aof.ReplayInternalLogged | internal/store/store.go:156-191 | had the internal store's writes reached the file, its log too would replay to what the run reached |
| Aof.ShortSetIsLoggedThenPanics | distributed-store.go:183-199 | as written: "SET k" panics, and the root store has already logged it |
| Aof.CrashedLogNeverReplays | distributed-store.go:59-72 | as written: the log of a run that panicked makes every later replay of the file panic, whatever is appended after it |
| Aof.ProcessChecked | distributed-store.go:68-71 | corrected: the replay with a short SET answered as an invalid command keeps the number of partitions and never panics; `ProcessCheckedAgrees` ties it to `Process` |
| Aof.ProcessCheckedAgrees | distributed-store.go:68-71 | corrected: on lines that do not panic the corrected replay is the replay as written |
| Aof.ReplayLoggedChecked | distributed-store.go:59-72 | corrected: the log of any run, a short SET included, replays to the partitions the run reached |
| DistributedStore.DistributedKVStore.constructor | distributed-store.go:31-57 | `P` empty maps; the log open for reading and appending holding the file's lines, or no log when the open fails |
| DistributedStore.DistributedKVStore.HashKeyIntoPartitions | distributed-store.go:225-234 | the index is FNV-1 32 of the key modulo `P`, in `[0, P)` |
| DistributedStore.DistributedKVStore.Set | distributed-store.go:111-121 | the array is updated in place as `Put` says, and the invariant is kept |
| DistributedStore.DistributedKVStore.Get | distributed-store.go:125-134 | returns what `Lookup` returns: the stored value and true, or "" and false |
| DistributedStore.DistributedKVStore.Delete | distributed-store.go:138-149 | the array is updated as `Remove` says; true exactly when the key was stored; nothing changes on false |
| DistributedStore.DistributedKVStore.WriteString | distributed-store.go:184-190 | the line reaches the log only through a writable handle; every call is recorded as an attempted write |
| DistributedStore.DistributedKVStore.ProcessCommand | distributed-store.go:179-215 | the reply and the partitions are those of `Execute`; the attempted writes are exactly `RootWrites`, and the log grows by them when the handle can write; the invariant is kept |
| DistributedStore.DistributedKVStore.LoadDataFromAOFFile | distributed-store.go:59-72 | the partitions end as `Process` of the log lines says, and a panic is reported; a store without a log replays nothing; replay writes nothing to the log |
| DistributedStore.DistributedKVStore.ViewPartitionWiseData | distributed-store.go:235-251 | the size of every partition by index, and a total equal to the number of keys in the store |
| DistributedStore.ServeThenRestart | distributed-store.go:59-72 | a store serves scanner lines, then a new store replays the lines scanned back from the bytes the first one wrote, and ends exactly as the first one ended |
| InternalStore.DistributedKVStore.constructor | internal/store/store.go:30-51 | `P` empty maps; the log open read-only when the file exists, nil otherwise |
| InternalStore.DistributedKVStore.HashKeyIntoPartitions | internal/store/store.go:203-213 | the index is FNV-1 32 of the key modulo `P`, in `[0, P)` |
| InternalStore.DistributedKVStore.Set | internal/store/store.go:100-109 | as in the root store |
| InternalStore.DistributedKVStore.Get | internal/store/store.go:110-121 | as in the root store |
| InternalStore.DistributedKVStore.Delete | internal/store/store.go:122-133 | as in the root store |
| InternalStore.DistributedKVStore.WriteString | internal/store/store.go:157-163 | the line reaches the log only through a writable handle, which this store never holds; every call is recorded as an attempted write |
| InternalStore.DistributedKVStore.ProcessCommand | internal/store/store.go:147-195 | the reply and the partitions are those of `Execute`; the attempted writes are exactly `InternalWrites`, so a live DEL with a key is written twice; through the read-only handle the log never changes |
| InternalStore.DistributedKVStore.LoadDataFromAOFFile | internal/store/store.go:53-64 | the partitions end as `Process` of the log lines says; replay attempts no write; after a replay that did not panic the handle is closed |
| InternalStore.ServeThenRestart | internal/store/store.go:30-64 | as written: the run ends as processing the file and then the commands, but a restart replays only the lines the file held before the run |
| InternalStore.RestartLosesSet | internal/store/store.go:33 | as written: the internal store, started on an empty file and served "SET k v", holds `k`; a new internal store started on the same file holds nothing |
| InternalStore.TestScenario | internal/store/store_test.go:9-98 | the checks of the store's tests, with `isLoadingFromAOF = false`: Set then Get, Set then Delete then Get, a 129-byte key, the four commands, the partition range |
| Statistics.Statistics.constructor | statistics.go:17-22 | the table is the map passed in |
| Statistics.Statistics.AddConnection | statistics.go:24-28 | the address maps to the given instant, replacing an earlier entry; every other address is unchanged |
| Statistics.Statistics.RemoveConnection | statistics.go:30-34 | only the address is removed; removing an absent address changes nothing |
| Statistics.Statistics.GetUptime | statistics.go:36-45 | `(0, false)` for an absent address; otherwise the time since it connected, and true |
| Statistics.Statistics.GetConnectionData | statistics.go:47-51 | the current table |
| Statistics.ConnectionLifecycle | statistics.go:24-51 | connect, query, disconnect, query: the uptime is `now - t` while connected, then `(0, false)`; other clients are untouched |

## Left out

- TCP serving and shutdown (`StartSystem`, `HandleConnection`, `ShutDown`, signal handling, `sync.WaitGroup`, `os.Exit`) in both stores: network I/O and concurrency. `ServeThenRestart` and `TestScenario` stand in for a client.
- Locks: every `sync.RWMutex` is erased and each operation is atomic. This also erases two lock leaks. `GetAll` read-locks every partition and never unlocks. The GET case of the internal `ProcessCommand` (internal/store/store.go:174-177) does the same, so after any GET a writer blocks forever. The model does not capture that hang: `InternalStore.ServeThenRestart` and `InternalStore.TestScenario` run a GET followed by SET or DEL to completion, which the Go store would not.
- `GetAll` and the printing in the internal GET case: console output only. The internal `ViewPartitionWiseData` only logs.
- The file itself: `os.OpenFile`/`os.Open` become the `Handle` value, and the file's lines are given to the constructor. `Frame` and `ScanLines` model the "\n" added to each write and the scanner's framing, including its dropping of a trailing '\r'. `Seek` and `Sync` are left out, and so is the scanner's 64 KiB line limit; the client's scanner has the same limit, so no logged line exceeds it. Disk errors other than a handle that cannot write are left out too.
- All `slog`, `log` and `fmt.Println` output.
- `analyticsStorage` and `tcpServerAddress` in both stores: they are used only by the TCP server.
- Statistics.Statistics.GetUptime: returns an integer difference of two instants, not Go's float seconds from `time.Since`. The clock is a parameter, not `time.Now`.
- Statistics.Statistics.constructor: takes the map as a value. Go keeps the caller's map itself, so the caller sees every later `AddConnection` and `RemoveConnection`; that aliasing is not modelled.
- Statistics.Statistics.GetConnectionData: returns the table as a value. Go returns the map itself, so a caller can change the table through it; that aliasing is not modelled.
- `DisplayStatsInTerminal`: a third-party table renderer and the clock.
- ByteStrings.TrimSpace: trims ASCII white space only. Go's `strings.TrimSpace` also trims Unicode white space.
- Partitions.PartitionOf: assumes a 64-bit Go `int`. On a 32-bit target `int(hash)` is negative for hashes of 2^31 and above, `%` then gives a negative index and the partition lookup panics; that target is not modelled.
- Aof.ReplayLogged, Aof.RestartRestores, Aof.LoggedLineReplays: take the log as a sequence of records and hold for any lines. Through the file they hold only for lines without "\n", the only lines `HandleConnection`'s scanner delivers; `Aof.ReplayFile` states that file-level round trip. A line holding "\n" would be read back as two lines. `Aof.RestartRestores` also needs the earlier content of the file to end in "\n": a record appended after an unterminated last line joins onto it. `Aof.RestartFromFile` states the restart through the file, with the earlier content framed.
- `PartitionSize` of 0: every constructor requires at least one partition. With none, Go's `% d.PartitionSize` divides by zero on the first command that hashes a key: a GET or DEL with a key, or a SET whose key is at most 128 bytes. The constructor, lines of fewer than two tokens, unknown verbs and a SET with an over-long key run normally.
- The test file calls `ProcessCommand` with one argument, which does not match the two-parameter signature. `TestScenario` passes `isLoadingFromAOF = false`.
- `cmd/main.go`, `internal/server/tcp.go` and the load-testing scripts: wiring and clients outside the store.

## Findings

| source | as written | input that shows it | evidently intended | confidence | as-written member | corrected member |
|---|---|---|---|---|---|---|
| distributed-store.go:183-199 | A live SET line is logged before its tokens are checked. "SET k" then indexes a missing value and the process panics. The logged line panics again on every replay, so the store can never restart from its log. | the line "SET k", then a restart on the same file | answer "invalid command\n" for a SET without a value, so that the log always replays | not executed | Aof.ShortSetIsLoggedThenPanics, Aof.CrashedLogNeverReplays | Interpreter.ExecuteChecked, Aof.ReplayLoggedChecked |
| internal/store/store.go:33 | The internal store opens "AOF.txt" with `os.Open`, which is read-only. Every log write fails: the first write's error is logged, and the second DEL write (internal/store/store.go:185) drops its error silently. The handle is closed after replay. A restart therefore loses every command served since the previous start. | an empty "AOF.txt", the line "SET k v", then a restart | open the log for reading and appending, as distributed-store.go:39 does, and keep it open after replay instead of closing it at internal/store/store.go:62, so that live writes land and a restart restores the state | not executed | InternalStore.ServeThenRestart, InternalStore.RestartLosesSet | DistributedStore.ServeThenRestart, Aof.ReplayLogged |
