/** The `DistributedKVStore` of package internal/store, with its locks
    erased. It differs from the root package's copy in three ways that
    matter to its state: it opens the log with `os.Open`, which gives a
    read-only handle, so none of its writes reaches the file; it closes the
    handle once the log has been replayed; and it writes a live DEL to the
    log a second time. Its commands are decided by the same `Execute`. */
module InternalStore {
  import opened ByteStrings
  import opened Partitions
  import opened Interpreter
  import opened Aof
  import Fnv

  class DistributedKVStore {
    /** `PartitionSize`. */
    const partitionSize: nat
    /** `dataStore`: one map per partition. */
    const dataStore: array<Partition>
    /** The lines of the log file, each without its "\n". */
    var aofLines: seq<Bytes>
    /** `AOFLogFileName`, the handle the store holds on the log. */
    var aofHandle: Handle
    /** Every line handed to `WriteString`, whether or not it reached the
        file. */
    ghost var attempted: seq<Bytes>

    /** At least one partition, every stored key in the partition its hash
        selects, and a handle that cannot write: `os.Open` never gives
        one. */
    ghost predicate Valid()
      reads this, dataStore
    {
      && partitionSize >= 1 && dataStore.Length == partitionSize && WellPlaced(dataStore[..])
      && !aofHandle.CanWrite()
    }

    /** NewDistributedKVStore: `partitionSize` empty maps, and "AOF.txt"
        opened read-only when it exists; otherwise the handle is nil. */
    constructor(partitionSize: nat, fileExists: bool, fileLines: seq<Bytes>)
      requires partitionSize >= 1
      ensures Valid() && fresh(dataStore)
      ensures this.partitionSize == partitionSize
      ensures dataStore[..] == Empty(partitionSize) && Contents(dataStore[..]) == map[]
      ensures aofHandle == (if fileExists then ReadOnly else Missing)
      ensures aofLines == (if fileExists then fileLines else []) && attempted == []
    {
      var parts := new Partition[partitionSize];
      for i := 0 to partitionSize
        invariant forall j | 0 <= j < i :: parts[j] == map[]
      {
        parts[i] := map[];
      }
      this.partitionSize := partitionSize;
      dataStore := parts;
      aofHandle := if fileExists then ReadOnly else Missing;
      aofLines := if fileExists then fileLines else [];
      attempted := [];
      EmptyIsEmpty(partitionSize);
      assert parts[..] == Empty(partitionSize);
    }

    /** The partition of `key`: its FNV-1 hash modulo `PartitionSize`. */
    method HashKeyIntoPartitions(key: Bytes) returns (index: nat)
      requires Valid()
      ensures index < partitionSize
      ensures index == PartitionOf(key, partitionSize)
    {
      var hash := Fnv.Sum32(key);
      index := hash as int % partitionSize;
    }

    /** Set: refuses a key longer than 128 bytes, changing nothing;
        otherwise stores the value under the key and returns the key. */
    method Set(key: Bytes, value: Bytes) returns (result: Bytes)
      requires Valid()
      modifies dataStore
      ensures Valid()
      ensures (dataStore[..], result) == Put(old(dataStore[..]), key, value)
      ensures |key| > MAX_KEY_SIZE ==> result == KEY_TOO_LARGE && dataStore[..] == old(dataStore[..])
      ensures |key| <= MAX_KEY_SIZE ==>
        result == key && Contents(dataStore[..]) == Contents(old(dataStore[..]))[key := value]
    {
      PutSpec(dataStore[..], key, value);
      if |key| > MAX_KEY_SIZE {
        return KEY_TOO_LARGE;
      }
      var i := HashKeyIntoPartitions(key);
      dataStore[i] := dataStore[i][key := value];
      result := key;
    }

    /** Get: the value stored under the key and `true`, or the empty string
        and `false`. */
    method Get(key: Bytes) returns (value: Bytes, found: bool)
      requires Valid()
      ensures (value, found) == Lookup(dataStore[..], key)
      ensures found <==> key in Contents(dataStore[..])
      ensures value == if found then Contents(dataStore[..])[key] else []
    {
      LookupSpec(dataStore[..], key);
      var i := HashKeyIntoPartitions(key);
      found := key in dataStore[i];
      value := if found then dataStore[i][key] else [];
    }

    /** Delete: removes the key, reporting whether it was there. */
    method Delete(key: Bytes) returns (deleted: bool)
      requires Valid()
      modifies dataStore
      ensures Valid()
      ensures (dataStore[..], deleted) == Remove(old(dataStore[..]), key)
      ensures deleted <==> key in Contents(old(dataStore[..]))
      ensures Contents(dataStore[..]) == Contents(old(dataStore[..])) - {key}
      ensures !deleted ==> dataStore[..] == old(dataStore[..])
    {
      RemoveSpec(dataStore[..], key);
      var i := HashKeyIntoPartitions(key);
      if key in dataStore[i] {
        dataStore[i] := dataStore[i] - {key};
        return true;
      }
      return false;
    }

    /** `AOFLogFileName.WriteString(line + "\n")`: only a writable handle
        takes the line, and this store never holds one. */
    method WriteString(line: Bytes)
      modifies this
      ensures aofHandle == old(aofHandle)
      ensures aofLines == old(aofLines) + (if aofHandle.CanWrite() then [line] else [])
      ensures attempted == old(attempted) + [line]
    {
      attempted := attempted + [line];
      if aofHandle.CanWrite() {
        aofLines := aofLines + [line];
      }
    }

    /** ProcessCommand: the same decision as the root store's, with the
        extra write of a live DEL with a key; the writes it attempts are
        `InternalWrites`, and through a read-only handle none of them lands,
        so the log is never changed. */
    method ProcessCommand(inputLine: Bytes, isLoadingFromAof: bool) returns (reply: Reply)
      requires Valid()
      modifies this, dataStore
      ensures Valid()
      ensures aofHandle == old(aofHandle)
      ensures dataStore[..] == Execute(old(dataStore[..]), inputLine).parts
      ensures reply == Execute(old(dataStore[..]), inputLine).reply
      ensures aofLines == old(aofLines)
      ensures attempted == old(attempted) + InternalWrites(inputLine, isLoadingFromAof)
    {
      ghost var ps := dataStore[..];
      var line := TrimSpace(inputLine);
      var tokens := Split(line);
      assert Execute(ps, inputLine) == Dispatch(ps, tokens);
      InternalWritesOf(inputLine, isLoadingFromAof);
      ghost var first: seq<Bytes> := [];
      if !isLoadingFromAof && (tokens[0] == SET || tokens[0] == DEL) {
        WriteString(line);
        first := [line];
      }
      assert dataStore[..] == ps && aofLines == old(aofLines) && attempted == old(attempted) + first;
      if |tokens| < 2 {
        return Response(INVALID_COMMAND);
      }
      if tokens[0] == SET {
        if |tokens| < 3 {
          return Panic;
        }
        var _ := Set(tokens[1], tokens[2]);
        reply := Response(OK);
      } else if tokens[0] == GET {
        var value, found := Get(tokens[1]);
        reply := Response(if found then value + NEWLINE else NOT_FOUND);
      } else if tokens[0] == DEL {
        if !isLoadingFromAof {
          WriteString(line);
          ConcatAssoc(old(attempted), [line], [line]);
        }
        assert dataStore[..] == ps && aofLines == old(aofLines);
        var deleted := Delete(tokens[1]);
        reply := Response(if deleted then KEY_DELETED else NOT_FOUND);
      } else {
        reply := Response(UNKNOWN_COMMAND + tokens[0] + NEWLINE);
      }
    }

    /** LoadDataFromAOFFile: every line of the file is processed as a
        replayed command, and then the handle is closed. A nil handle reads
        nothing and stays nil. A panic ends the process before the close. */
    method LoadDataFromAOFFile() returns (crashed: bool)
      requires Valid()
      modifies this, dataStore
      ensures Valid()
      ensures aofLines == old(aofLines)
      ensures attempted == old(attempted)
      ensures var r := Process(old(dataStore[..]), if old(aofHandle).CanRead() then aofLines else []);
        crashed == r.Crashed? && (r.Live? ==> dataStore[..] == r.parts)
      ensures !crashed ==> aofHandle == if old(aofHandle).CanRead() then Closed else old(aofHandle)
    {
      crashed := false;
      if !aofHandle.CanRead() {
        return;
      }
      var lines := aofLines;
      ghost var start := dataStore[..];
      ghost var done: seq<Bytes> := [];
      var i := 0;
      while i < |lines|
        invariant 0 <= i <= |lines| && done == lines[..i]
        invariant Valid()
        invariant aofLines == lines && aofHandle == old(aofHandle)
        invariant attempted == old(attempted)
        invariant Process(start, done) == Live(dataStore[..])
      {
        var reply := ProcessCommand(lines[i], true);
        ProcessSnoc(start, done, lines[i]);
        TakeSnoc(lines, i);
        done := done + [lines[i]];
        if reply.Panic? {
          TakeDrop(lines, i + 1);
          ProcessConcat(start, done, lines[i + 1..]);
          return true;
        }
        i := i + 1;
      }
      assert done == lines;
      aofHandle := Closed;
    }
  }

  /** As written: a store started on an existing log replays it and serves
      `cmds`; a new store started on the same file afterwards replays only
      the lines the file held at the start, because nothing the first store
      served was written to it. */
  method ServeThenRestart(p: nat, fileLines: seq<Bytes>, cmds: seq<Bytes>)
    returns (served: Ending, restored: Ending)
    requires p >= 1
    ensures served == Process(Empty(p), fileLines + cmds)
    ensures restored == Process(Empty(p), fileLines)
  {
    var store := new DistributedKVStore(p, true, fileLines);
    var crashed := store.LoadDataFromAOFFile();
    ProcessConcat(Empty(p), fileLines, cmds);
    if crashed {
      served := Crashed;
    } else {
      ghost var start := store.dataStore[..];
      served := Live(store.dataStore[..]);
      ghost var done: seq<Bytes> := [];
      var i := 0;
      while i < |cmds|
        invariant 0 <= i <= |cmds| && done == cmds[..i]
        invariant store.Valid() && store.partitionSize == p && store.aofLines == fileLines
        invariant served == Live(store.dataStore[..])
        invariant Process(start, done) == served
      {
        var reply := store.ProcessCommand(cmds[i], false);
        ProcessSnoc(start, done, cmds[i]);
        TakeSnoc(cmds, i);
        done := done + [cmds[i]];
        if reply.Panic? {
          served := Crashed;
          TakeDrop(cmds, i + 1);
          ProcessConcat(start, done, cmds[i + 1..]);
          break;
        }
        served := Live(store.dataStore[..]);
        i := i + 1;
      }
      if served.Live? {
        assert done == cmds;
      }
    }
    var restarted := new DistributedKVStore(p, true, store.aofLines);
    var crashedAgain := restarted.LoadDataFromAOFFile();
    restored := if crashedAgain then Crashed else Live(restarted.dataStore[..]);
  }

  /** The input that shows the lost write: an internal store started on an
      empty file and served one "SET k v" holds `k`, and a new internal
      store started on the same file comes back empty. */
  method RestartLosesSet(p: nat, key: Bytes, value: Bytes) returns (served: Ending, restored: Ending)
    requires p >= 1 && Word(key) && Word(value) && |key| <= MAX_KEY_SIZE
    ensures served.Live? && |served.parts| == p && Contents(served.parts) == map[key := value]
    ensures restored.Live? && |restored.parts| == p && Contents(restored.parts) == map[]
  {
    var line := Join([SET, key, value]);
    var none: seq<Bytes> := [];
    served, restored := ServeThenRestart(p, none, [line]);
    EmptyIsEmpty(p);
    SetExchange(Empty(p), key, value);
    var o := Execute(Empty(p), line);
    assert none + [line] == [line] && [line][1..] == none;
    assert Process(Empty(p), [line]) == Process(o.parts, none) == Live(o.parts);
    assert map[][key := value] == map[key := value];
  }

  /** The checks of store_test.go, for any word-shaped key and value and
      any unknown verb: Set then Get returns the value; Set then Delete
      reports the deletion and Get then misses; a 129-byte key is refused;
      the SET, GET, DEL and unknown-verb lines get their replies; the
      partition index is in range. */
  method TestScenario(p: nat, key: Bytes, value: Bytes, verb: Bytes)
    returns (found: bool, got: Bytes, deleted: bool, foundAfter: bool, refused: Bytes,
             replies: seq<Reply>, index: nat)
    requires p >= 1 && Word(key) && Word(value) && |key| <= MAX_KEY_SIZE
    requires Word(verb) && !IsMutation(verb) && verb != GET
    ensures found && got == value
    ensures deleted && !foundAfter
    ensures refused == KEY_TOO_LARGE
    ensures replies == [Response(OK), Response(value + NEWLINE), Response(KEY_DELETED),
                        Response(UNKNOWN_COMMAND + verb + NEWLINE)]
    ensures index < p
  {
    var store := new DistributedKVStore(p, false, []);

    var _ := store.Set(key, value);
    got, found := store.Get(key);

    var _ := store.Set(key, value);
    deleted := store.Delete(key);
    var _, f := store.Get(key);
    foundAfter := f;

    var largeKey: Bytes := seq(129, _ => 0 as char);
    refused := store.Set(largeKey, value);

    var ps := store.dataStore[..];
    SetExchange(ps, key, value);
    var r1 := store.ProcessCommand(Join([SET, key, value]), false);
    ps := store.dataStore[..];
    GetExchange(ps, key);
    var r2 := store.ProcessCommand(Join([GET, key]), false);
    DelExchange(ps, key);
    var r3 := store.ProcessCommand(Join([DEL, key]), false);
    ps := store.dataStore[..];
    UnknownVerbExchange(ps, verb, key);
    var r4 := store.ProcessCommand(Join([verb, key]), false);
    replies := [r1, r2, r3, r4];

    index := store.HashKeyIntoPartitions(key);
  }
}
