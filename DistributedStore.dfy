/** The root package's `DistributedKVStore`, with its locks erased: a fixed
    array of `PartitionSize` maps updated in place, and the append-only log
    "AOF.txt", opened for reading and appending, held as its lines and the
    handle. Each method is specified by the value-level functions of
    modules Partitions, Interpreter and Aof, whose properties are proved
    there. */
module DistributedStore {
  import opened ByteStrings
  import opened Partitions
  import opened Interpreter
  import opened Aof
  import Fnv

  class DistributedKVStore {
    /** `PartitionSize`. */
    const partitionSize: nat
    /** `dataStore`: one map per partition. */
    const dataStore: array<Partition>
    /** The lines of the log file, each without its "\n". */
    var aofLines: seq<Bytes>
    /** `AOFLogFileName`, the handle the store holds on the log. */
    var aofHandle: Handle
    /** Every line handed to `WriteString`, whether or not it reached the
        file. */
    ghost var attempted: seq<Bytes>

    /** There is at least one partition, and every stored key sits in the
        partition its hash selects. */
    ghost predicate Valid()
      reads this, dataStore
    {
      partitionSize >= 1 && dataStore.Length == partitionSize && WellPlaced(dataStore[..])
    }

    /** NewDistributedKVStore: `partitionSize` empty maps, and the log opened
        for reading and appending when `fileOpens`, its lines those already
        in the file; when the open fails the handle is nil and the store
        starts without a log. */
    constructor(partitionSize: nat, fileOpens: bool, fileLines: seq<Bytes>)
      requires partitionSize >= 1
      ensures Valid() && fresh(dataStore)
      ensures this.partitionSize == partitionSize
      ensures dataStore[..] == Empty(partitionSize) && Contents(dataStore[..]) == map[]
      ensures aofHandle == (if fileOpens then ReadWrite else Missing)
      ensures aofLines == (if fileOpens then fileLines else []) && attempted == []
    {
      var parts := new Partition[partitionSize];
      for i := 0 to partitionSize
        invariant forall j | 0 <= j < i :: parts[j] == map[]
      {
        parts[i] := map[];
      }
      this.partitionSize := partitionSize;
      dataStore := parts;
      aofHandle := if fileOpens then ReadWrite else Missing;
      aofLines := if fileOpens then fileLines else [];
      attempted := [];
      EmptyIsEmpty(partitionSize);
      assert parts[..] == Empty(partitionSize);
    }

    /** The partition of `key`: its FNV-1 hash modulo `PartitionSize`. The
        hash's `Write` never fails, so the source's fallback to partition 0
        is never taken and is not modelled. */
    method HashKeyIntoPartitions(key: Bytes) returns (index: nat)
      requires Valid()
      ensures index < partitionSize
      ensures index == PartitionOf(key, partitionSize)
    {
      var hash := Fnv.Sum32(key);
      index := hash as int % partitionSize;
    }

    /** Set: refuses a key longer than 128 bytes, changing nothing;
        otherwise stores the value under the key in its partition and
        returns the key. */
    method Set(key: Bytes, value: Bytes) returns (result: Bytes)
      requires Valid()
      modifies dataStore
      ensures Valid()
      ensures (dataStore[..], result) == Put(old(dataStore[..]), key, value)
      ensures |key| > MAX_KEY_SIZE ==> result == KEY_TOO_LARGE && dataStore[..] == old(dataStore[..])
      ensures |key| <= MAX_KEY_SIZE ==>
        result == key && Contents(dataStore[..]) == Contents(old(dataStore[..]))[key := value]
    {
      PutSpec(dataStore[..], key, value);
      if |key| > MAX_KEY_SIZE {
        return KEY_TOO_LARGE;
      }
      var i := HashKeyIntoPartitions(key);
      dataStore[i] := dataStore[i][key := value];
      result := key;
    }

    /** Get: the value stored under the key and `true`, or the empty string
        and `false`. */
    method Get(key: Bytes) returns (value: Bytes, found: bool)
      requires Valid()
      ensures (value, found) == Lookup(dataStore[..], key)
      ensures found <==> key in Contents(dataStore[..])
      ensures value == if found then Contents(dataStore[..])[key] else []
    {
      LookupSpec(dataStore[..], key);
      var i := HashKeyIntoPartitions(key);
      found := key in dataStore[i];
      value := if found then dataStore[i][key] else [];
    }

    /** Delete: removes the key, reporting whether it was there; afterwards
        the key is absent, and when it was absent nothing changed. */
    method Delete(key: Bytes) returns (deleted: bool)
      requires Valid()
      modifies dataStore
      ensures Valid()
      ensures (dataStore[..], deleted) == Remove(old(dataStore[..]), key)
      ensures deleted <==> key in Contents(old(dataStore[..]))
      ensures Contents(dataStore[..]) == Contents(old(dataStore[..])) - {key}
      ensures !deleted ==> dataStore[..] == old(dataStore[..])
    {
      RemoveSpec(dataStore[..], key);
      var i := HashKeyIntoPartitions(key);
      if key in dataStore[i] {
        dataStore[i] := dataStore[i] - {key};
        return true;
      }
      return false;
    }

    /** `AOFLogFileName.WriteString(line + "\n")`: the line reaches the file
        only through a writable handle; any other write fails and the
        failure is only logged. */
    method WriteString(line: Bytes)
      modifies this
      ensures aofHandle == old(aofHandle)
      ensures aofLines == old(aofLines) + (if aofHandle.CanWrite() then [line] else [])
      ensures attempted == old(attempted) + [line]
    {
      attempted := attempted + [line];
      if aofHandle.CanWrite() {
        aofLines := aofLines + [line];
      }
    }

    /** ProcessCommand: the trimmed line is appended to the log when it is
        live and starts with SET or DEL, before anything else is checked;
        then the partitions and the reply are those of `Execute`, a short
        SET ending in a panic. */
    method ProcessCommand(inputLine: Bytes, isLoadingFromAof: bool) returns (reply: Reply)
      requires Valid()
      modifies this, dataStore
      ensures Valid()
      ensures aofHandle == old(aofHandle)
      ensures dataStore[..] == Execute(old(dataStore[..]), inputLine).parts
      ensures reply == Execute(old(dataStore[..]), inputLine).reply
      ensures aofLines == old(aofLines)
        + (if aofHandle.CanWrite() then RootWrites(inputLine, isLoadingFromAof) else [])
      ensures attempted == old(attempted) + RootWrites(inputLine, isLoadingFromAof)
    {
      ghost var ps := dataStore[..];
      DispatchWellPlaced(ps, Tokens(inputLine));
      var line := TrimSpace(inputLine);
      var tokens := Split(line);
      assert Execute(ps, inputLine) == Dispatch(ps, tokens);
      ghost var w := RootWrites(inputLine, isLoadingFromAof);
      assert w == if !isLoadingFromAof && IsMutation(tokens[0]) then [line] else [];
      if !isLoadingFromAof && (tokens[0] == SET || tokens[0] == DEL) {
        WriteString(line);
      }
      assert attempted == old(attempted) + w;
      assert dataStore[..] == ps;
      if |tokens| < 2 {
        return Response(INVALID_COMMAND);
      }
      if tokens[0] == SET {
        if |tokens| < 3 {
          return Panic;
        }
        var _ := Set(tokens[1], tokens[2]);
        reply := Response(OK);
      } else if tokens[0] == GET {
        var value, found := Get(tokens[1]);
        reply := Response(if found then value + NEWLINE else NOT_FOUND);
      } else if tokens[0] == DEL {
        var deleted := Delete(tokens[1]);
        reply := Response(if deleted then KEY_DELETED else NOT_FOUND);
      } else {
        reply := Response(UNKNOWN_COMMAND + tokens[0] + NEWLINE);
      }
    }

    /** LoadDataFromAOFFile: from the start of the file, every line is
        processed in order as a replayed command, so nothing is written. A
        store without a log replays nothing. `crashed` reports a panic,
        which ends the process. */
    method LoadDataFromAOFFile() returns (crashed: bool)
      requires Valid()
      modifies this, dataStore
      ensures Valid()
      ensures aofHandle == old(aofHandle) && aofLines == old(aofLines)
      ensures attempted == old(attempted)
      ensures var r := Process(old(dataStore[..]), if aofHandle.CanRead() then aofLines else []);
        crashed == r.Crashed? && (r.Live? ==> dataStore[..] == r.parts)
    {
      crashed := false;
      if !aofHandle.CanRead() {
        return;
      }
      var lines := aofLines;
      ghost var start := dataStore[..];
      ghost var done: seq<Bytes> := [];
      var i := 0;
      while i < |lines|
        invariant 0 <= i <= |lines| && done == lines[..i]
        invariant Valid()
        invariant aofLines == lines && aofHandle == old(aofHandle)
        invariant attempted == old(attempted)
        invariant Process(start, done) == Live(dataStore[..])
      {
        var reply := ProcessCommand(lines[i], true);
        ProcessSnoc(start, done, lines[i]);
        TakeSnoc(lines, i);
        done := done + [lines[i]];
        if reply.Panic? {
          TakeDrop(lines, i + 1);
          ProcessConcat(start, done, lines[i + 1..]);
          return true;
        }
        i := i + 1;
      }
      assert done == lines;
    }

    /** ViewPartitionWiseData's tally: the size of every partition, by index,
        and their sum, which is the number of keys in the store because no
        key sits in two partitions. */
    method ViewPartitionWiseData() returns (partitionSizes: map<nat, nat>, totalElements: nat)
      requires Valid()
      ensures forall i: nat :: i in partitionSizes <==> i < partitionSize
      ensures forall i | 0 <= i < partitionSize :: partitionSizes[i] == |dataStore[i]|
      ensures totalElements == |Contents(dataStore[..])|
    {
      partitionSizes := map[];
      totalElements := 0;
      for index := 0 to dataStore.Length
        invariant forall i: nat :: i in partitionSizes <==> i < index
        invariant forall i | 0 <= i < index :: partitionSizes[i] == |dataStore[i]|
        invariant totalElements == SizeBelow(dataStore[..], index)
      {
        var size := |dataStore[index]|;
        partitionSizes := partitionSizes[index := size];
        totalElements := totalElements + size;
      }
      TotalSizeIsStoreSize(dataStore[..]);
    }
  }

  /** A store started on an empty log serves `cmds`, lines as a client's
      scanner delivers them, until they run out or one panics; then a new
      store is started on the lines a scanner reads from the file the
      first one wrote, and replays them. The restart ends as the run ended:
      on the same partitions, or in a panic. */
  method ServeThenRestart(p: nat, cmds: seq<Bytes>) returns (served: Ending, restored: Ending)
    requires p >= 1
    requires forall i | 0 <= i < |cmds| :: ScannerLine(cmds[i])
    ensures served == Process(Empty(p), cmds)
    ensures restored == served
  {
    var store := new DistributedKVStore(p, true, []);
    var crashed := store.LoadDataFromAOFFile();
    served := Live(store.dataStore[..]);
    ghost var done: seq<Bytes> := [];
    var i := 0;
    while i < |cmds|
      invariant 0 <= i <= |cmds| && done == cmds[..i]
      invariant store.Valid() && store.partitionSize == p && store.aofHandle == ReadWrite
      invariant served == Live(store.dataStore[..])
      invariant Process(Empty(p), done) == served
      invariant store.aofLines == Logged(done)
    {
      var reply := store.ProcessCommand(cmds[i], false);
      ProcessSnoc(Empty(p), done, cmds[i]);
      LoggedSnoc(done, cmds[i]);
      TakeSnoc(cmds, i);
      done := done + [cmds[i]];
      if reply.Panic? {
        served := Crashed;
        TakeDrop(cmds, i + 1);
        ProcessConcat(Empty(p), done, cmds[i + 1..]);
        break;
      }
      served := Live(store.dataStore[..]);
      i := i + 1;
    }
    if served.Live? {
      assert done == cmds;
    }
    ReplayFile(Empty(p), done);
    var file := Frame(store.aofLines);
    var restarted := new DistributedKVStore(p, true, ScanLines(file));
    var crashedAgain := restarted.LoadDataFromAOFFile();
    restored := if crashedAgain then Crashed else Live(restarted.dataStore[..]);
  }
}
