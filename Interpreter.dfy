/** The decision part of `ProcessCommand`, shared by both copies of the
    store: the line is trimmed and split on single spaces, and the first
    token selects SET, GET or DEL. `Execute` gives the partitions afterwards
    and the reply; what is written to the append-only log is in module Aof. */
module Interpreter {
  import opened ByteStrings
  import opened Partitions

  const SET: Bytes := "SET"
  const GET: Bytes := "GET"
  const DEL: Bytes := "DEL"

  const OK: Bytes := "OK\n"
  const NOT_FOUND: Bytes := "NOT FOUND\n"
  const KEY_DELETED: Bytes := "KEY DELETED\n"
  const INVALID_COMMAND: Bytes := "invalid command\n"
  const UNKNOWN_COMMAND: Bytes := "unknown command: "
  const NEWLINE: Bytes := "\n"

  /** What a call of `ProcessCommand` ends in: the response string, or a Go
      run-time panic (an index out of range), which ends the whole process. */
  datatype Reply = Response(text: Bytes) | Panic

  /** The partitions after one command, and its reply. */
  datatype Outcome = Outcome(parts: seq<Partition>, reply: Reply)

  /** The line after strings.TrimSpace and strings.Split(_, " "): never an
      empty list, so the first token always exists. */
  function Tokens(line: Bytes): (ts: seq<Bytes>)
    ensures |ts| >= 1
  {
    Split(TrimSpace(line))
  }

  /** The verbs that change the partitions. */
  predicate IsMutation(verb: Bytes) {
    verb == SET || verb == DEL
  }

  /** One command: the line's tokens, dispatched. */
  function Execute(ps: seq<Partition>, line: Bytes): (o: Outcome)
    requires |ps| >= 1
    ensures |o.parts| == |ps|
  {
    Dispatch(ps, Tokens(line))
  }

  /** The switch on the first token: fewer than two tokens is an invalid
      command; SET stores its third token under its second (a rejected
      over-long key still answers "OK") and panics when there is no third
      token; GET and DEL look up and remove; any other verb is unknown.
      Tokens after those a verb uses are ignored. */
  function Dispatch(ps: seq<Partition>, ts: seq<Bytes>): (o: Outcome)
    requires |ps| >= 1 && |ts| >= 1
    ensures |o.parts| == |ps|
  {
    if |ts| < 2 then Outcome(ps, Response(INVALID_COMMAND))
    else if ts[0] == SET then
      if |ts| < 3 then Outcome(ps, Panic)
      else Outcome(Put(ps, ts[1], ts[2]).0, Response(OK))
    else if ts[0] == GET then
      var (value, found) := Lookup(ps, ts[1]);
      Outcome(ps, Response(if found then value + NEWLINE else NOT_FOUND))
    else if ts[0] == DEL then
      var (ps', deleted) := Remove(ps, ts[1]);
      Outcome(ps', Response(if deleted then KEY_DELETED else NOT_FOUND))
    else
      Outcome(ps, Response(UNKNOWN_COMMAND + ts[0] + NEWLINE))
  }

  /** Every command keeps every key in its hash partition, and keeps the
      number of partitions. */
  lemma DispatchWellPlaced(ps: seq<Partition>, ts: seq<Bytes>)
    requires WellPlaced(ps) && |ts| >= 1
    ensures |Dispatch(ps, ts).parts| == |ps|
    ensures WellPlaced(Dispatch(ps, ts).parts)
  {
    if |ts| >= 3 && ts[0] == SET {
      PutSpec(ps, ts[1], ts[2]);
    } else if |ts| >= 2 && ts[0] == DEL {
      RemoveSpec(ps, ts[1]);
    }
  }

  /** Fewer than two tokens is an invalid command and changes nothing; a
      GET or an unknown verb changes nothing either; only SET can panic, and
      it does exactly when it has no value token. */
  lemma DispatchFrame(ps: seq<Partition>, ts: seq<Bytes>)
    requires |ps| >= 1 && |ts| >= 1
    ensures |ts| < 2 ==> Dispatch(ps, ts) == Outcome(ps, Response(INVALID_COMMAND))
    ensures !IsMutation(ts[0]) ==> Dispatch(ps, ts).parts == ps
    ensures Dispatch(ps, ts).reply.Panic? <==> ts[0] == SET && |ts| == 2
  {
  }

  /** SET with a value answers "OK" and, on the store, maps the key to the
      value unless the key is longer than MAX_KEY_SIZE bytes, in which case
      the store is unchanged. */
  lemma DispatchSet(ps: seq<Partition>, ts: seq<Bytes>)
    requires WellPlaced(ps) && |ts| >= 3 && ts[0] == SET
    ensures Dispatch(ps, ts).reply == Response(OK)
    ensures |ts[1]| <= MAX_KEY_SIZE ==> Contents(Dispatch(ps, ts).parts) == Contents(ps)[ts[1] := ts[2]]
    ensures |ts[1]| > MAX_KEY_SIZE ==> Dispatch(ps, ts).parts == ps
  {
    PutSpec(ps, ts[1], ts[2]);
  }

  /** GET answers the stored value and a newline, or NOT FOUND, and changes
      nothing. */
  lemma DispatchGet(ps: seq<Partition>, ts: seq<Bytes>)
    requires |ps| >= 1 && |ts| >= 2 && ts[0] == GET
    ensures Dispatch(ps, ts) == Outcome(ps, Response(
      if ts[1] in Contents(ps) then Contents(ps)[ts[1]] + NEWLINE else NOT_FOUND))
  {
    LookupSpec(ps, ts[1]);
  }

  /** DEL answers KEY DELETED when the key was stored and NOT FOUND when not;
      afterwards the key is gone and nothing else has changed. */
  lemma DispatchDel(ps: seq<Partition>, ts: seq<Bytes>)
    requires WellPlaced(ps) && |ts| >= 2 && ts[0] == DEL
    ensures Dispatch(ps, ts).reply == Response(if ts[1] in Contents(ps) then KEY_DELETED else NOT_FOUND)
    ensures Contents(Dispatch(ps, ts).parts) == Contents(ps) - {ts[1]}
    ensures ts[1] !in Contents(ps) ==> Dispatch(ps, ts).parts == ps
  {
    RemoveSpec(ps, ts[1]);
  }

  /** Any other verb is answered "unknown command: " and the verb. */
  lemma DispatchUnknown(ps: seq<Partition>, ts: seq<Bytes>)
    requires |ps| >= 1 && |ts| >= 2 && !IsMutation(ts[0]) && ts[0] != GET
    ensures Dispatch(ps, ts) == Outcome(ps, Response(UNKNOWN_COMMAND + ts[0] + NEWLINE))
  {
  }

  /** Executing the trimmed line is executing the line: the log keeps lines
      trimmed, and replay trims them again. */
  lemma ExecuteTrimmed(ps: seq<Partition>, line: Bytes)
    requires |ps| >= 1
    ensures Tokens(TrimSpace(line)) == Tokens(line)
    ensures Execute(ps, TrimSpace(line)) == Execute(ps, line)
  {
    TrimSpaceIdempotent(line);
    assert Tokens(TrimSpace(line)) == Split(TrimSpace(TrimSpace(line)));
  }

  /** A token as clients write it: not empty, no white space in it. */
  predicate Word(t: Bytes) {
    t != [] && forall i | 0 <= i < |t| :: !IsSpace(t[i])
  }

  lemma {:induction false} JoinEnds(ts: seq<Bytes>)
    requires |ts| >= 1 && forall i | 0 <= i < |ts| :: ts[i] != []
    ensures |Join(ts)| >= 1
    ensures Join(ts)[0] == ts[0][0]
    ensures Join(ts)[|Join(ts)| - 1] == ts[|ts| - 1][|ts[|ts| - 1]| - 1]
  {
    if |ts| > 1 {
      JoinEnds(ts[1..]);
    }
  }

  /** A line made of words joined by single spaces tokenises back into
      those words. */
  lemma TokensOfWords(ts: seq<Bytes>)
    requires |ts| >= 1 && forall i | 0 <= i < |ts| :: Word(ts[i])
    ensures Tokens(Join(ts)) == ts
  {
    var line := Join(ts);
    JoinEnds(ts);
    assert Trimmed(line);
    TrimSpaceOfTrimmed(line);
    forall i | 0 <= i < |ts| ensures SPACE !in ts[i] {
      assert IsSpace(SPACE);
    }
    SplitJoin(ts);
    assert Tokens(line) == Split(line);
  }

  /** A line of words is executed as its list of words is dispatched. */
  lemma ExecuteWords(ps: seq<Partition>, ts: seq<Bytes>)
    requires |ps| >= 1 && |ts| >= 1 && forall i | 0 <= i < |ts| :: Word(ts[i])
    ensures Execute(ps, Join(ts)) == Dispatch(ps, ts)
  {
    TokensOfWords(ts);
  }

  /** "SET k v" answers "OK"; it stores `v` under `k` when `k` has at most
      MAX_KEY_SIZE bytes and changes nothing otherwise. */
  lemma SetExchange(ps: seq<Partition>, key: Bytes, value: Bytes)
    requires WellPlaced(ps) && Word(key) && Word(value)
    ensures var o := Execute(ps, Join([SET, key, value]));
      && o.reply == Response(OK)
      && WellPlaced(o.parts)
      && Contents(o.parts) == if |key| <= MAX_KEY_SIZE then Contents(ps)[key := value] else Contents(ps)
  {
    assert Word(SET);
    ExecuteWords(ps, [SET, key, value]);
    DispatchSet(ps, [SET, key, value]);
    DispatchWellPlaced(ps, [SET, key, value]);
  }

  /** "GET k" answers the value stored under `k` and a newline, or NOT
      FOUND, and changes nothing. */
  lemma GetExchange(ps: seq<Partition>, key: Bytes)
    requires |ps| >= 1 && Word(key)
    ensures Execute(ps, Join([GET, key])) == Outcome(ps, Response(
      if key in Contents(ps) then Contents(ps)[key] + NEWLINE else NOT_FOUND))
  {
    assert Word(GET);
    ExecuteWords(ps, [GET, key]);
    DispatchGet(ps, [GET, key]);
  }

  /** "DEL k" answers KEY DELETED when `k` is stored and NOT FOUND when not,
      and afterwards `k` is not stored. */
  lemma DelExchange(ps: seq<Partition>, key: Bytes)
    requires WellPlaced(ps) && Word(key)
    ensures var o := Execute(ps, Join([DEL, key]));
      && o.reply == Response(if key in Contents(ps) then KEY_DELETED else NOT_FOUND)
      && WellPlaced(o.parts)
      && Contents(o.parts) == Contents(ps) - {key}
  {
    assert Word(DEL);
    ExecuteWords(ps, [DEL, key]);
    DispatchDel(ps, [DEL, key]);
    DispatchWellPlaced(ps, [DEL, key]);
  }

  /** The exchange the store's tests make, for any key of at most
      MAX_KEY_SIZE bytes and any value: "SET k v" answers "OK", "GET k" then
      answers the value, "DEL k" answers KEY DELETED, and a second "GET k"
      answers NOT FOUND. */
  lemma SetGetDelExchange(ps: seq<Partition>, key: Bytes, value: Bytes)
    requires WellPlaced(ps) && Word(key) && Word(value) && |key| <= MAX_KEY_SIZE
    ensures var o1 := Execute(ps, Join([SET, key, value]));
      var o2 := Execute(o1.parts, Join([GET, key]));
      var o3 := Execute(o2.parts, Join([DEL, key]));
      var o4 := Execute(o3.parts, Join([GET, key]));
      && o1.reply == Response(OK)
      && o2.reply == Response(value + NEWLINE)
      && o3.reply == Response(KEY_DELETED)
      && o4.reply == Response(NOT_FOUND)
  {
    var o1 := Execute(ps, Join([SET, key, value]));
    SetExchange(ps, key, value);
    assert key in Contents(o1.parts) && Contents(o1.parts)[key] == value;
    var o2 := Execute(o1.parts, Join([GET, key]));
    GetExchange(o1.parts, key);
    assert o2.parts == o1.parts;
    var o3 := Execute(o2.parts, Join([DEL, key]));
    DelExchange(o2.parts, key);
    assert key !in Contents(o3.parts);
    GetExchange(o3.parts, key);
  }

  /** An unknown verb is echoed back: "UNKNOWN x" answers
      "unknown command: UNKNOWN". */
  lemma UnknownVerbExchange(ps: seq<Partition>, verb: Bytes, arg: Bytes)
    requires |ps| >= 1 && Word(verb) && Word(arg) && !IsMutation(verb) && verb != GET
    ensures Execute(ps, Join([verb, arg])) == Outcome(ps, Response(UNKNOWN_COMMAND + verb + NEWLINE))
  {
    ExecuteWords(ps, [verb, arg]);
  }

  /** The same decision with a SET that lacks its value answered as an
      invalid command instead of panicking. */
  function ExecuteChecked(ps: seq<Partition>, line: Bytes): (o: Outcome)
    requires |ps| >= 1
    ensures o.reply.Response?
    ensures Execute(ps, line).reply.Response? ==> o == Execute(ps, line)
    ensures Execute(ps, line).reply.Panic? ==> o == Outcome(ps, Response(INVALID_COMMAND))
  {
    var ts := Tokens(line);
    if ts[0] == SET && |ts| < 3 then Outcome(ps, Response(INVALID_COMMAND))
    else Execute(ps, line)
  }
}
