/** The append-only log ("AOF.txt") of both store copies, as a sequence of
    lines: which lines a call of `ProcessCommand` appends, and what
    processing a sequence of lines does to the partitions. Live commands and
    replayed log lines go through the same `Execute`, so one fold, `Process`,
    describes both a live run and a replay. The central theorem is that the
    root store's log, replayed, ends exactly as the commands that wrote it
    ended. */
module Aof {
  import opened ByteStrings
  import opened Partitions
  import opened Interpreter

  /** The `*os.File` a store holds for its log: none (the open failed), open
      read-only (`os.Open`), open for reading and appending (`os.OpenFile`
      with O_RDWR|O_APPEND|O_CREATE), or closed. Writes through any handle
      but a read-write one fail, and the failure is logged or ignored. */
  datatype Handle = Missing | ReadOnly | ReadWrite | Closed
  {
    predicate CanRead() {
      this == ReadOnly || this == ReadWrite
    }

    predicate CanWrite() {
      this == ReadWrite
    }
  }

  /** The lines the root `ProcessCommand` asks to append for `line`: the
      trimmed line once when it is live and its first token is SET or DEL,
      before any check of the rest of the line; nothing otherwise. */
  function RootWrites(line: Bytes, loading: bool): (w: seq<Bytes>)
    ensures |w| <= 1
    ensures forall i | 0 <= i < |w| :: w[i] == TrimSpace(line)
    ensures w != [] <==> !loading && IsMutation(Tokens(line)[0])
  {
    if !loading && IsMutation(Tokens(line)[0]) then [TrimSpace(line)] else []
  }

  /** The lines the internal `ProcessCommand` asks to append: the same first
      write, and the trimmed line a second time from inside the DEL case,
      which only a line of at least two tokens reaches. */
  function InternalWrites(line: Bytes, loading: bool): (w: seq<Bytes>)
    ensures forall i | 0 <= i < |w| :: w[i] == TrimSpace(line)
    ensures |w| == if loading || !IsMutation(Tokens(line)[0]) then 0
                   else if Tokens(line)[0] == DEL && |Tokens(line)| >= 2 then 2
                   else 1
  {
    var ts := Tokens(line);
    RootWrites(line, loading) + (if !loading && ts[0] == DEL && |ts| >= 2 then [TrimSpace(line)] else [])
  }

  /** The internal writes spelled out over the trimmed line's tokens. */
  lemma InternalWritesOf(line: Bytes, loading: bool)
    ensures var t, ts := TrimSpace(line), Split(TrimSpace(line));
      InternalWrites(line, loading)
      == if !loading && ts[0] == DEL && |ts| >= 2 then [t, t]
         else if !loading && IsMutation(ts[0]) then [t]
         else []
  {
  }

  /** How a sequence of commands ends: the process died of a panic, or it
      is still running on these partitions. */
  datatype Ending = Crashed | Live(parts: seq<Partition>)

  /** `ProcessCommand` applied to each line in order, the replies set
      aside, until one panics and ends the process. This is a live run of
      commands and it is LoadDataFromAOFFile's loop over the log lines. */
  function Process(ps: seq<Partition>, lines: seq<Bytes>): (e: Ending)
    requires |ps| >= 1
    ensures e.Live? ==> |e.parts| == |ps|
    decreases |lines|
  {
    if lines == [] then Live(ps)
    else
      var o := Execute(ps, lines[0]);
      if o.reply.Panic? then Crashed else Process(o.parts, lines[1..])
  }

  /** What the root store appends to a writable log while it serves `cmds`
      live. A run that panics serves nothing after the line that panicked,
      and its log is this function of the lines it did serve. */
  function Logged(cmds: seq<Bytes>): (log: seq<Bytes>)
    ensures |log| <= |cmds|
    decreases |cmds|
  {
    if cmds == [] then [] else RootWrites(cmds[0], false) + Logged(cmds[1..])
  }

  /** What the internal store would append while it serves `cmds` live, if
      its handle could write. */
  function InternalLogged(cmds: seq<Bytes>): (log: seq<Bytes>)
    ensures |log| <= 2 * |cmds|
    decreases |cmds|
  {
    if cmds == [] then [] else InternalWrites(cmds[0], false) + InternalLogged(cmds[1..])
  }

  lemma HeadTailConcat<T>(a: seq<T>, b: seq<T>)
    requires a != []
    ensures (a + b)[0] == a[0] && (a + b)[1..] == a[1..] + b
  {
  }

  lemma TakeDrop<T>(s: seq<T>, n: nat)
    requires n <= |s|
    ensures s[..n] + s[n..] == s
  {
  }

  lemma TakeSnoc<T>(s: seq<T>, i: nat)
    requires i < |s|
    ensures s[..i + 1] == s[..i] + [s[i]]
  {
  }

  lemma ConcatAssoc<T>(x: seq<T>, y: seq<T>, z: seq<T>)
    ensures x + (y + z) == (x + y) + z
  {
  }

  lemma HeadCons<T>(s: seq<T>)
    requires s != []
    ensures s == [s[0]] + s[1..]
  {
  }

  /** Processing keeps every key in its hash partition. */
  lemma {:induction false} ProcessWellPlaced(ps: seq<Partition>, lines: seq<Bytes>)
    requires WellPlaced(ps)
    ensures Process(ps, lines).Live? ==> WellPlaced(Process(ps, lines).parts)
    decreases |lines|
  {
    if lines != [] {
      DispatchWellPlaced(ps, Tokens(lines[0]));
      var o := Execute(ps, lines[0]);
      if o.reply.Response? {
        ProcessWellPlaced(o.parts, lines[1..]);
      }
    }
  }

  /** Processing `a + b` is processing `a` and then, unless that panicked,
      processing `b` from where `a` left the partitions. */
  lemma {:induction false} ProcessConcat(ps: seq<Partition>, a: seq<Bytes>, b: seq<Bytes>)
    requires |ps| >= 1
    ensures Process(ps, a).Crashed? ==> Process(ps, a + b) == Crashed
    ensures Process(ps, a).Live? ==> Process(ps, a + b) == Process(Process(ps, a).parts, b)
    decreases |a|
  {
    if a == [] {
      assert a + b == b;
    } else {
      HeadTailConcat(a, b);
      var o := Execute(ps, a[0]);
      if o.reply.Response? {
        ProcessConcat(o.parts, a[1..], b);
      }
    }
  }

  /** One more line after lines that did not panic. */
  lemma ProcessSnoc(ps: seq<Partition>, a: seq<Bytes>, line: Bytes)
    requires |ps| >= 1 && Process(ps, a).Live?
    ensures var o := Execute(Process(ps, a).parts, line);
      Process(ps, a + [line]) == if o.reply.Panic? then Crashed else Live(o.parts)
  {
    ProcessConcat(ps, a, [line]);
  }

  /** The log of `a + [line]` is the log of `a` and then what `line`
      writes. */
  lemma {:induction false} LoggedSnoc(a: seq<Bytes>, line: Bytes)
    ensures Logged(a + [line]) == Logged(a) + RootWrites(line, false)
    decreases |a|
  {
    if a == [] {
      assert a + [line] == [line];
      LoggedOne(line);
    } else {
      var w, rest, last := RootWrites(a[0], false), Logged(a[1..]), RootWrites(line, false);
      HeadTailConcat(a, [line]);
      assert Logged(a + [line]) == w + Logged(a[1..] + [line]);
      LoggedSnoc(a[1..], line);
      ConcatAssoc(w, rest, last);
    }
  }

  /** A command that the root store does not log changes nothing and does
      not panic, so leaving it out of the log loses nothing. */
  lemma UnloggedIsInert(ps: seq<Partition>, line: Bytes)
    requires |ps| >= 1 && RootWrites(line, false) == []
    ensures Execute(ps, line) == Outcome(ps, Execute(ps, line).reply)
    ensures Execute(ps, line).reply.Response?
  {
    DispatchFrame(ps, Tokens(line));
  }

  /** What one live command writes, replayed, ends as the command ended. */
  lemma LoggedLineReplays(ps: seq<Partition>, line: Bytes)
    requires |ps| >= 1
    ensures Process(ps, RootWrites(line, false)) == Process(ps, [line])
  {
    var w := RootWrites(line, false);
    ProcessOne(ps, line);
    if w == [] {
      UnloggedIsInert(ps, line);
      assert Process(ps, w) == Live(ps);
    } else {
      var t := TrimSpace(line);
      ExecuteTrimmed(ps, line);
      assert w == [t];
      ProcessOne(ps, t);
    }
  }

  /** The store's promise that the log restores its state: replaying the
      lines the root store appended while serving `cmds`, from the
      partitions it started on, ends as serving them ended: on the same
      partitions, or in the same panic. */
  lemma {:induction false} ReplayLogged(ps: seq<Partition>, cmds: seq<Bytes>)
    requires |ps| >= 1
    ensures Process(ps, Logged(cmds)) == Process(ps, cmds)
    decreases |cmds|
  {
    if cmds != [] {
      var w := RootWrites(cmds[0], false);
      LoggedLineReplays(ps, cmds[0]);
      ProcessConcat(ps, w, Logged(cmds[1..]));
      HeadCons(cmds);
      ProcessConcat(ps, [cmds[0]], cmds[1..]);
      var first := Process(ps, [cmds[0]]);
      if first.Live? {
        ReplayLogged(first.parts, cmds[1..]);
      }
    }
  }

  /** A restart: the file already held `earlier`, which replays to `q`, and
      then a run from `q` appended its lines; replaying the whole file from
      the empty store ends as that run ended. */
  lemma RestartRestores(p: nat, earlier: seq<Bytes>, cmds: seq<Bytes>)
    requires p >= 1 && Process(Empty(p), earlier).Live?
    ensures var q := Process(Empty(p), earlier).parts;
      Process(Empty(p), earlier + Logged(cmds)) == Process(q, cmds)
  {
    var q := Process(Empty(p), earlier).parts;
    ProcessConcat(Empty(p), earlier, Logged(cmds));
    ReplayLogged(q, cmds);
  }

  /** The line break `WriteString` adds after every logged line, and the
      carriage return `bufio.ScanLines` drops before one. */
  const NL: Byte := '\n'
  const CR: Byte := '\r'

  /** A line as a `bufio.Scanner` delivers it: it holds no line break.
      Every command `HandleConnection` reads is one. */
  predicate ScannerLine(line: Bytes) {
    NL !in line
  }

  /** A line the file gives back unchanged: no line break inside and no
      carriage return at its end. */
  predicate Framable(line: Bytes) {
    NL !in line && (line == [] || line[|line| - 1] != CR)
  }

  /** The bytes of the log file: each line followed by "\n". */
  function Frame(lines: seq<Bytes>): (file: Bytes)
    ensures |file| >= |lines|
    decreases |lines|
  {
    if lines == [] then [] else lines[0] + [NL] + Frame(lines[1..])
  }

  /** The position of the first line break of `file`. */
  function FirstBreak(file: Bytes): (i: nat)
    requires NL in file
    ensures i < |file| && file[i] == NL && NL !in file[..i]
    decreases |file|
  {
    if file[0] == NL then 0
    else
      assert NL in file[1..] by {
        var k :| 0 <= k < |file| && file[k] == NL;
        assert file[1..][k - 1] == NL;
      }
      var j := FirstBreak(file[1..]);
      assert file[..j + 1] == [file[0]] + file[1..][..j];
      j + 1
  }

  /** `dropCR`: one carriage return at the end of a line is dropped. */
  function DropCR(s: Bytes): (r: Bytes)
    ensures r == s || (s != [] && s[|s| - 1] == CR && r == s[..|s| - 1])
    ensures Framable(s) ==> r == s
  {
    if s != [] && s[|s| - 1] == CR then s[..|s| - 1] else s
  }

  /** The lines a `bufio.Scanner` with `ScanLines` yields from `file`: the
      bytes up to each line break, then the bytes after the last one when
      there are any, each with a final carriage return dropped. */
  function ScanLines(file: Bytes): (lines: seq<Bytes>)
    ensures forall i | 0 <= i < |lines| :: ScannerLine(lines[i])
    decreases |file|
  {
    if file == [] then []
    else if NL in file then
      var i := FirstBreak(file);
      [DropCR(file[..i])] + ScanLines(file[i + 1..])
    else [DropCR(file)]
  }

  /** The first line break of a framed line is the one after it. */
  lemma FirstBreakAfter(line: Bytes, rest: Bytes)
    requires NL !in line
    ensures var file := line + [NL] + rest;
      NL in file && FirstBreak(file) == |line|
      && file[..|line|] == line && file[|line| + 1..] == rest
  {
    var file := line + [NL] + rest;
    assert file[|line|] == NL;
    var i := FirstBreak(file);
    assert file[..|line|] == line;
    assert i <= |line| by {
      assert forall j | |line| < j <= |file| :: file[..j][|line|] == NL;
    }
    assert i >= |line| by {
      assert forall j | 0 <= j < |line| :: file[j] == line[j];
    }
  }

  /** Framing round-trips: the scanner reads back every framable line
      the store wrote, in order. */
  lemma {:induction false} ScanFrame(lines: seq<Bytes>)
    requires forall i | 0 <= i < |lines| :: Framable(lines[i])
    ensures ScanLines(Frame(lines)) == lines
    decreases |lines|
  {
    if lines != [] {
      assert Framable(lines[0]);
      FirstBreakAfter(lines[0], Frame(lines[1..]));
      ScanFrame(lines[1..]);
      HeadCons(lines);
    }
  }

  /** A scanner line, trimmed as the root store logs it, survives the
      file: it has no line break and ends in no carriage return. */
  lemma TrimmedFramable(line: Bytes)
    requires ScannerLine(line)
    ensures Framable(TrimSpace(line))
  {
    var left := TrimLeft(line);
    assert left == line[|line| - |left|..];
    assert NL !in left;
    assert TrimRight(left) == left[..|TrimRight(left)|];
  }

  /** The whole log of a run on scanner lines is framable. */
  lemma {:induction false} LoggedFramable(cmds: seq<Bytes>)
    requires forall i | 0 <= i < |cmds| :: ScannerLine(cmds[i])
    ensures forall i | 0 <= i < |Logged(cmds)| :: Framable(Logged(cmds)[i])
    decreases |cmds|
  {
    if cmds != [] {
      assert ScannerLine(cmds[0]);
      TrimmedFramable(cmds[0]);
      LoggedFramable(cmds[1..]);
    }
  }

  /** The round trip through the file itself: a run on lines as the
      scanner delivers them writes a file whose scanned lines, replayed,
      end as the run ended. */
  lemma ReplayFile(ps: seq<Partition>, cmds: seq<Bytes>)
    requires |ps| >= 1
    requires forall i | 0 <= i < |cmds| :: ScannerLine(cmds[i])
    ensures Process(ps, ScanLines(Frame(Logged(cmds)))) == Process(ps, cmds)
  {
    LoggedFramable(cmds);
    ScanFrame(Logged(cmds));
    ReplayLogged(ps, cmds);
  }

  /** Appending lines to the file appends their framed bytes. */
  lemma {:induction false} FrameConcat(a: seq<Bytes>, b: seq<Bytes>)
    ensures Frame(a + b) == Frame(a) + Frame(b)
    decreases |a|
  {
    if a == [] {
      assert a + b == b;
    } else {
      HeadTailConcat(a, b);
      FrameConcat(a[1..], b);
    }
  }

  /** A restart through the file: it already held the framed lines
      `earlier`, which replay to `q`, and a run from `q` on scanner lines
      appended its log; the lines scanned from the whole file, replayed
      from the empty store, end as that run ended. */
  lemma RestartFromFile(p: nat, earlier: seq<Bytes>, cmds: seq<Bytes>)
    requires p >= 1 && Process(Empty(p), earlier).Live?
    requires forall i | 0 <= i < |earlier| :: Framable(earlier[i])
    requires forall i | 0 <= i < |cmds| :: ScannerLine(cmds[i])
    ensures var q := Process(Empty(p), earlier).parts;
      Process(Empty(p), ScanLines(Frame(earlier) + Frame(Logged(cmds)))) == Process(q, cmds)
  {
    LoggedFramable(cmds);
    var all := earlier + Logged(cmds);
    assert forall i | 0 <= i < |all| :: Framable(all[i]) by {
      forall i | 0 <= i < |all|
        ensures Framable(all[i])
      {
        if i >= |earlier| {
          assert all[i] == Logged(cmds)[i - |earlier|];
        }
      }
    }
    FrameConcat(earlier, Logged(cmds));
    ScanFrame(all);
    RestartRestores(p, earlier, cmds);
  }

  /** Processing a single line. */
  lemma ProcessOne(ps: seq<Partition>, line: Bytes)
    requires |ps| >= 1
    ensures var o := Execute(ps, line);
      Process(ps, [line]) == if o.reply.Panic? then Crashed else Live(o.parts)
  {
    var none: seq<Bytes> := [];
    assert [line][1..] == none;
  }

  /** A second DEL of the same key finds it gone: it changes nothing. */
  lemma DispatchDelTwice(ps: seq<Partition>, ts: seq<Bytes>)
    requires WellPlaced(ps) && |ts| >= 2 && ts[0] == DEL
    ensures var o := Dispatch(ps, ts);
      o.reply.Response? && Dispatch(o.parts, ts).reply.Response? && Dispatch(o.parts, ts).parts == o.parts
  {
    var o := Dispatch(ps, ts);
    DispatchDel(ps, ts);
    DispatchWellPlaced(ps, ts);
    DispatchDel(o.parts, ts);
  }

  /** A line that leaves the partitions at a point where it changes
      nothing more replays twice as it replays once. */
  lemma ProcessRepeatInert(ps: seq<Partition>, t: Bytes, q: seq<Partition>)
    requires |ps| >= 1 && |q| >= 1
    requires Process(ps, [t]) == Live(q) && Process(q, [t]) == Live(q)
    ensures Process(ps, [t] + [t]) == Live(q)
  {
    ProcessConcat(ps, [t], [t]);
  }

  /** The writes of a live DEL with a key: the trimmed line once from the
      root store and twice from the internal one. */
  lemma DelWrites(line: Bytes)
    requires Tokens(line)[0] == DEL && |Tokens(line)| >= 2
    ensures RootWrites(line, false) == [TrimSpace(line)]
    ensures InternalWrites(line, false) == [TrimSpace(line)] + [TrimSpace(line)]
  {
  }

  /** Any other line is written the same by both stores. */
  lemma OtherWrites(line: Bytes, loading: bool)
    requires !(!loading && Tokens(line)[0] == DEL && |Tokens(line)| >= 2)
    ensures InternalWrites(line, loading) == RootWrites(line, loading)
  {
    assert InternalWrites(line, loading) == RootWrites(line, loading) + [];
  }

  /** A logged DEL line replays once to the partitions its deletion
      leaves, and replayed again there it changes nothing. */
  lemma DelLineRepeats(ps: seq<Partition>, line: Bytes)
    requires WellPlaced(ps) && Tokens(line)[0] == DEL && |Tokens(line)| >= 2
    ensures var t := TrimSpace(line);
      var q := Execute(ps, t).parts;
      Process(ps, [t]) == Live(q) && Process(q, [t]) == Live(q)
  {
    var ts := Tokens(line);
    var t := TrimSpace(line);
    ExecuteTrimmed(ps, line);
    var o := Execute(ps, t);
    assert o == Dispatch(ps, ts);
    DispatchDelTwice(ps, ts);
    ExecuteTrimmed(o.parts, line);
    ProcessOne(ps, t);
    ProcessOne(o.parts, t);
  }

  /** The internal store writes a live DEL twice; replaying the two copies
      ends where replaying one does, because the second finds the key
      gone. */
  lemma DoubleDeleteReplaysOnce(ps: seq<Partition>, line: Bytes)
    requires WellPlaced(ps)
    ensures Process(ps, InternalWrites(line, false)) == Process(ps, RootWrites(line, false))
  {
    if Tokens(line)[0] == DEL && |Tokens(line)| >= 2 {
      var t := TrimSpace(line);
      DelWrites(line);
      DelLineRepeats(ps, line);
      ProcessRepeatInert(ps, t, Execute(ps, t).parts);
    } else {
      OtherWrites(line, false);
    }
  }

  /** The doubled DEL is harmless: were the internal store's writes to
      reach the file, replaying its log would also end as serving the
      commands ended. */
  lemma {:induction false} ReplayInternalLogged(ps: seq<Partition>, cmds: seq<Bytes>)
    requires WellPlaced(ps)
    ensures Process(ps, InternalLogged(cmds)) == Process(ps, cmds)
    decreases |cmds|
  {
    if cmds != [] {
      var w := InternalWrites(cmds[0], false);
      DoubleDeleteReplaysOnce(ps, cmds[0]);
      LoggedLineReplays(ps, cmds[0]);
      ProcessConcat(ps, w, InternalLogged(cmds[1..]));
      HeadCons(cmds);
      ProcessConcat(ps, [cmds[0]], cmds[1..]);
      var first := Process(ps, [cmds[0]]);
      if first.Live? {
        ProcessWellPlaced(ps, [cmds[0]]);
        ReplayInternalLogged(first.parts, cmds[1..]);
      }
    }
  }

  /** The log of a single command is what that command writes. */
  lemma LoggedOne(line: Bytes)
    ensures Logged([line]) == RootWrites(line, false)
  {
    var none: seq<Bytes> := [];
    assert [line][1..] == none;
    assert RootWrites(line, false) + none == RootWrites(line, false);
  }

  /** As written: a SET line with a key and no value ("SET k") panics, and
      the root store has already appended it to the log. */
  lemma ShortSetIsLoggedThenPanics(ps: seq<Partition>, line: Bytes)
    requires |ps| >= 1 && |Tokens(line)| == 2 && Tokens(line)[0] == SET
    ensures Process(ps, [line]) == Crashed
    ensures Logged([line]) == [TrimSpace(line)]
  {
    DispatchFrame(ps, Tokens(line));
    assert Execute(ps, line) == Dispatch(ps, Tokens(line));
    ProcessOne(ps, line);
    LoggedOne(line);
    assert RootWrites(line, false) == [TrimSpace(line)];
  }

  /** As written: once a run has panicked, the log it leaves makes every
      later replay panic, whatever is appended after it; the store can no
      longer be restarted from its log. */
  lemma CrashedLogNeverReplays(ps: seq<Partition>, cmds: seq<Bytes>, later: seq<Bytes>)
    requires |ps| >= 1 && Process(ps, cmds) == Crashed
    ensures Process(ps, Logged(cmds) + later) == Crashed
  {
    ReplayLogged(ps, cmds);
    ProcessConcat(ps, Logged(cmds), later);
  }

  /** Processing with a SET that lacks its value answered as an invalid
      command: it never ends the process. */
  function ProcessChecked(ps: seq<Partition>, lines: seq<Bytes>): (r: seq<Partition>)
    requires |ps| >= 1
    ensures |r| == |ps|
    decreases |lines|
  {
    if lines == [] then ps
    else ProcessChecked(ExecuteChecked(ps, lines[0]).parts, lines[1..])
  }

  /** Corrected: where the commands ran without a panic the correction
      changes nothing. */
  lemma {:induction false} ProcessCheckedAgrees(ps: seq<Partition>, lines: seq<Bytes>)
    requires |ps| >= 1 && Process(ps, lines).Live?
    ensures ProcessChecked(ps, lines) == Process(ps, lines).parts
    decreases |lines|
  {
    if lines != [] {
      var o := Execute(ps, lines[0]);
      assert ExecuteChecked(ps, lines[0]) == o;
      ProcessCheckedAgrees(o.parts, lines[1..]);
    }
  }

  /** Corrected: the log of any run, including one with a short SET in
      it, replays to the partitions the run reached. */
  lemma {:induction false} ReplayLoggedChecked(ps: seq<Partition>, cmds: seq<Bytes>)
    requires |ps| >= 1
    ensures ProcessChecked(ps, Logged(cmds)) == ProcessChecked(ps, cmds)
    decreases |cmds|
  {
    if cmds != [] {
      var line := cmds[0];
      var o := ExecuteChecked(ps, line);
      var w := RootWrites(line, false);
      var rest := Logged(cmds[1..]);
      ReplayLoggedChecked(o.parts, cmds[1..]);
      assert Logged(cmds) == w + rest;
      if w == [] {
        UnloggedIsInert(ps, line);
        assert o.parts == ps;
        assert w + rest == rest;
      } else {
        var t := TrimSpace(line);
        ExecuteTrimmed(ps, line);
        assert ExecuteChecked(ps, t) == o;
        assert w == [t];
        HeadTailConcat(w, rest);
        assert ProcessChecked(ps, w + rest) == ProcessChecked(o.parts, rest);
      }
    }
  }
}
