/** Go strings as byte strings, and the two standard-library string
    operations the command interpreter is built on: strings.TrimSpace and
    strings.Split(s, " "), with strings.Join(ts, " ") as the inverse of the
    latter. */
module ByteStrings {

  /** One byte of a Go string, written as the char whose code is that byte. */
  type Byte = c: char | c as int < 256

  /** A Go `string`: an immutable sequence of bytes, whose `len` counts bytes. */
  type Bytes = seq<Byte>

  const SPACE: Byte := ' '

  /** The ASCII white-space bytes: '\t', '\n', '\v', '\f', '\r' and ' '. */
  predicate IsSpace(b: Byte) {
    b == ' ' || b == '\t' || b == '\n' || b == '\r' || b as int == 0x0B || b as int == 0x0C
  }

  ghost predicate AllSpace(s: Bytes) {
    forall i | 0 <= i < |s| :: IsSpace(s[i])
  }

  /** Neither end of `s` is white space. */
  predicate Trimmed(s: Bytes) {
    s == [] || (!IsSpace(s[0]) && !IsSpace(s[|s| - 1]))
  }

  /** Drops the leading white space: what is left is a suffix of `s` that
      starts with a non-space byte. */
  function TrimLeft(s: Bytes): (r: Bytes)
    ensures |r| <= |s| && r == s[|s| - |r|..]
    ensures r == [] || !IsSpace(r[0])
  {
    if s != [] && IsSpace(s[0]) then TrimLeft(s[1..]) else s
  }

  /** What TrimLeft drops is all white space. */
  lemma {:induction false} TrimLeftDropsSpace(s: Bytes)
    ensures AllSpace(s[..|s| - |TrimLeft(s)|])
  {
    if s != [] && IsSpace(s[0]) {
      TrimLeftDropsSpace(s[1..]);
      var n := |s| - |TrimLeft(s)|;
      assert s[..n] == [s[0]] + s[1..][..n - 1];
    }
  }

  /** Drops the trailing white space: what is left is a prefix of `s` that
      ends with a non-space byte. */
  function TrimRight(s: Bytes): (r: Bytes)
    ensures |r| <= |s| && r == s[..|r|]
    ensures r == [] || !IsSpace(r[|r| - 1])
  {
    if s != [] && IsSpace(s[|s| - 1]) then TrimRight(s[..|s| - 1]) else s
  }

  /** What TrimRight drops is all white space. */
  lemma {:induction false} TrimRightDropsSpace(s: Bytes)
    ensures AllSpace(s[|TrimRight(s)|..])
  {
    if s != [] && IsSpace(s[|s| - 1]) {
      var t := s[..|s| - 1];
      TrimRightDropsSpace(t);
      var n := |TrimRight(s)|;
      assert s[n..] == t[n..] + [s[|s| - 1]];
    }
  }

  /** strings.TrimSpace, restricted to ASCII white space: `s` with the white
      space at both ends removed. */
  function TrimSpace(s: Bytes): (r: Bytes)
    ensures Trimmed(r)
  {
    TrimRight(TrimLeft(s))
  }

  /** What TrimSpace keeps is an infix of `s`, and what it drops on either
      side is all white space. */
  lemma TrimSpaceInfix(s: Bytes)
    ensures var r := TrimSpace(s);
      exists i :: 0 <= i <= |s| - |r| && r == s[i..i + |r|]
                  && AllSpace(s[..i]) && AllSpace(s[i + |r|..])
  {
    var left := TrimLeft(s);
    var r := TrimRight(left);
    var i := |s| - |left|;
    TrimLeftDropsSpace(s);
    TrimRightDropsSpace(left);
    assert left == s[i..] && r == left[..|r|];
    assert r == s[i..i + |r|];
    assert s[i + |r|..] == left[|r|..];
    assert AllSpace(s[..i]) && AllSpace(s[i + |r|..]);
  }

  /** A line that is already trimmed is left as it is. */
  lemma TrimSpaceOfTrimmed(s: Bytes)
    requires Trimmed(s)
    ensures TrimSpace(s) == s
  {
  }

  /** Trimming twice is trimming once. */
  lemma TrimSpaceIdempotent(s: Bytes)
    ensures TrimSpace(TrimSpace(s)) == TrimSpace(s)
  {
    TrimSpaceOfTrimmed(TrimSpace(s));
  }

  /** strings.Join(ts, " "): the pieces with one space between neighbours. */
  function Join(ts: seq<Bytes>): Bytes {
    if ts == [] then []
    else if |ts| == 1 then ts[0]
    else ts[0] + [SPACE] + Join(ts[1..])
  }

  /** strings.Split(s, " "): the pieces between single spaces. Consecutive
      spaces give empty pieces and the empty string gives one empty piece, so
      there is always at least one piece. */
  function Split(s: Bytes): (r: seq<Bytes>)
    ensures |r| >= 1
  {
    if s == [] then [[]]
    else
      var rest := Split(s[1..]);
      if s[0] == SPACE then [[]] + rest
      else [[s[0]] + rest[0]] + rest[1..]
  }

  /** Joining a list with one more piece in front adds that piece and a
      space. */
  lemma JoinCons(t: Bytes, ts: seq<Bytes>)
    requires ts != []
    ensures Join([t] + ts) == t + [SPACE] + Join(ts)
  {
    assert ([t] + ts)[0] == t && ([t] + ts)[1..] == ts;
  }

  /** Gluing a byte to the front of the first piece puts it in front of the
      joined string. */
  lemma JoinGlue(c: Byte, ts: seq<Bytes>)
    requires ts != []
    ensures Join([[c] + ts[0]] + ts[1..]) == [c] + Join(ts)
  {
    if |ts| > 1 {
      JoinCons([c] + ts[0], ts[1..]);
      JoinCons(ts[0], ts[1..]);
      assert ts == [ts[0]] + ts[1..];
    } else {
      assert [[c] + ts[0]] + ts[1..] == [[c] + ts[0]];
    }
  }

  /** No piece of a split holds a space, and joining the pieces back with
      spaces gives the string that was split. */
  lemma {:induction false} JoinSplit(s: Bytes)
    ensures forall i | 0 <= i < |Split(s)| :: SPACE !in Split(s)[i]
    ensures Join(Split(s)) == s
  {
    if s != [] {
      JoinSplit(s[1..]);
      var rest := Split(s[1..]);
      assert s == [s[0]] + s[1..];
      if s[0] == SPACE {
        assert Split(s) == [[]] + rest;
        JoinCons([], rest);
        assert Join(Split(s)) == [SPACE] + Join(rest);
      } else {
        assert Split(s) == [[s[0]] + rest[0]] + rest[1..];
        JoinGlue(s[0], rest);
        assert SPACE !in [s[0]] + rest[0];
      }
    }
  }

  /** Splitting `t + u` where `t` holds no space glues `t` to the front of
      the first piece of `u`. */
  lemma {:induction false} SplitSpaceFreePrefix(t: Bytes, u: Bytes)
    requires SPACE !in t
    ensures Split(t + u) == [t + Split(u)[0]] + Split(u)[1..]
  {
    if t != [] {
      assert (t + u)[0] == t[0] != SPACE;
      assert (t + u)[1..] == t[1..] + u;
      SplitSpaceFreePrefix(t[1..], u);
      var rest := Split(t[1..] + u);
      assert rest == [t[1..] + Split(u)[0]] + Split(u)[1..];
      assert Split(t + u) == [[t[0]] + rest[0]] + rest[1..];
      assert [t[0]] + rest[0] == t + Split(u)[0];
    } else {
      assert t + u == u;
      assert t + Split(u)[0] == Split(u)[0];
      assert Split(u) == [Split(u)[0]] + Split(u)[1..];
    }
  }

  /** Splitting undoes joining, for a non-empty list of space-free pieces. */
  lemma {:induction false} SplitJoin(ts: seq<Bytes>)
    requires |ts| >= 1
    requires forall i | 0 <= i < |ts| :: SPACE !in ts[i]
    ensures Split(Join(ts)) == ts
  {
    if |ts| == 1 {
      SplitSpaceFreePrefix(ts[0], []);
      assert ts[0] + [] == ts[0];
    } else {
      SplitJoin(ts[1..]);
      var tail := [SPACE] + Join(ts[1..]);
      assert Join(ts) == ts[0] + tail;
      SplitSpaceFreePrefix(ts[0], tail);
      assert tail[0] == SPACE && tail[1..] == Join(ts[1..]);
      assert Split(tail) == [[]] + ts[1..];
      assert ts[0] + [] == ts[0];
      assert ts == [ts[0]] + ts[1..];
    }
  }
}
