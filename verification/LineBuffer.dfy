/** linebuf.c: cutting a stream of bytes into lines, however the stream arrives. */
module LineBuffer {
  import opened Options

  type Bytes = seq<nat>

  const NUL: nat := 0
  const LF: nat := 10
  const CR: nat := 13

  const EINVAL := -22
  const ENOMEM := -12

  //////////////////////////////////////////////////////////////////////////////
  // Lines
  //////////////////////////////////////////////////////////////////////////////

  /** A line without one trailing carriage return. */
  function Stripped(line: Bytes): Bytes {
    if line != [] && line[|line| - 1] == CR then line[..|line| - 1] else line
  }

  /** The lines of a stream: each line feed ends one. */
  function Lines(pending: Bytes, stream: Bytes): seq<Bytes>
    decreases |stream|
  {
    if stream == [] then []
    else if stream[0] == LF then [Stripped(pending)] + Lines([], stream[1..])
    else Lines(pending + [stream[0]], stream[1..])
  }

  /** What is left after the last line feed. */
  function Rest(pending: Bytes, stream: Bytes): Bytes
    decreases |stream|
  {
    if stream == [] then pending
    else if stream[0] == LF then Rest([], stream[1..])
    else Rest(pending + [stream[0]], stream[1..])
  }

  /** A stream may be cut anywhere. */
  lemma {:induction false} LinesAppend(pending: Bytes, a: Bytes, b: Bytes)
    ensures Lines(pending, a + b) == Lines(pending, a) + Lines(Rest(pending, a), b)
    ensures Rest(pending, a + b) == Rest(Rest(pending, a), b)
    decreases |a|
  {
    if a == [] {
      assert a + b == b;
    } else {
      assert (a + b)[1..] == a[1..] + b;
      if a[0] == LF {
        LinesAppend([], a[1..], b);
        var first := [Stripped(pending)];
        assert first + (Lines([], a[1..]) + Lines(Rest([], a[1..]), b))
            == (first + Lines([], a[1..])) + Lines(Rest([], a[1..]), b);
      } else {
        LinesAppend(pending + [a[0]], a[1..], b);
      }
    }
  }

  lemma {:induction false} NoLineFeed(pending: Bytes, a: Bytes)
    requires LF !in a
    ensures Lines(pending, a) == [] && Rest(pending, a) == pending + a
    decreases |a|
  {
    if a == [] {
      assert pending + a == pending;
    } else {
      NoLineFeed(pending + [a[0]], a[1..]);
      assert pending + [a[0]] + a[1..] == pending + a;
    }
  }

  /** A piece that ends with its only line feed completes one line. */
  lemma OneLine(pending: Bytes, a: Bytes)
    requires LF !in a
    ensures Lines(pending, a + [LF]) == [Stripped(pending + a)] && Rest(pending, a + [LF]) == []
  {
    NoLineFeed(pending, a);
    LinesAppend(pending, a, [LF]);
    assert [LF][1..] == [];
    assert Lines(pending + a, [LF]) == [Stripped(pending + a)] + Lines([], []);
  }

  /** Lines, each ended by carriage return (13) and line feed (10). */
  ghost function Written(lines: seq<Bytes>): Bytes {
    if lines == [] then [] else lines[0] + [13, 10] + Written(lines[1..])
  }

  /** Lines that are written out and cut again are the same lines, whatever else they contain. */
  lemma {:induction false} CutWritten(lines: seq<Bytes>)
    requires forall line :: line in lines ==> 10 !in line
    ensures Lines([], Written(lines)) == lines && Rest([], Written(lines)) == []
  {
    if lines != [] {
      var line, rest := lines[0], Written(lines[1..]);
      CutWritten(lines[1..]);
      var body := line + [13];
      assert Written(lines) == (body + [10]) + rest;
      OneLine([], body);
      assert [] + body == body && Stripped(body) == line;
      LinesAppend([], body + [10], rest);
      assert [line] + lines[1..] == lines;
    }
  }

  function Flatten(chunks: seq<Bytes>): Bytes {
    if chunks == [] then [] else chunks[0] + Flatten(chunks[1..])
  }

  //////////////////////////////////////////////////////////////////////////////
  // What the buffer holds
  //////////////////////////////////////////////////////////////////////////////

  /** Lines one after the other, each with its terminating NUL. */
  function Joined(lines: seq<Bytes>): Bytes {
    if lines == [] then [] else Joined(lines[..|lines| - 1]) + lines[|lines| - 1] + [NUL]
  }

  lemma JoinedAppend(lines: seq<Bytes>, line: Bytes)
    ensures Joined(lines + [line]) == Joined(lines) + line + [NUL]
  {
    assert (lines + [line])[..|lines|] == lines;
  }

  lemma JoinedEnds(lines: seq<Bytes>)
    requires lines != []
    ensures |Joined(lines)| > 0 && Joined(lines)[|Joined(lines)| - 1] == NUL
  {
  }

  /** The first line feed, if any: memchr. */
  method Find(data: Bytes, c: nat, n: nat) returns (i: nat)
    requires n <= |data|
    ensures i <= n && c !in data[..i] && (i < n ==> data[i] == c)
  {
    i := 0;
    while i < n
      invariant 0 <= i <= n && c !in data[..i]
    {
      if data[i] == c {
        return;
      }
      assert data[..i + 1] == data[..i] + [data[i]];
      i := i + 1;
    }
  }

  /** How much of a chunk one call takes: up to and including the first line feed, or all of it. */
  ghost function FirstPiece(chunk: Bytes): (n: nat)
    ensures n <= |chunk|
  {
    if chunk == [] then 0 else if chunk[0] == LF then 1 else 1 + FirstPiece(chunk[1..])
  }

  lemma {:induction false} PieceIs(chunk: Bytes, eol: nat)
    requires eol <= |chunk| && LF !in chunk[..eol] && (eol < |chunk| ==> chunk[eol] == LF)
    ensures FirstPiece(chunk) == if eol < |chunk| then eol + 1 else |chunk|
    decreases |chunk|
  {
    if eol > 0 {
      assert chunk[..eol][0] == chunk[0];
      assert chunk[..eol] == [chunk[0]] + chunk[1..][..eol - 1];
      PieceIs(chunk[1..], eol - 1);
    }
  }

  const INT_LIMIT := 0x8000_0000

  /** A size_t returned as an int. */
  function AsInt(n: nat): int {
    var low := n % 0x1_0000_0000;
    if low < INT_LIMIT then low else low - 0x1_0000_0000
  }

  lemma IntExactly(n: nat)
    ensures AsInt(n) == n <==> n < INT_LIMIT
    ensures -0x8000_0000 <= AsInt(n) < 0x8000_0000 && (n - AsInt(n)) % 0x1_0000_0000 == 0
  {
  }

  class Buffer {
    var data: Bytes
    var len: nat
    var consumed: nat
    ghost var lines: seq<Bytes>
    ghost var pending: Bytes

    constructor ()
      ensures Valid() && lines == [] && pending == []
    {
      data, len, consumed := [], 0, 0;
      lines, pending := [], [];
    }

    /** The buffer holds the lines completed so far and the beginning of the next one. */
    ghost predicate Valid()
      reads this
    {
      && len <= |data| && data[..len] == Joined(lines) + pending
      && NUL !in pending && LF !in pending
      && (forall k :: 0 <= k < |lines| ==> NUL !in lines[k])
    }

    /** buffered_line: the line that the last call completed, if it did. */
    method BufferedLine() returns (line: Option<Bytes>)
      requires Valid()
      ensures line == if pending == [] && lines != [] && consumed != 0 then Some(lines[|lines| - 1]) else None
    {
      ghost var held := data[..len];
      EndOfBuffer(lines, pending);
      if len == 0 || consumed == 0 || data[len - 1] != NUL {
        return None;
      }
      var start := len - 1;
      ghost var line0 := lines[|lines| - 1];
      ghost var before := Joined(lines[..|lines| - 1]);
      assert held == before + line0 + [NUL];
      BeforeLastLine(lines[..|lines| - 1]);
      while start > 0 && data[start - 1] != NUL
        invariant |before| <= start <= len - 1
        invariant data[..len] == held
      {
        assert held[start - 1] == data[start - 1];
        start := start - 1;
      }
      assert start == |before|;
      assert data[start..len - 1] == line0;
      return Some(data[start..len - 1]);
    }

    /** line_buffer: takes the stream up to and including the first line feed, which ends the line, or all of
        it. The return value is the number of bytes taken or an error; it is an int, so that it does not say how
        much of a chunk of 2 GB or more was taken. */
    method Feed(chunk: Bytes, memory: bool) returns (ret: int, ghost taken: Option<nat>)
      requires Valid()
      modifies this
      ensures Valid()
      ensures taken == if NUL in chunk[..FirstPiece(chunk)] || !memory then None else Some(FirstPiece(chunk))
      ensures taken.None? ==>
                && ret == (if NUL in chunk[..FirstPiece(chunk)] then EINVAL else ENOMEM)
                && data == old(data) && len == old(len) && consumed == old(consumed) && lines == old(lines) && pending == old(pending)
      ensures NUL !in chunk && memory ==> taken.Some?
      ensures taken.Some? ==>
                var n := taken.value;
                && n <= |chunk| && consumed == n && ret == AsInt(n) && (chunk != [] ==> n > 0)
                && lines == old(lines) + Lines(old(pending), chunk[..n]) && pending == Rest(old(pending), chunk[..n])
                && |lines| == |old(lines)| + (if pending == [] && n > 0 then 1 else 0)
      ensures |chunk| < INT_LIMIT ==> if taken.Some? then ret == taken.value else ret < 0
    {
      var eol := Find(chunk, LF, |chunk|);
      var consume := if eol < |chunk| then eol + 1 else |chunk|;
      PieceIs(chunk, eol);
      var nul := Find(chunk, NUL, consume);
      if nul < consume {
        assert chunk[nul] in chunk && chunk[..consume][nul] == NUL;
        return EINVAL, None;
      }
      if !memory {
        return ENOMEM, None;
      }
      Taken(chunk, eol, consume);
      hide Lines, Rest, Joined;
      Absorb(chunk[..consume], chunk[..eol], eol < |chunk|);
      consumed := consume;
      ret, taken := AsInt(consume), Some(consume);
      IntExactly(consume);
    }

    /** Copy a piece in, and end the line if the piece does. */
    method Absorb(piece: Bytes, ghost line: Bytes, ended: bool)
      requires Valid() && piece == line + (if ended then [LF] else [])
      requires LF !in line && NUL !in line
      modifies `data, `len, `lines, `pending
      ensures Valid() && lines == old(lines) + Lines(old(pending), piece) && pending == Rest(old(pending), piece)
      ensures |lines| == |old(lines)| + (if ended then 1 else 0) && (ended ==> pending == []) && (!ended ==> pending == old(pending) + line)
    {
      hide Joined, Lines, Rest, Stripped;
      data := data[..len] + piece + [NUL];
      len := len + |piece|;
      assert data[..len] == Joined(lines) + (pending + piece);
      if ended {
        OneLine(pending, line);
        CleanLine(pending, line);
        assert pending + piece == pending + line + [LF];
        EndLine(pending + line);
        lines := lines + [Stripped(pending + line)];
        pending := [];
      } else {
        assert piece == line;
        NoLineFeed(pending, line);
        pending := pending + line;
      }
    }

    /** Overwrite the line feed, and the carriage return before it if there is one. */
    method EndLine(ghost all: Bytes)
      requires 0 < len < |data| && data[..len] == Joined(lines) + (all + [LF])
      modifies `data, `len
      ensures len <= |data| && data[..len] == Joined(lines + [Stripped(all)]) + []
    {
      Terminated(data, len, lines, all);
      JoinedAppend(lines, Stripped(all));
      hide Joined, Stripped;
      data := data[len - 1 := NUL];
      if len > 1 && data[len - 2] == CR {
        len := len - 1;
        data := data[len - 1 := NUL];
      }
    }

    /** Feed everything and collect a line whenever one is ready. */
    method FeedAll(stream: Bytes) returns (out: seq<Bytes>)
      requires Valid() && NUL !in stream && |stream| < INT_LIMIT
      modifies this
      ensures Valid() && out == Lines(old(pending), stream) && pending == Rest(old(pending), stream)
    {
      out := [];
      var i := 0;
      ghost var p := pending;
      while i < |stream|
        invariant 0 <= i <= |stream| && Valid()
        invariant out == Lines(p, stream[..i]) && pending == Rest(p, stream[..i])
      {
        ghost var was := pending;
        assert NUL !in stream[i..];
        ghost var taken;
        var n;
        n, taken := Feed(stream[i..], true);
        var line := BufferedLine();
        ghost var got := Lines(was, stream[i..][..n]);
        assert stream[..i + n] == stream[..i] + stream[i..][..n];
        LinesAppend(p, stream[..i], stream[i..][..n]);
        if line.Some? {
          assert got == [line.value];
          out := out + [line.value];
        }
        i := i + n;
      }
      assert stream[..|stream|] == stream;
    }

    /** The lines do not depend on how the stream is cut into chunks. */
    method FeedChunks(chunks: seq<Bytes>) returns (out: seq<Bytes>)
      requires Valid() && NUL !in Flatten(chunks) && forall k :: 0 <= k < |chunks| ==> |chunks[k]| < INT_LIMIT
      modifies this
      ensures Valid() && out == Lines(old(pending), Flatten(chunks)) && pending == Rest(old(pending), Flatten(chunks))
      decreases |chunks|
    {
      hide Lines, Rest;
      if chunks == [] {
        NoLineFeed(pending, []);
        assert pending + [] == pending;
        return [];
      }
      ghost var first, rest := chunks[0], Flatten(chunks[1..]);
      assert forall k :: 0 <= k < |first| ==> Flatten(chunks)[k] == first[k];
      assert forall k :: 0 <= k < |rest| ==> Flatten(chunks)[|first| + k] == rest[k];
      LinesAppend(pending, first, rest);
      out := FeedAll(chunks[0]);
      var more := FeedChunks(chunks[1..]);
      out := out + more;
    }
  }

  lemma Taken(chunk: Bytes, eol: nat, consume: nat)
    requires eol <= |chunk| && consume == (if eol < |chunk| then eol + 1 else |chunk|) && NUL !in chunk[..consume]
    ensures NUL !in chunk[..eol]
    ensures eol < |chunk| && chunk[eol] == LF ==> chunk[..consume] == chunk[..eol] + [LF]
    ensures eol == |chunk| ==> chunk[..consume] == chunk[..eol] + []
  {
    forall k | 0 <= k < eol
      ensures chunk[..eol][k] != NUL
    {
      assert chunk[..consume][k] == chunk[k];
    }
  }

  lemma CleanLine(pending: Bytes, line: Bytes)
    requires NUL !in pending && NUL !in line
    ensures NUL !in Stripped(pending + line)
  {
  }

  /** What overwriting the terminators leaves in the buffer. */
  lemma Terminated(data: Bytes, len: nat, lines: seq<Bytes>, all: Bytes)
    requires 0 < len < |data| && data[..len] == Joined(lines) + (all + [LF])
    ensures var d := data[len - 1 := NUL];
      if len > 1 && d[len - 2] == CR then d[len - 2 := NUL][..len - 1] == Joined(lines) + Stripped(all) + [NUL]
      else d[..len] == Joined(lines) + Stripped(all) + [NUL]
  {
    LastByte(lines, all);
    hide Joined;
    var d, held, j := data[len - 1 := NUL], data[..len], Joined(lines);
    assert d[..len] == held[..len - 1] + [NUL];
    assert held[..len - 1] == j + all;
    if len > 1 && d[len - 2] == CR {
      assert held[len - 2] == CR;
      assert d[len - 2 := NUL][..len - 1] == held[..len - 2] + [NUL];
      assert held[..len - 2] == j + all[..|all| - 1];
    } else if len > 1 {
      assert held[len - 2] == d[len - 2];
    }
  }

  /** The byte in front of the line feed is the carriage return that stripping removes. */
  lemma LastByte(lines: seq<Bytes>, all: Bytes)
    ensures var held := Joined(lines) + (all + [LF]);
      |held| > 1 && held[|held| - 2] == CR <==> all != [] && all[|all| - 1] == CR
  {
    var held := Joined(lines) + (all + [LF]);
    if all != [] {
      assert held[|held| - 2] == all[|all| - 1];
    } else if lines != [] {
      JoinedEnds(lines);
      assert held[|held| - 2] == NUL;
    }
  }

  lemma EndOfBuffer(lines: seq<Bytes>, pending: Bytes)
    requires NUL !in pending
    ensures var held := Joined(lines) + pending;
      |held| > 0 && held[|held| - 1] == NUL <==> pending == [] && lines != []
  {
    var held := Joined(lines) + pending;
    if pending != [] {
      assert held[|held| - 1] == pending[|pending| - 1];
    } else if lines != [] {
      JoinedEnds(lines);
    }
  }

  lemma BeforeLastLine(lines: seq<Bytes>)
    ensures lines != [] ==> |Joined(lines)| > 0 && Joined(lines)[|Joined(lines)| - 1] == NUL
    ensures lines == [] ==> Joined(lines) == []
  {
  }
}
