/**
 * The multipart file-part scanner of the web server: a goto machine over the client stream with a bounded
 * buffer between it and the upload handler.
 *
 * A part ends at CR LF "--" boundary (section 5.1.1 of RFC 2046).
 */
module Upload {
  import opened Bytes

  const DASH: byte := 45
  const MARKER: bytes := [CR, LF, DASH, DASH]
  const BUFLEN: nat := 2048

  /**
   * What the scanner makes of a stream: a part and what follows its delimiter, an upload cut off by the client,
   * or one cut off inside the bytes compared with the boundary, which then hold stale memory.
   */
  datatype Scanned = End(content: bytes, rest: bytes) | Aborted(content: bytes) | Garbled(content: bytes)

  function Ahead(data: bytes, s: Scanned): Scanned {
    match s
    case End(c, r) => End(data + c, r)
    case Aborted(c) => Aborted(data + c)
    case Garbled(c) => Garbled(data + c)
  }

  lemma AheadAgain(a: bytes, b: bytes, s: Scanned)
    ensures Ahead(a, Ahead(b, s)) == Ahead(a + b, s)
    ensures Ahead([], s) == s
  {
    assert a + (b + s.content) == a + b + s.content;
    assert [] + s.content == s.content;
  }

  /** The goto machine, standing at its label; the first byte of `s` is the one it has read ahead. */
  function ScanAt(s: bytes, boundary: bytes): Scanned
    decreases |s|
  {
    if |s| < 2 then Aborted([])
    else if s[0] != CR then Ahead(s[..1], ScanAt(s[1..], boundary))
    else if |s| < 3 then Aborted([])
    else if s[1] != LF then Ahead(s[..1], ScanAt(s[1..], boundary))
    else if |s| < 4 then Aborted([])
    else if s[2] != DASH then Ahead(s[..2], ScanAt(s[2..], boundary))
    else if |s| < 5 then Aborted([])
    else if s[3] != DASH then Ahead(s[..3], ScanAt(s[3..], boundary))
    else if |s| < 4 + |boundary| then Garbled([])
    else if s[4..4 + |boundary|] == boundary then End([], s[4 + |boundary|..])
    else Ahead(s[..4 + |boundary|], ScanAt(s[4 + |boundary|..], boundary))
  }

  /** Away from a marker the machine does no more than pass on one byte. */
  lemma PassesByte(s: bytes, boundary: bytes)
    requires 5 <= |s| && s[..4] != MARKER
    ensures ScanAt(s, boundary) == Ahead(s[..1], ScanAt(s[1..], boundary))
  {
    assert s[..4] == [s[0], s[1], s[2], s[3]];
    if s[0] == CR && s[1] == LF {
      var t, u := s[1..], s[2..];
      assert t[1..] == u && t[..1] == [LF] && s[..1] == [CR];
      if s[2] != DASH {
        AheadAgain([CR], [LF], ScanAt(u, boundary));
        assert s[..2] == [CR] + [LF];
      } else {
        var v := s[3..];
        assert u[1..] == v && u[..1] == [DASH];
        AheadAgain([LF], [DASH], ScanAt(v, boundary));
        AheadAgain([CR], [LF] + [DASH], ScanAt(v, boundary));
        assert s[..3] == [CR] + ([LF] + [DASH]);
      }
    }
  }

  /** At a marker it compares as many bytes as the boundary has, and passes all of them on if they differ. */
  lemma ComparesBoundary(s: bytes, boundary: bytes)
    requires boundary != [] && 4 + |boundary| <= |s| && s[..4] == MARKER
    ensures var q := 4 + |boundary|;
            ScanAt(s, boundary) ==
            if s[4..q] == boundary then End([], s[q..]) else Ahead(s[..q], ScanAt(s[q..], boundary))
  {
    assert s[0] == s[..4][0] && s[1] == s[..4][1] && s[2] == s[..4][2] && s[3] == s[..4][3];
  }

  /**
   * The contents the scanner can handle: wherever CR LF "--" occurs, outside what an earlier occurrence has
   * already swallowed, the next bytes still belong to the content for the length of the boundary and are not
   * the boundary.
   */
  predicate Clean(content: bytes, boundary: bytes)
    decreases |content|
  {
    if content == [] then true
    else if MARKER <= content then
      var q := 4 + |boundary|;
      q <= |content| && content[4..q] != boundary && Clean(content[q..], boundary)
    else Clean(content[1..], boundary)
  }

  predicate MarkerAt(content: bytes, i: nat) {
    i + 4 <= |content| && content[i..i + 4] == MARKER
  }

  lemma {:induction false} NoMarkerIsClean(content: bytes, boundary: bytes)
    requires forall i: nat | i < |content| :: !MarkerAt(content, i)
    ensures Clean(content, boundary)
    decreases |content|
  {
    if content == [] {
    } else {
      assert MARKER <= content ==> content[0..4] == MARKER;
      assert !MarkerAt(content, 0);
      forall i: nat | i < |content[1..]|
        ensures !MarkerAt(content[1..], i)
      {
        assert !MarkerAt(content, i + 1);
        assert i + 4 <= |content[1..]| ==> content[1..][i..i + 4] == content[i + 1..i + 1 + 4];
      }
      NoMarkerIsClean(content[1..], boundary);
    }
  }

  function Delimiter(boundary: bytes): bytes { MARKER + boundary }

  /** The delimiter cannot begin before its place: a marker does not overlap itself. */
  lemma MarkerInContent(content: bytes, boundary: bytes, rest: bytes)
    requires content != []
    ensures var s := content + Delimiter(boundary) + rest;
            s[..4] == MARKER <==> MARKER <= content
  {
    var s := content + Delimiter(boundary) + rest;
    if |content| < 4 {
      assert s[|content|] == CR;
      assert s[..4][|content|] == CR;
    } else {
      assert s[..4] == content[..4];
    }
  }

  /**
   * A part is received exactly, whatever follows its delimiter, if and only if its content is clean. In
   * particular a marker too close to the end of the content hides the delimiter.
   */
  lemma {:induction false} ReceivedExactly(content: bytes, boundary: bytes, rest: bytes)
    requires boundary != []
    ensures ScanAt(content + Delimiter(boundary) + rest, boundary) == End(content, rest) <==> Clean(content, boundary)
    decreases |content|
  {
    var s := content + Delimiter(boundary) + rest;
    var q := 4 + |boundary|;
    if content == [] {
      assert s == MARKER + boundary + rest;
      assert s[..4] == MARKER && s[4..q] == boundary && s[q..] == rest;
      ComparesBoundary(s, boundary);
    } else {
      MarkerInContent(content, boundary, rest);
      if MARKER <= content {
        ComparesBoundary(s, boundary);
        if q <= |content| {
          assert s[4..q] == content[4..q] && s[..q] == content[..q];
          assert s[q..] == content[q..] + Delimiter(boundary) + rest;
          ReceivedExactly(content[q..], boundary, rest);
          AheadMatches(content, q, ScanAt(s[q..], boundary), rest);
        }
      } else {
        PassesByte(s, boundary);
        assert s[..1] == content[..1] && s[1..] == content[1..] + Delimiter(boundary) + rest;
        ReceivedExactly(content[1..], boundary, rest);
        AheadMatches(content, 1, ScanAt(s[1..], boundary), rest);
      }
    }
  }

  /** A marker fewer bytes before the end than the boundary has makes any content unclean. */
  lemma {:induction false} LateMarkerIsUnclean(head: bytes, tail: bytes, boundary: bytes)
    requires Clean(head, boundary) && |tail| < |boundary|
    ensures !Clean(head + Delimiter(tail), boundary)
    decreases |head|
  {
    var content := head + Delimiter(tail);
    if head == [] {
      assert content == MARKER + tail;
    } else {
      var k := if MARKER <= head then 4 + |boundary| else 1;
      assert k <= |head| && Clean(head[k..], boundary);
      LateMarkerIsUnclean(head[k..], tail, boundary);
      assert content[k..] == head[k..] + Delimiter(tail);
      MarkerInContent(head, tail, []);
      assert content + [] == content;
      UncleanAhead(content, k, boundary);
    }
  }

  lemma UncleanAhead(content: bytes, k: nat, boundary: bytes)
    requires content != [] && k <= |content| && !Clean(content[k..], boundary)
    requires k == if 4 <= |content| && content[..4] == MARKER then 4 + |boundary| else 1
    ensures !Clean(content, boundary)
  {
  }

  /** The shortest such content, four bytes, loses its delimiter. */
  lemma MarkerHidesDelimiter(boundary: bytes, rest: bytes)
    requires boundary != []
    ensures ScanAt(MARKER + Delimiter(boundary) + rest, boundary) != End(MARKER, rest)
  {
    LateMarkerIsUnclean([], [], boundary);
    assert [] + Delimiter([]) == MARKER;
    ReceivedExactly(MARKER, boundary, rest);
  }

  /** How a content is cut for the upload handler: full buffers, and what is left, which may be a full one too. */
  function Blocks(content: bytes): (r: seq<bytes>)
    ensures r != []
  {
    if |content| <= BUFLEN then [content] else [content[..BUFLEN]] + Blocks(content[BUFLEN..])
  }

  lemma {:induction false} BlocksOfContent(content: bytes)
    ensures var r := Blocks(content);
            && Concat(r) == content && |r[|r| - 1]| <= BUFLEN
            && forall i | 0 <= i < |r| - 1 :: |r[i]| == BUFLEN
    decreases |content|
  {
    var r := Blocks(content);
    if |content| <= BUFLEN {
      assert Concat([content]) == content + Concat([]) == content;
    } else {
      BlocksOfContent(content[BUFLEN..]);
      assert r[1..] == Blocks(content[BUFLEN..]);
      forall i | 0 <= i < |r| - 1
        ensures |r[i]| == BUFLEN
      {
        if 0 < i { assert r[i] == r[1..][i - 1]; }
      }
    }
  }

  /** One more byte goes into the last block, or opens a new one behind a full one. */
  lemma {:induction false} BlocksSnoc(content: bytes, b: byte, full: seq<bytes>, last: bytes)
    requires Blocks(content) == full + [last]
    ensures Blocks(content + [b]) == if |last| == BUFLEN then full + [last] + [[b]] else full + [last + [b]]
    decreases |content|
  {
    var r := Blocks(content);
    if |content| <= BUFLEN {
      assert |full| == 0 && last == r[0] == content;
      if |content| == BUFLEN {
        assert (content + [b])[..BUFLEN] == content && (content + [b])[BUFLEN..] == [b];
      }
    } else {
      var tail := content[BUFLEN..];
      assert r[0] == content[..BUFLEN] && r[1..] == Blocks(tail) && |Blocks(tail)| == |full|;
      assert full[0] == r[0] && r[1..] == full[1..] + [last];
      BlocksSnoc(tail, b, full[1..], last);
      assert (content + [b])[..BUFLEN] == content[..BUFLEN] && (content + [b])[BUFLEN..] == tail + [b];
      assert full == [full[0]] + full[1..];
    }
  }

  lemma AheadMatches(content: bytes, k: nat, s: Scanned, rest: bytes)
    requires k <= |content|
    ensures Ahead(content[..k], s) == End(content, rest) <==> s == End(content[k..], rest)
  {
    assert content == content[..k] + content[k..];
    if s.End? && content[..k] + s.content == content {
      assert s.content == content[k..];
    }
  }

  /** Nothing is lost: a part that ends is everything before its delimiter. */
  lemma {:induction false} NothingLost(s: bytes, boundary: bytes)
    requires ScanAt(s, boundary).End?
    ensures s == ScanAt(s, boundary).content + Delimiter(boundary) + ScanAt(s, boundary).rest
    decreases |s|
  {
    var k := Stride(s, boundary);
    if k == 0 {
      var q := 4 + |boundary|;
      assert s == s[..4] + s[4..q] + s[q..] && s[..4] == MARKER;
      assert s == [] + Delimiter(boundary) + s[q..];
    } else {
      StrideAdvances(s, boundary);
      NothingLost(s[k..], boundary);
      Reassemble(s, k, ScanAt(s[k..], boundary).content, Delimiter(boundary), ScanAt(s[k..], boundary).rest);
    }
  }

  /** An upload cut off by the client has written all but the last few bytes that arrived, and nothing else. */
  lemma {:induction false} AbortLosesLittle(s: bytes, boundary: bytes)
    requires ScanAt(s, boundary).Aborted?
    ensures var c := ScanAt(s, boundary).content; c <= s && |s| <= |c| + 4
    decreases |s|
  {
    var k := Stride(s, boundary);
    if k == 0 {
    } else {
      StrideAdvances(s, boundary);
      AbortLosesLittle(s[k..], boundary);
      assert s == s[..k] + s[k..];
    }
  }

  lemma Reassemble(s: bytes, k: nat, content: bytes, delimiter: bytes, rest: bytes)
    requires k <= |s| && s[k..] == content + delimiter + rest
    ensures s == s[..k] + content + delimiter + rest
  {
    assert s == s[..k] + s[k..];
  }

  /** How many bytes the machine passes on before it is back at its label; zero when it stops. */
  function Stride(s: bytes, boundary: bytes): (k: nat)
    ensures k <= |s|
  {
    if |s| < 2 then 0
    else if s[0] != CR then 1
    else if |s| < 3 then 0
    else if s[1] != LF then 1
    else if |s| < 4 then 0
    else if s[2] != DASH then 2
    else if |s| < 5 then 0
    else if s[3] != DASH then 3
    else if |s| < 4 + |boundary| || s[4..4 + |boundary|] == boundary then 0
    else 4 + |boundary|
  }

  lemma StrideAdvances(s: bytes, boundary: bytes)
    ensures var k := Stride(s, boundary);
            0 < k ==> ScanAt(s, boundary) == Ahead(s[..k], ScanAt(s[k..], boundary))
  {
  }

  /** The three outcomes after the two dashes. */
  lemma AtDashes(s: bytes, t: bytes, boundary: bytes)
    requires s == MARKER + t && t != []
    ensures |t| < |boundary| ==> ScanAt(s, boundary) == Garbled([])
    ensures |boundary| <= |t| && t[..|boundary|] == boundary ==> ScanAt(s, boundary) == End([], t[|boundary|..])
    ensures |boundary| <= |t| && t[..|boundary|] != boundary ==>
              Stride(s, boundary) == 4 + |boundary| && s[4 + |boundary|..] == t[|boundary|..]
              && s[..4 + |boundary|] == MARKER + t[..|boundary|]
  {
    if |boundary| <= |t| {
      assert s[4..4 + |boundary|] == t[..|boundary|] && s[4 + |boundary|..] == t[|boundary|..];
    }
  }

  datatype Status = FileStart | FileWrite | FileEnd | FileAborted

  class UploadServer {
    const boundary: bytes
    var stream: bytes
    const buf: array<byte>
    var currentSize: nat
    var totalSize: nat
    var status: Status
    /** The WRITE callbacks of this file, in order. */
    var writes: seq<bytes>
    /** All content bytes handed to the buffer so far. */
    ghost var content: bytes

    ghost predicate Valid()
      reads this, buf
    {
      && buf.Length == BUFLEN && currentSize <= BUFLEN
      && Blocks(content) == writes + [buf[..currentSize]]
      && totalSize + currentSize == |content|
    }

    constructor (boundary: bytes, stream: bytes)
      ensures Valid() && this.boundary == boundary && this.stream == stream && fresh(buf)
    {
      this.boundary, this.stream := boundary, stream;
      buf := new byte[BUFLEN];
      currentSize, totalSize, status, writes, content := 0, 0, FileStart, [], [];
      new;
      assert buf[..0] == [];
    }

    /** The upload handler is called with what the buffer holds, and the buffer is counted. */
    method Flush()
      requires currentSize <= buf.Length
      modifies this`writes, this`totalSize
      ensures writes == old(writes) + [buf[..currentSize]] && totalSize == old(totalSize) + currentSize
    {
      writes := writes + [buf[..currentSize]];
      totalSize := totalSize + currentSize;
    }

    method UploadWriteByte(b: byte)
      requires Valid()
      modifies this`writes, this`totalSize, this`currentSize, this`content, buf
      ensures Valid() && content == old(content) + [b]
      ensures writes == if old(currentSize) == BUFLEN then old(writes) + [old(buf[..])] else old(writes)
    {
      ghost var before := buf[..currentSize];
      BlocksSnoc(content, b, writes, before);
      if currentSize == BUFLEN {
        assert before == buf[..];
        Flush();
        currentSize := 0;
        before := [];
      }
      buf[currentSize] := b;
      currentSize := currentSize + 1;
      content := content + [b];
      assert buf[..currentSize] == before + [b] && [] + [b] == [b];
    }

    method WriteAll(data: bytes)
      requires Valid()
      modifies this`writes, this`totalSize, this`currentSize, this`content, buf
      ensures Valid() && content == old(content) + data
    {
      for i := 0 to |data|
        invariant Valid() && content == old(content) + data[..i]
      {
        UploadWriteByte(data[i]);
        assert data[..i + 1] == data[..i] + [data[i]];
      }
      assert data[..|data|] == data;
    }

    /** The client stays connected while bytes are left; a read at the end yields -1 cut to a byte. */
    predicate Connected()
      reads this
    {
      stream != []
    }

    method UploadReadByte() returns (b: byte)
      modifies this`stream
      ensures if old(stream) == [] then b == 0xFF && stream == [] else [b] + stream == old(stream)
    {
      b := 0xFF;
      if stream != [] {
        b := stream[0];
        stream := stream[1..];
      }
    }

    method ParseFormUploadAborted()
      modifies this`status
      ensures status == FileAborted
    {
      status := FileAborted;
    }

    /** The byte read ahead and the stream together are the rest of the input, or the input is used up. */
    ghost predicate Live(ahead: byte, s: bytes)
      reads this
    {
      [ahead] + stream == s || (s == [] && stream == [] && ahead == 0xFF)
    }

    /** The bytes compared with the boundary; when the stream ends first, what is left of the buffer is stale. */
    method ReadBoundaryBytes() returns (endBuf: array<byte>)
      modifies this`stream
      ensures fresh(endBuf) && endBuf.Length == |boundary|
      ensures |boundary| <= |old(stream)| ==>
                endBuf[..] == old(stream)[..|boundary|] && stream == old(stream)[|boundary|..]
      ensures |old(stream)| < |boundary| ==> stream == []
    {
      endBuf := new byte[|boundary|];
      var n := if |boundary| <= |stream| then |boundary| else |stream|;
      for i := 0 to n
        invariant endBuf[..i] == stream[..i]
        modifies endBuf
      {
        endBuf[i] := stream[i];
      }
      stream := stream[n..];
    }

    /** The last WRITE callback delivers what is left in the buffer; then the file ends. */
    method Finish()
      requires Valid()
      modifies this`writes, this`totalSize, this`status
      ensures status == FileEnd && writes == Blocks(content) && totalSize == |content|
    {
      Flush();
      status := FileEnd;
    }

    /** What the scanner leaves behind when the outcome is `o`, after `before` had been written. */
    ghost predicate Left(before: bytes, o: Scanned)
      reads this, buf
    {
      match o
      case End(c, rest) =>
        && status == FileEnd && stream == rest && content == before + c
        && writes == Blocks(content) && totalSize == |content|
      case Aborted(c) => Valid() && status == FileAborted && content == before + c
      case Garbled(c) => before + c <= content
    }

    /** After a stale comparison nothing is left to read, and the next look at the connection ends the upload. */
    ghost predicate Stale(o: Scanned, argByte: byte)
      reads this
    {
      o.Garbled? && o.content <= content && stream == [] && argByte == 0xFF
    }

    /**
     * From the carriage return back to the label, or out. `s` is the input from the carriage return on; when
     * the stream ends among the boundary bytes the rest is up to stale memory.
     */
    method AfterCarriageReturn(ghost s: bytes) returns (argByte: byte, stop: bool, ghost garbled: bool)
      requires Valid() && s == [CR] + stream && status == FileWrite
      modifies this, buf
      ensures !stop ==> Valid() && status == FileWrite
      ensures !stop && !garbled ==> Moved(old(content), s, argByte)
      ensures garbled ==> ScanAt(s, boundary) == Garbled([]) && old(content) <= content
      ensures !stop && garbled ==> argByte == 0xFF && stream == []
      ensures stop ==> Left(old(content), ScanAt(s, boundary))
    {
      stop, garbled := false, false;
      argByte := UploadReadByte();
      if !Connected() {
        ParseFormUploadAborted();
        stop := true;
        return;
      }
      if argByte == LF {
        argByte, stop, garbled := AfterLineEnd(s);
      } else {
        UploadWriteByte(CR);
        assert s[1..] == [argByte] + stream;
      }
    }

    /** Back at the label after one stride, which has been written. */
    ghost predicate Moved(before: bytes, s: bytes, argByte: byte)
      reads this
    {
      var k := Stride(s, boundary);
      0 < k && |stream| < |s| - 1 && Live(argByte, s[k..]) && content == before + s[..k]
    }

    method AfterLineEnd(ghost s: bytes) returns (argByte: byte, stop: bool, ghost garbled: bool)
      requires Valid() && s == [CR, LF] + stream && Connected() && status == FileWrite
      modifies this, buf
      ensures !stop ==> Valid() && status == FileWrite
      ensures !stop && !garbled ==> Moved(old(content), s, argByte)
      ensures garbled ==> ScanAt(s, boundary) == Garbled([]) && old(content) <= content
      ensures !stop && garbled ==> argByte == 0xFF && stream == []
      ensures stop ==> Left(old(content), ScanAt(s, boundary))
    {
      stop, garbled := false, false;
      argByte := UploadReadByte();
      if !Connected() {
        ParseFormUploadAborted();
        stop := true;
        return;
      }
      if argByte != DASH {
        WriteAll([CR, LF]);
        assert s[..2] == [CR, LF] && s[2..] == [argByte] + stream;
        return;
      }
      argByte := UploadReadByte();
      if !Connected() {
        ParseFormUploadAborted();
        stop := true;
        return;
      }
      if argByte != DASH {
        WriteAll([CR, LF, DASH]);
        assert s[..3] == [CR, LF, DASH] && s[3..] == [argByte] + stream;
        return;
      }
      argByte, stop, garbled := AfterDashes(s);
    }

    method AfterDashes(ghost s: bytes) returns (argByte: byte, stop: bool, ghost garbled: bool)
      requires Valid() && s == MARKER + stream && Connected() && status == FileWrite
      modifies this, buf
      ensures !stop ==> Valid() && status == FileWrite
      ensures !stop && !garbled ==> Moved(old(content), s, argByte)
      ensures garbled ==> ScanAt(s, boundary) == Garbled([]) && old(content) <= content
      ensures !stop && garbled ==> argByte == 0xFF && stream == []
      ensures stop ==> Left(old(content), ScanAt(s, boundary))
    {
      stop, argByte := false, DASH;
      AtDashes(s, stream, boundary);
      garbled := |stream| < |boundary|;
      var endBuf := ReadBoundaryBytes();
      if endBuf[..] == boundary {
        Finish();
        stop := true;
      } else {
        WriteAll(MARKER + endBuf[..]);
        argByte := UploadReadByte();
      }
    }

    /** The scanner, from the START callback to END or the abort: its outcome is that of the goto machine. */
    method ScanFile()
      requires buf.Length == BUFLEN
      modifies this, buf
      ensures Left([], ScanAt(old(stream), boundary))
    {
      status := FileStart;
      totalSize, currentSize, writes, content := 0, 0, [], [];
      status := FileWrite;
      ghost var o := ScanAt(stream, boundary);
      ghost var s := stream;
      AheadAgain([], [], o);
      var argByte := UploadReadByte();
      ghost var garbled := false;
      while true
        invariant Valid() && status == FileWrite
        invariant if garbled then Stale(o, argByte) else o == Ahead(content, ScanAt(s, boundary)) && Live(argByte, s)
        decreases |stream|, !garbled
      {
        while argByte != CR
          invariant Valid() && status == FileWrite
          invariant if garbled then Stale(o, argByte) else o == Ahead(content, ScanAt(s, boundary)) && Live(argByte, s)
          decreases |stream|
        {
          if !Connected() {
            ParseFormUploadAborted();
            return;
          }
          StrideAdvances(s, boundary);
          AheadAgain(content, s[..1], ScanAt(s[1..], boundary));
          UploadWriteByte(argByte);
          argByte := UploadReadByte();
          s := s[1..];
        }
        var stop;
        ghost var before := content;
        argByte, stop, garbled := AfterCarriageReturn(s);
        if stop {
          return;
        }
        if !garbled {
          StrideAdvances(s, boundary);
          AheadAgain(before, s[..Stride(s, boundary)], ScanAt(s[Stride(s, boundary)..], boundary));
          s := s[Stride(s, boundary)..];
        }
      }
    }
  }
}
