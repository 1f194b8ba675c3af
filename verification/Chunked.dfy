/**
 * Chunked transfer encoding (section 4.1 of RFC 7230): the server's sendContent and the client's writeToStream.
 */
module Chunked {
  import opened Bytes

  const CRLF: bytes := [CR, LF]
  const MAX_LONG: int := 0x7FFF_FFFF
  const TCP_BUFFER_SIZE: nat := 1460

  const ERROR_NOT_CONNECTED: int := -4
  const ERROR_CONNECTION_LOST: int := -5
  const ERROR_STREAM_WRITE: int := -10
  const ERROR_READ_TIMEOUT: int := -11

  function HexDigit(v: nat): byte
    requires v < 16
  {
    if v < 10 then (48 + v) as byte else (87 + v) as byte
  }

  function HexValue(b: byte): int {
    if 48 <= b <= 57 then b as int - 48
    else if 97 <= b <= 102 then b as int - 87
    else if 65 <= b <= 70 then b as int - 55
    else -1
  }

  /** sprintf's "%x". */
  function Hex(n: nat): (s: bytes)
    ensures s != []
    ensures forall i | 0 <= i < |s| :: 0 <= HexValue(s[i])
  {
    if n < 16 then [HexDigit(n)] else Hex(n / 16) + [HexDigit(n % 16)]
  }

  /** The digits at the front of a text, appended to a number read so far. */
  function Digits(s: bytes, acc: nat): nat {
    if s == [] || HexValue(s[0]) < 0 then acc else Digits(s[1..], 16 * acc + HexValue(s[0]))
  }

  predicate IsSpace(b: byte) { b == 32 || 9 <= b <= 13 }

  function SkipSpaces(s: bytes): bytes {
    if s != [] && IsSpace(s[0]) then SkipSpaces(s[1..]) else s
  }

  function DropSpaces(s: bytes): bytes {
    if s != [] && IsSpace(s[|s| - 1]) then DropSpaces(s[..|s| - 1]) else s
  }

  /** String::trim. */
  function Trim(s: bytes): bytes { SkipSpaces(DropSpaces(s)) }

  /** strtol in base 16: blanks, a sign, an optional 0x, digits; a value too large is cut off. */
  function StrToL(text: bytes): int {
    var s := SkipSpaces(text);
    var signed := s != [] && (s[0] == 43 || s[0] == 45);
    var t := if signed then s[1..] else s;
    var u := if |t| > 2 && t[0] == 48 && (t[1] == 120 || t[1] == 88) && 0 <= HexValue(t[2]) then t[2..] else t;
    var v := Digits(u, 0);
    if signed && s[0] == 45 then (if v > MAX_LONG + 1 then -MAX_LONG - 1 else 0 - v)
    else if v > MAX_LONG then MAX_LONG else v
  }

  lemma {:induction false} DigitsOfHex(n: nat, t: bytes)
    ensures Digits(Hex(n) + t, 0) == Digits(t, n)
    decreases n
  {
    if n < 16 {
      assert (Hex(n) + t)[1..] == t;
    } else {
      var d := HexDigit(n % 16);
      assert Hex(n) + t == Hex(n / 16) + ([d] + t);
      DigitsOfHex(n / 16, [d] + t);
      assert ([d] + t)[1..] == t;
    }
  }

  /** The client reads back the length the server printed exactly if a long holds it; a larger one is cut off. */
  lemma HexReadsBack(n: nat)
    ensures StrToL(Trim(Hex(n) + [CR])) == n <==> n <= MAX_LONG
    ensures MAX_LONG < n ==> StrToL(Trim(Hex(n) + [CR])) == MAX_LONG
  {
    var h := Hex(n);
    assert (h + [CR])[..|h|] == h;
    assert !IsSpace(h[|h| - 1]) && !IsSpace(h[0]) by { assert 0 <= HexValue(h[|h| - 1]) && 0 <= HexValue(h[0]); }
    assert DropSpaces(h + [CR]) == DropSpaces(h) == h;
    assert Trim(h + [CR]) == h;
    if |h| > 1 { assert 0 <= HexValue(h[1]); }
    DigitsOfHex(n, []);
    assert h + [] == h;
  }

  /** The first line without its line feed, and what follows. */
  function LineOf(s: bytes): (r: (bytes, bytes))
    ensures |r.0| + |r.1| <= |s|
    ensures s != [] ==> |r.1| < |s|
  {
    if s == [] then ([], [])
    else if s[0] == LF then ([], s[1..])
    else
      var (line, rest) := LineOf(s[1..]);
      ([s[0]] + line, rest)
  }

  lemma {:induction false} LineOfSplits(line: bytes, rest: bytes)
    requires LF !in line
    ensures LineOf(line + [LF] + rest) == (line, rest)
  {
    if line == [] {
      assert ([LF] + rest)[1..] == rest && [] + [LF] + rest == [LF] + rest;
    } else {
      LineOfSplits(line[1..], rest);
      assert (line + [LF] + rest)[1..] == line[1..] + [LF] + rest;
      assert [line[0]] + line[1..] == line;
    }
  }

  /** What sendContent puts on the wire. */
  function Chunk(content: bytes): bytes { Hex(|content|) + CRLF + content + CRLF }

  function Chunks(contents: seq<bytes>): bytes {
    if contents == [] then [] else Chunk(contents[0]) + Chunks(contents[1..])
  }

  /** The contents before the first empty one. */
  function BeforeEmpty(contents: seq<bytes>): seq<bytes> {
    if contents == [] || contents[0] == [] then [] else [contents[0]] + BeforeEmpty(contents[1..])
  }

  /**
   * What a chunked stream means to the client: the body, the sum of all announced lengths, and the bytes left
   * unread, or the error it stops with.
   */
  datatype Outcome = Body(data: bytes, announced: int, rest: bytes) | Error(code: int, data: bytes)

  function Ahead(data: bytes, o: Outcome): Outcome {
    match o
    case Body(d, n, r) => Body(data + d, |data| + n, r)
    case Error(c, d) => Error(c, data + d)
  }

  lemma AheadOfNothing(o: Outcome)
    ensures Ahead([], o) == o
  {
    match o
    case Body(d, _, _) => assert [] + d == d;
    case Error(_, d) => assert [] + d == d;
  }

  lemma AheadAgain(a: bytes, b: bytes, o: Outcome)
    ensures Ahead(a, Ahead(b, o)) == Ahead(a + b, o)
  {
    match o
    case Body(d, _, _) => assert a + (b + d) == a + b + d;
    case Error(_, d) => assert a + (b + d) == a + b + d;
  }

  function Dechunk(s: bytes): Outcome
    decreases |s|
  {
    if s == [] then Error(ERROR_CONNECTION_LOST, []) else
      var (line, rest) := LineOf(s);
      if line == [] then Error(ERROR_READ_TIMEOUT, []) else
        var len := StrToL(Trim(line));
        if len <= 0 then Body([], len, rest)
        else if |rest| < len then Error(ERROR_STREAM_WRITE, rest)
        else if |rest| < len + 2 || rest[len..len + 2] != CRLF then Error(ERROR_READ_TIMEOUT, rest[..len])
        else Ahead(rest[..len], Dechunk(rest[len + 2..]))
  }

  lemma ChunkReads(content: bytes, more: bytes)
    requires |content| <= MAX_LONG
    ensures Dechunk(Chunk(content) + more) ==
            if content == [] then Body([], 0, CRLF + more) else Ahead(content, Dechunk(more))
  {
    var h := Hex(|content|);
    var rest := content + CRLF + more;
    assert LF !in h + [CR] by {
      forall i | 0 <= i < |h| ensures h[i] != LF { assert 0 <= HexValue(h[i]); }
    }
    assert Chunk(content) + more == (h + [CR]) + [LF] + rest;
    LineOfSplits(h + [CR], rest);
    HexReadsBack(|content|);
    if content == [] {
      assert rest == CRLF + more;
    } else {
      assert rest[..|content|] == content && rest[|content|..|content| + 2] == CRLF && rest[|content| + 2..] == more;
    }
  }

  /**
   * The round trip: a stream of contents that is closed by an empty one is read back as the concatenation of the
   * contents before it, whatever follows.
   */
  lemma {:induction false} ChunksReadBack(contents: seq<bytes>, more: bytes)
    requires [] in contents && forall c | c in contents :: |c| <= MAX_LONG
    ensures var o := Dechunk(Chunks(contents) + more);
            && o.Body? && o.data == Concat(BeforeEmpty(contents)) && o.announced == |o.data|
            && Verdict(o, -1) == |o.data|
    decreases contents
  {
    var rest := Chunks(contents[1..]) + more;
    assert Chunks(contents) + more == Chunk(contents[0]) + rest;
    ChunkReads(contents[0], rest);
    if contents[0] != [] {
      ChunksReadBack(contents[1..], more);
      assert BeforeEmpty(contents)[1..] == BeforeEmpty(contents[1..]);
    }
  }

  /** Sending one more content appends its chunk to the stream of the contents before it. */
  lemma {:induction false} ChunksSnoc(contents: seq<bytes>, content: bytes)
    ensures Chunks(contents + [content]) == Chunks(contents) + Chunk(content)
    decreases contents
  {
    if contents == [] {
      assert Chunks([content]) == Chunk(content) + Chunks([]) == Chunk(content);
    } else {
      ChunksSnoc(contents[1..], content);
      assert (contents + [content])[1..] == contents[1..] + [content];
    }
  }

  lemma {:induction false} BeforeClosing(contents: seq<bytes>)
    ensures BeforeEmpty(contents + [[]]) == BeforeEmpty(contents)
    ensures [] !in contents ==> BeforeEmpty(contents) == contents
    decreases contents
  {
    if contents == [] {
    } else if contents[0] != [] {
      BeforeClosing(contents[1..]);
      assert (contents + [[]])[1..] == contents[1..] + [[]];
      assert contents == [contents[0]] + contents[1..];
    }
  }

  class ESP8266WebServer {
    var chunked: bool
    var sent: bytes

    constructor (chunked: bool)
      ensures this.chunked == chunked && sent == []
    {
      this.chunked := chunked;
      sent := [];
    }

    method SendContent(content: bytes)
      modifies this`sent
      ensures sent == old(sent) + if chunked then Chunk(content) else content
    {
      var len := |content|;
      if chunked {
        sent := sent + (Hex(len) + CRLF);
      }
      sent := sent + content;
      if chunked {
        sent := sent + CRLF;
      }
    }
  }

  /** The client's connection: the bytes the peer has sent and will send, and how they become available. */
  class Tcp {
    var incoming: bytes
    var schedule: seq<nat>

    constructor (incoming: bytes, schedule: seq<nat>)
      ensures this.incoming == incoming && this.schedule == schedule
    {
      this.incoming, this.schedule := incoming, schedule;
    }

    predicate Connected()
      reads this
    {
      incoming != []
    }

    /** Any number of bytes may be available at a time, also none, as long as the rest follows later. */
    method Available() returns (n: nat)
      modifies this`schedule
      ensures n <= |incoming|
      ensures if old(schedule) == [] then schedule == [] && n == |incoming| else schedule == old(schedule)[1..]
    {
      n := |incoming|;
      if schedule != [] {
        if schedule[0] < n {
          n := schedule[0];
        }
        schedule := schedule[1..];
      }
    }

    method ReadStringUntilLineFeed() returns (line: bytes)
      modifies this`incoming
      ensures (line, incoming) == LineOf(old(incoming))
    {
      var r := LineOf(incoming);
      line, incoming := r.0, r.1;
    }

    method ReadBytes(n: nat) returns (data: bytes)
      modifies this`incoming
      ensures |data| == if n <= |old(incoming)| then n else |old(incoming)|
      ensures data == old(incoming)[..|data|] && incoming == old(incoming)[|data|..]
    {
      var k := if n <= |incoming| then n else |incoming|;
      data := incoming[..k];
      incoming := incoming[k..];
    }
  }

  /** How a stream treats the writes to come: how much it takes of each, and whether that flags an error. */
  type Script = seq<(nat, bool)>

  function Taken(script: Script, n: nat): nat { if script != [] && script[0].0 < n then script[0].0 else n }

  predicate Flagged(script: Script) { script != [] && script[0].1 }

  function Later(script: Script): Script { if script == [] then [] else script[1..] }

  /**
   * When a buffer goes through. Taken at once, by a stream that neither had an error nor flags one now; or else,
   * whatever was flagged so far, if the rest is taken by a second write that flags none.
   */
  predicate GoesThrough(script: Script, failed: bool, n: nat) {
    var k := Taken(script, n);
    if k == n then !failed && !Flagged(script)
    else Taken(Later(script), n - k) == n - k && !Flagged(Later(script))
  }

  /** The stream the body goes to: it may take less than it is given, or flag an error, as its script says. */
  class Stream {
    var written: bytes
    var script: Script
    var writeError: bool

    /** Nothing in the script: every write is taken whole and without error. */
    predicate Willing()
      reads this
    {
      script == [] && !writeError
    }

    constructor (script: Script)
      ensures written == [] && this.script == script && !writeError
    {
      written, writeError := [], false;
      this.script := script;
    }

    method Write(data: bytes) returns (n: nat)
      modifies this
      ensures n == Taken(old(script), |data|) && written == old(written) + data[..n]
      ensures writeError == (old(writeError) || Flagged(old(script))) && script == Later(old(script))
    {
      n := Taken(script, |data|);
      writeError := writeError || Flagged(script);
      script := Later(script);
      written := written + data[..n];
    }
  }

  /** How much of what comes in belongs to a block of a given size. */
  function Wanted(available: nat, blockSize: int): nat
    requires -1 <= blockSize
  {
    if blockSize == -1 || available < blockSize then available else blockSize
  }

  /** The result the client returns: the body's length, unless it contradicts the announced one. */
  function Verdict(o: Outcome, size: int): int {
    match o
    case Error(code, _) => code
    case Body(data, announced, _) =>
      if |data| == (if size <= 0 then announced else size) then |data| else ERROR_STREAM_WRITE
  }

  class HttpClient {
    const tcp: Tcp
    var size: int

    constructor (tcp: Tcp, size: int)
      ensures this.tcp == tcp && this.size == size
    {
      this.tcp := tcp;
      this.size := size;
    }

    /** Writes one buffer, with a second try for what the first one left over. */
    method WriteBuffer(stream: Stream, buff: bytes) returns (ok: bool, bytesWritten: nat)
      modifies stream
      ensures bytesWritten <= |buff| && stream.written == old(stream.written) + buff[..bytesWritten]
      ensures ok <==> GoesThrough(old(stream.script), old(stream.writeError), |buff|)
      ensures ok ==> bytesWritten == |buff| && !stream.writeError
      ensures old(stream.Willing()) ==> ok && stream.Willing()
    {
      var bytesWrite := stream.Write(buff);
      bytesWritten := bytesWrite;
      if bytesWrite != |buff| {
        if stream.writeError {
          stream.writeError := false;
        }
        var leftBytes := |buff| - bytesWrite;
        var again := stream.Write(buff[bytesWrite..]);
        bytesWritten := bytesWritten + again;
        assert buff[..bytesWritten] == buff[..bytesWrite] + buff[bytesWrite..][..again];
        if again != leftBytes {
          return false, bytesWritten;
        }
      }
      ok := !stream.writeError;
    }

    /** One turn of the copying loop: as many bytes as are available, wanted and fit the buffer. */
    method CopySome(stream: Stream, len: int, buffSize: nat) returns (ok: bool, readBytes: nat, ghost n: nat)
      requires tcp.Connected() && (len == -1 || 0 < len) && 0 < buffSize
      modifies stream, tcp
      ensures readBytes <= |old(tcp.incoming)| && tcp.incoming == old(tcp.incoming)[readBytes..]
      ensures 0 < len ==> readBytes <= len
      ensures n <= readBytes && stream.written == old(stream.written) + old(tcp.incoming)[..n]
      ensures ok ==> n == readBytes
      ensures old(stream.Willing()) ==> ok && stream.Willing()
      ensures |tcp.incoming| + |tcp.schedule| < |old(tcp.incoming)| + |old(tcp.schedule)|
    {
      ok, readBytes, n := true, 0, 0;
      var sizeAvailable := tcp.Available();
      if sizeAvailable != 0 {
        readBytes := sizeAvailable;
        if len > 0 && readBytes > len {
          readBytes := len;
        }
        if readBytes > buffSize {
          readBytes := buffSize;
        }
        var buff := tcp.ReadBytes(readBytes);
        ok, n := WriteBuffer(stream, buff);
        assert buff[..n] == old(tcp.incoming)[..n];
      }
    }

    /**
     * Copies one block of `blockSize` bytes, or everything up to the end of the connection for -1. Whatever the
     * outcome, the stream has got a prefix of the bytes that came in; a result of zero or more is the number
     * of bytes copied, and for a known size all of them.
     */
    method WriteToStreamDataBlock(stream: Stream, blockSize: int) returns (r: int, ghost copied: nat)
      requires -1 <= blockSize
      modifies stream, tcp
      ensures copied <= Wanted(|old(tcp.incoming)|, blockSize)
      ensures stream.written == old(stream.written) + old(tcp.incoming)[..copied]
      ensures 0 <= r ==> r == copied == Wanted(|old(tcp.incoming)|, blockSize) && blockSize <= r
      ensures 0 <= r ==> tcp.incoming == old(tcp.incoming)[copied..]
      ensures r < 0 ==> r == ERROR_STREAM_WRITE
      ensures old(stream.Willing()) ==>
                && stream.Willing() && copied == Wanted(|old(tcp.incoming)|, blockSize)
                && (0 <= r <==> blockSize <= copied)
    {
      ghost var all := tcp.incoming;
      var buffSize := if 0 < blockSize < TCP_BUFFER_SIZE then blockSize else TCP_BUFFER_SIZE;
      var len := blockSize;
      var bytesWritten := 0;
      copied := 0;
      while tcp.Connected() && (len > 0 || len == -1)
        invariant copied == bytesWritten <= Wanted(|all|, blockSize) && tcp.incoming == all[copied..]
        invariant if blockSize == -1 then len == -1 else 0 <= len == blockSize - bytesWritten
        invariant stream.written == old(stream.written) + all[..copied]
        invariant old(stream.Willing()) ==> stream.Willing()
        decreases |tcp.incoming| + |tcp.schedule|
      {
        var ok, readBytes;
        ghost var n;
        ghost var before := copied;
        ok, readBytes, n := CopySome(stream, len, buffSize);
        assert all[..before + n] == all[..before] + all[before..][..n];
        copied := copied + n;
        if !ok {
          return ERROR_STREAM_WRITE, copied;
        }
        bytesWritten := bytesWritten + readBytes;
        if len > 0 {
          len := len - readBytes;
        }
      }
      if blockSize > 0 && blockSize != bytesWritten {
        return ERROR_STREAM_WRITE, copied;
      }
      r := bytesWritten;
    }

    /** One turn of the chunk loop: header line, data block, line end. A length of zero or less ends the body. */
    method CopyChunk(stream: Stream) returns (len: int, r: int)
      modifies stream, tcp
      ensures 0 <= r ==> r == if 0 < len then len else 0
      ensures 0 <= r && len <= 0 ==>
                Dechunk(old(tcp.incoming)) == Body([], len, tcp.incoming) && stream.written == old(stream.written)
      ensures 0 <= r && 0 < len ==>
                && |tcp.incoming| < |old(tcp.incoming)| && |old(stream.written)| + len == |stream.written|
                && old(stream.written) <= stream.written
                && Dechunk(old(tcp.incoming)) == Ahead(stream.written[|old(stream.written)|..], Dechunk(tcp.incoming))
      ensures old(stream.Willing()) ==> stream.Willing()
      ensures old(stream.Willing()) && r < 0 ==>
                && old(stream.written) <= stream.written
                && Dechunk(old(tcp.incoming)) == Error(r, stream.written[|old(stream.written)|..])
    {
      ghost var s := tcp.incoming;
      len := 0;
      if !tcp.Connected() {
        return len, ERROR_CONNECTION_LOST;
      }
      var line := tcp.ReadStringUntilLineFeed();
      if |line| <= 0 {
        return len, ERROR_READ_TIMEOUT;
      }
      ghost var rest := tcp.incoming;
      len := StrToL(Trim(line));
      if len <= 0 {
        return len, 0;
      }
      ghost var copied;
      r, copied := WriteToStreamDataBlock(stream, len);
      assert stream.written[|old(stream.written)|..] == rest[..copied];
      if r < 0 {
        return;
      }
      var buf := tcp.ReadBytes(2);
      assert |buf| == 2 ==> buf == rest[len..len + 2] && tcp.incoming == rest[len + 2..];
      if |buf| != 2 || buf[0] != CR || buf[1] != LF {
        return len, ERROR_READ_TIMEOUT;
      }
      assert buf == CRLF;
    }

    /** The same turn, accounted against the whole outcome `all`, of which `done` has been copied so far. */
    method Turn(stream: Stream, ghost all: Outcome, ghost done: bytes, ghost start: bytes)
      returns (len: int, n: int, ghost now: bytes)
      requires all == Ahead(done, Dechunk(tcp.incoming)) && stream.written == start + done
      modifies stream, tcp
      ensures 0 <= n || old(stream.Willing()) ==> stream.written == start + now
      ensures 0 <= n && 0 < len ==> all == Ahead(now, Dechunk(tcp.incoming)) && |tcp.incoming| < |old(tcp.incoming)|
      ensures 0 <= n ==> |now| == |done| + n && n == if 0 < len then len else 0
      ensures 0 <= n && len <= 0 ==> all == Body(now, |now| + len, tcp.incoming)
      ensures old(stream.Willing()) ==> stream.Willing()
      ensures old(stream.Willing()) && n < 0 ==> all == Error(n, now)
    {
      ghost var before := stream.written;
      len, n := CopyChunk(stream);
      ghost var block := if before <= stream.written then stream.written[|before|..] else [];
      now := done + block;
      assert before <= stream.written ==> stream.written == start + now;
      if 0 <= n && 0 < len {
        AheadAgain(done, block, Dechunk(tcp.incoming));
      }
    }

    /** The chunk loop: copies blocks until a length of zero or less, or an error. */
    method CopyChunks(stream: Stream) returns (status: int, ret: nat, announced: int, ghost done: bytes)
      modifies stream, tcp
      ensures status <= 0
      ensures status == 0 || old(stream.Willing()) ==> stream.written == old(stream.written) + done
      ensures status == 0 ==> ret == |done| && Dechunk(old(tcp.incoming)) == Body(done, announced, tcp.incoming)
      ensures old(stream.Willing()) && status < 0 ==> Dechunk(old(tcp.incoming)) == Error(status, done)
    {
      ghost var all := Dechunk(tcp.incoming);
      AheadOfNothing(all);
      ret, announced, done := 0, 0, [];
      while true
        invariant ret == |done| == announced
        invariant all == Ahead(done, Dechunk(tcp.incoming))
        invariant stream.written == old(stream.written) + done
        invariant old(stream.Willing()) ==> stream.Willing()
        decreases |tcp.incoming|
      {
        var len, n;
        len, n, done := Turn(stream, all, done, old(stream.written));
        if n < 0 {
          status := n;
          return;
        }
        announced := announced + len;
        ret := ret + n;
        if len <= 0 {
          status := 0;
          return;
        }
      }
    }

    /**
     * Copies a chunked body to the stream. A willing stream gets exactly the body, however the bytes arrive, and
     * the result is its length; and on any stream a result of zero or more means that it got all of the body.
     */
    method WriteToStream(stream: Stream) returns (r: int)
      modifies this`size, stream, tcp
      ensures old(tcp.incoming) == [] ==> r == ERROR_NOT_CONNECTED && stream.written == old(stream.written)
      ensures 0 <= r ==>
                && Dechunk(old(tcp.incoming)).Body?
                && stream.written == old(stream.written) + Dechunk(old(tcp.incoming)).data
                && r == |Dechunk(old(tcp.incoming)).data| && tcp.incoming == Dechunk(old(tcp.incoming)).rest
      ensures old(stream.Willing()) && old(tcp.incoming) != [] ==>
                && stream.written == old(stream.written) + Dechunk(old(tcp.incoming)).data
                && r == Verdict(Dechunk(old(tcp.incoming)), old(size))
    {
      if !tcp.Connected() {
        return ERROR_NOT_CONNECTED;
      }
      var status, ret, announced;
      ghost var done;
      status, ret, announced, done := CopyChunks(stream);
      if status < 0 {
        return status;
      }
      if size <= 0 {
        size := announced;
      }
      if ret != size {
        return ERROR_STREAM_WRITE;
      }
      return ret;
    }
  }

  /**
   * A whole transfer: the server sends the contents and then an empty one, and the client copies what comes in,
   * however it becomes available. The stream gets the contents up to the first empty one. The result is their
   * length, unless the client had been told another one.
   */
  method Transfer(contents: seq<bytes>, schedule: seq<nat>, size: int) returns (written: bytes, r: int)
    requires forall c | c in contents :: |c| <= MAX_LONG
    ensures written == Concat(BeforeEmpty(contents))
    ensures [] !in contents ==> written == Concat(contents)
    ensures r == if size <= 0 || size == |written| then |written| else ERROR_STREAM_WRITE
  {
    var server := new ESP8266WebServer(true);
    for i := 0 to |contents|
      invariant server.chunked && server.sent == Chunks(contents[..i])
    {
      server.SendContent(contents[i]);
      ChunksSnoc(contents[..i], contents[i]);
      assert contents[..i + 1] == contents[..i] + [contents[i]];
    }
    assert contents[..|contents|] == contents;
    server.SendContent([]);
    ChunksSnoc(contents, []);
    BeforeClosing(contents);
    ChunksReadBack(contents + [[]], []);
    assert server.sent + [] == server.sent;
    var tcp := new Tcp(server.sent, schedule);
    var stream := new Stream([]);
    var client := new HttpClient(tcp, size);
    r := client.WriteToStream(stream);
    written := stream.written;
  }
}
