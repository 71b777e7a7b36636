/** Daemon replies on the wire: one JSON line when small, bounded frames when large, an error line when oversized. */
module IpcFraming {
  import opened Common

  type Byte = b: int | 0 <= b < 256
  type Bytes = seq<Byte>

  const REQUEST_LIMIT := 2 * 1024 * 1024
  const FRAME_LIMIT := 64 * 1024
  const RESPONSE_LIMIT := 64 * 1024 * 1024

  const LF: Byte := 10

  /** {"_ipc_frames":1} and a line feed. */
  const FRAME_HEADER: Bytes := [123, 34, 95, 105, 112, 99, 95, 102, 114, 97, 109, 101, 115, 34, 58, 49, 125, 10]

  /** The oversize error is some fixed line; only its shape matters here. */
  datatype ErrorLine = ErrorLine(text: Bytes)

  function Flatten(chunks: seq<Bytes>): Bytes {
    if chunks == [] then [] else Flatten(chunks[..|chunks| - 1]) + chunks[|chunks| - 1]
  }

  // ------------------------------------------------------------------- chunking

  /** The data cut into full frames, the last one possibly shorter. */
  ghost predicate IsChunking(chunks: seq<Bytes>, data: Bytes) {
    && Flatten(chunks) == data
    && (forall i :: 0 <= i < |chunks| ==> 0 < |chunks[i]| <= FRAME_LIMIT)
    && (forall i :: 0 <= i < |chunks| - 1 ==> |chunks[i]| == FRAME_LIMIT)
  }

  lemma {:induction false} FullChunksLength(chunks: seq<Bytes>)
    requires forall i :: 0 <= i < |chunks| ==> |chunks[i]| == FRAME_LIMIT
    ensures |Flatten(chunks)| == FRAME_LIMIT * |chunks|
  {
    if chunks != [] { FullChunksLength(chunks[..|chunks| - 1]); }
  }

  /** There is only one way to cut a reply, so both encodings of it frame the same bytes. */
  lemma {:induction false} ChunkingIsUnique(a: seq<Bytes>, b: seq<Bytes>, data: Bytes)
    requires IsChunking(a, data) && IsChunking(b, data)
    ensures a == b
  {
    if a != [] && b != [] {
      var m, n := |a| - 1, |b| - 1;
      FullChunksLength(a[..m]);
      FullChunksLength(b[..n]);
      assert m == n;
      assert Flatten(a[..m]) == data[..FRAME_LIMIT * m] == Flatten(b[..n]);
      assert a[m] == data[FRAME_LIMIT * m..] == b[n];
      ChunkingIsUnique(a[..m], b[..n], data[..FRAME_LIMIT * m]);
      assert a == a[..m] + [a[m]] && b == b[..n] + [b[n]];
    }
  }

  lemma FlattenAppend(chunks: seq<Bytes>, chunk: Bytes)
    ensures Flatten(chunks + [chunk]) == Flatten(chunks) + chunk
  {
  }

  lemma {:induction false} FlattenGrows(tokens: seq<Bytes>, n: nat)
    requires n <= |tokens|
    ensures |Flatten(tokens[..n])| <= |Flatten(tokens)|
  {
    if n == |tokens| {
      assert tokens[..n] == tokens;
    } else {
      FlattenGrows(tokens[..|tokens| - 1], n);
      assert tokens[..|tokens| - 1][..n] == tokens[..n];
    }
  }

  lemma JoinPart(sent: Bytes, buffer: Bytes, part: Bytes, before: Bytes, head: Bytes)
    requires sent + buffer == before + head
    ensures sent + (buffer + part) == before + (head + part)
  {
    assert sent + (buffer + part) == (sent + buffer) + part;
    assert before + (head + part) == (before + head) + part;
  }

  /** The inner loop: sends full frames from the front of the buffer until less than one is left. */
  method FlushFull(sent: seq<Bytes>, buffered: Bytes) returns (chunks: seq<Bytes>, buffer: Bytes)
    requires forall k :: 0 <= k < |sent| ==> |sent[k]| == FRAME_LIMIT
    ensures Flatten(chunks) + buffer == Flatten(sent) + buffered && |buffer| < FRAME_LIMIT
    ensures forall k :: 0 <= k < |chunks| ==> |chunks[k]| == FRAME_LIMIT
  {
    chunks, buffer := sent, buffered;
    while |buffer| >= FRAME_LIMIT
      invariant Flatten(chunks) + buffer == Flatten(sent) + buffered
      invariant forall k :: 0 <= k < |chunks| ==> |chunks[k]| == FRAME_LIMIT
    {
      FlattenAppend(chunks, buffer[..FRAME_LIMIT]);
      assert buffer == buffer[..FRAME_LIMIT] + buffer[FRAME_LIMIT..];
      chunks, buffer := chunks + [buffer[..FRAME_LIMIT]], buffer[FRAME_LIMIT..];
    }
  }

  /** Cuts the encoder's tokens into frames through a buffer; stops at the first part that exceeds the reply limit. */
  method ResponseChunks(tokens: seq<Bytes>) returns (chunks: seq<Bytes>, overflow: bool)
    ensures overflow <==> |Flatten(tokens)| > RESPONSE_LIMIT
    ensures !overflow ==> IsChunking(chunks, Flatten(tokens))
  {
    chunks := [];
    var buffer: Bytes := [];
    var total := 0;
    for i := 0 to |tokens|
      invariant Flatten(chunks) + buffer == Flatten(tokens[..i])
      invariant total == |Flatten(tokens[..i])| <= RESPONSE_LIMIT
      invariant |buffer| < FRAME_LIMIT
      invariant forall k :: 0 <= k < |chunks| ==> |chunks[k]| == FRAME_LIMIT
    {
      var token := tokens[i];
      var start := 0;
      assert tokens[..i + 1][..i] == tokens[..i];
      FlattenGrows(tokens, i + 1);
      while start < |token|
        invariant 0 <= start
        invariant Flatten(chunks) + buffer == Flatten(tokens[..i]) + token[..Min(start, |token|)]
        invariant total == |Flatten(tokens[..i])| + Min(start, |token|) <= RESPONSE_LIMIT
        invariant |buffer| < FRAME_LIMIT
        invariant forall k :: 0 <= k < |chunks| ==> |chunks[k]| == FRAME_LIMIT
      {
        var stop := Min(start + FRAME_LIMIT, |token|);
        var part := token[start..stop];
        total := total + |part|;
        if total > RESPONSE_LIMIT {
          return chunks, true;
        }
        assert token[..stop] == token[..start] + part;
        JoinPart(Flatten(chunks), buffer, part, Flatten(tokens[..i]), token[..start]);
        chunks, buffer := FlushFull(chunks, buffer + part);
        start := start + FRAME_LIMIT;
      }
      assert token[..|token|] == token;
    }
    assert tokens[..|tokens|] == tokens;
    if |buffer| > 0 {
      FlattenAppend(chunks, buffer);
      chunks := chunks + [buffer];
    }
    overflow := false;
  }

  // --------------------------------------------------------------------- writing

  function BigEndian4(n: nat): (r: Bytes)
    requires n < 0x1_0000_0000
    ensures |r| == 4
  {
    [n / 0x100_0000, n / 0x1_0000 % 0x100, n / 0x100 % 0x100, n % 0x100]
  }

  function FromBigEndian(b: Bytes): nat
    requires |b| == 4
  {
    b[0] as int * 0x100_0000 + b[1] as int * 0x1_0000 + b[2] as int * 0x100 + b[3] as int
  }

  /** Network byte order: every byte counts 256 times the next one. */
  lemma BigEndianIsPositional(n: nat)
    requires n < 0x1_0000_0000
    ensures var b := BigEndian4(n); ((b[0] as int * 256 + b[1] as int) * 256 + b[2] as int) * 256 + b[3] as int == n
    ensures FromBigEndian(BigEndian4(n)) == n
  {
  }

  const TERMINATOR: Bytes := [0, 0, 0, 0]

  function Frames(chunks: seq<Bytes>): Bytes
    requires forall i :: 0 <= i < |chunks| ==> |chunks[i]| <= FRAME_LIMIT
  {
    if chunks == [] then [] else BigEndian4(|chunks[0]|) + chunks[0] + Frames(chunks[1..])
  }

  /** The bytes a reply of this encoding is sent as. */
  ghost predicate IsWireForm(out: Bytes, data: Bytes, error: ErrorLine) {
    if |data| < REQUEST_LIMIT then out == data + [LF]
    else if |data| <= RESPONSE_LIMIT then
      exists chunks :: IsChunking(chunks, data) && out == FRAME_HEADER + Frames(chunks) + TERMINATOR
    else out == error.text
  }

  lemma {:induction false} FramesAppend(chunks: seq<Bytes>, chunk: Bytes)
    requires forall i :: 0 <= i < |chunks| ==> |chunks[i]| <= FRAME_LIMIT
    requires |chunk| <= FRAME_LIMIT
    ensures Frames(chunks + [chunk]) == Frames(chunks) + BigEndian4(|chunk|) + chunk
  {
    if chunks != [] {
      assert (chunks + [chunk])[1..] == chunks[1..] + [chunk];
      FramesAppend(chunks[1..], chunk);
    } else {
      assert (chunks + [chunk])[1..] == [];
    }
  }

  lemma NoFrames()
    ensures Frames([]) == []
  {
  }

  /** Sends one line below 2 MiB, otherwise checks the whole reply before the first frame goes out. */
  method WriteResponse(tokens: seq<Bytes>, error: ErrorLine) returns (out: Bytes)
    ensures IsWireForm(out, Flatten(tokens), error)
  {
    hide Frames, BigEndian4, Flatten;
    ghost var data := Flatten(tokens);
    NothingToFlatten();
    NoFrames();
    var chunks, overflow := ResponseChunks(tokens);
    var prefix: seq<Bytes> := [];
    var prefixSize := 0;
    var i := 0;
    while i < |chunks| && prefixSize < REQUEST_LIMIT
      invariant i <= |chunks| && prefix == chunks[..i] && prefixSize == |Flatten(prefix)|
      invariant prefixSize >= REQUEST_LIMIT ==> !overflow ==> |data| >= REQUEST_LIMIT
    {
      assert chunks[..i + 1][..i] == chunks[..i];
      FlattenGrows(chunks, i + 1);
      FlattenAppend(prefix, chunks[i]);
      prefix := prefix + [chunks[i]];
      prefixSize := prefixSize + |chunks[i]|;
      i := i + 1;
    }
    if overflow {
      return error.text;
    }
    if prefixSize < REQUEST_LIMIT {
      assert prefix == chunks;
      return Flatten(prefix) + [LF];
    }
    var again, overflowAgain := ResponseChunks(tokens);
    out := FRAME_HEADER;
    for k := 0 to |again|
      invariant out == FRAME_HEADER + Frames(again[..k])
    {
      FramesAppend(again[..k], again[k]);
      assert again[..k + 1] == again[..k] + [again[k]];
      out := out + BigEndian4(|again[k]|) + again[k];
    }
    assert again[..|again|] == again;
    out := out + TERMINATOR;
  }

  // --------------------------------------------------------------------- reading

  /** Reads frames up to the terminator; returns the reply and what follows it on the stream. */
  function Reassemble(stream: Bytes, result: Bytes): Result<(Bytes, Bytes)>
    decreases |stream|
  {
    if |stream| < 4 then Err("incomplete read")
    else
      var size := FromBigEndian(stream[..4]);
      if size == 0 then
        if result == [] then Err("Daemon returned empty framed response") else Ok((result, stream[4..]))
      else if size > FRAME_LIMIT || |result| + size > RESPONSE_LIMIT then
        Err("Daemon response exceeds frame or logical response limit")
      else if |stream| < 4 + size then Err("incomplete read")
      else Reassemble(stream[4 + size..], result + stream[4..4 + size])
  }

  method ReadFrames(stream: Bytes) returns (r: Result<(Bytes, Bytes)>)
    ensures r == Reassemble(stream, [])
  {
    var result: Bytes := [];
    var rest := stream;
    while true
      invariant Reassemble(stream, []) == Reassemble(rest, result)
      decreases |rest|
    {
      if |rest| < 4 {
        return Err("incomplete read");
      }
      var size := FromBigEndian(rest[..4]);
      if size == 0 {
        if result == [] {
          return Err("Daemon returned empty framed response");
        }
        return Ok((result, rest[4..]));
      }
      if size > FRAME_LIMIT || |result| + size > RESPONSE_LIMIT {
        return Err("Daemon response exceeds frame or logical response limit");
      }
      if |rest| < 4 + size {
        return Err("incomplete read");
      }
      result, rest := result + rest[4..4 + size], rest[4 + size..];
    }
  }

  /** The line up to and including the first line feed, or everything when there is none. */
  function LineEnd(stream: Bytes): (n: nat)
    ensures n <= |stream|
    ensures LF !in stream[..n] ==> n == |stream|
    ensures LF in stream[..n] ==> stream[n - 1] == LF && LF !in stream[..n - 1]
  {
    if stream == [] then 0
    else if stream[0] == LF then assert stream[..0] == []; 1
    else
      var n := 1 + LineEnd(stream[1..]);
      assert stream[..n] == [stream[0]] + stream[1..][..n - 1];
      assert n > 1 ==> stream[..n - 1] == [stream[0]] + stream[1..][..n - 2];
      n
  }

  /** `claimsFrames` says whether a line is a JSON object with a top-level `_ipc_frames` key. */
  function ReadResponse(stream: Bytes, claimsFrames: Bytes -> bool): Result<(Bytes, Bytes)> {
    var n := LineEnd(stream);
    var line := stream[..n];
    if line == FRAME_HEADER then Reassemble(stream[n..], [])
    else if |line| > REQUEST_LIMIT then Err("Daemon legacy response line exceeds limit")
    else if claimsFrames(line) then Err("Daemon returned unsupported or malformed frame header")
    else Ok((line, stream[n..]))
  }

  // ------------------------------------------------------------------ round trip

  lemma LineEndOf(line: Bytes, rest: Bytes)
    requires LF !in line
    ensures LineEnd(line + [LF] + rest) == |line| + 1
  {
    var stream := line + [LF] + rest;
    var n := LineEnd(stream);
    assert stream[|line|] == LF && forall i :: 0 <= i < |line| ==> stream[i] == line[i] != LF;
  }

  lemma HeaderIsALine()
    ensures FRAME_HEADER == FRAME_HEADER[..17] + [LF] && LF !in FRAME_HEADER[..17]
  {
  }

  lemma FrameSizeReads(size: nat, rest: Bytes)
    requires size <= FRAME_LIMIT
    ensures FromBigEndian((BigEndian4(size) + rest)[..4]) == size
  {
  }

  lemma TerminatorReads()
    ensures FromBigEndian(TERMINATOR) == 0
  {
  }

  lemma NothingToFlatten()
    ensures Flatten([]) == []
  {
  }

  lemma OneFrameReads(c: Bytes, tail: Bytes, result: Bytes)
    requires 0 < |c| <= FRAME_LIMIT
    ensures |result| + |c| <= RESPONSE_LIMIT ==>
              Reassemble(BigEndian4(|c|) + (c + tail), result) == Reassemble(tail, result + c)
  {
    hide BigEndian4, FromBigEndian;
    var stream := BigEndian4(|c|) + (c + tail);
    FrameSizeReads(|c|, c + tail);
    assert stream[4..4 + |c|] == c && stream[4 + |c|..] == tail;
  }

  /** Framed chunks reassemble to their concatenation, and what follows the terminator is left on the stream. */
  lemma {:induction false} FramesReassemble(chunks: seq<Bytes>, result: Bytes, rest: Bytes)
    requires forall i :: 0 <= i < |chunks| ==> 0 < |chunks[i]| <= FRAME_LIMIT
    requires |result| + |Flatten(chunks)| <= RESPONSE_LIMIT && (result != [] || chunks != [])
    ensures Reassemble(Frames(chunks) + (TERMINATOR + rest), result) == Ok((result + Flatten(chunks), rest))
  {
    hide BigEndian4, FromBigEndian, Flatten, Frames;
    if chunks == [] {
      NoFrames();
      NothingToFlatten();
      TerminatorReads();
      assert [] + (TERMINATOR + rest) == TERMINATOR + rest;
      assert (TERMINATOR + rest)[..4] == TERMINATOR && (TERMINATOR + rest)[4..] == rest;
      assert result + [] == result;
    } else {
      hide Reassemble;
      var c := chunks[0];
      FlattenFirst(chunks);
      FramesFirst(chunks, TERMINATOR + rest);
      OneFrameReads(c, Frames(chunks[1..]) + (TERMINATOR + rest), result);
      FramesReassemble(chunks[1..], result + c, rest);
      assert result + c + Flatten(chunks[1..]) == result + (c + Flatten(chunks[1..]));
    }
  }

  lemma FlattenLast(chunks: seq<Bytes>)
    requires chunks != []
    ensures Flatten(chunks) == Flatten(chunks[..|chunks| - 1]) + chunks[|chunks| - 1]
  {
  }

  lemma FramesFirst(chunks: seq<Bytes>, end: Bytes)
    requires chunks != [] && forall i :: 0 <= i < |chunks| ==> |chunks[i]| <= FRAME_LIMIT
    ensures Frames(chunks) + end == BigEndian4(|chunks[0]|) + (chunks[0] + (Frames(chunks[1..]) + end))
  {
  }

  lemma {:induction false} FlattenFirst(chunks: seq<Bytes>)
    requires chunks != []
    ensures Flatten(chunks) == chunks[0] + Flatten(chunks[1..])
  {
    var n := |chunks| - 1;
    if n == 0 {
      assert chunks[..0] == [] && chunks[1..] == [];
    } else {
      hide Flatten;
      FlattenFirst(chunks[..n]);
      assert chunks[..n][1..] == chunks[1..][..n - 1];
      FlattenLast(chunks);
      FlattenLast(chunks[1..]);
      var middle := Flatten(chunks[1..][..n - 1]);
      assert chunks[0] + middle + chunks[n] == chunks[0] + (middle + chunks[n]);
    }
  }

  /** The stream starts with frames, none empty or larger than 64 KiB, at least one and no more than 64 MiB in all, and
      their terminator. */
  ghost predicate IsFramed(stream: Bytes, chunks: seq<Bytes>, rest: Bytes) {
    && chunks != [] && |Flatten(chunks)| <= 64 * 1024 * 1024
    && (forall i :: 0 <= i < |chunks| ==> 0 < |chunks[i]| <= 64 * 1024)
    && stream == Frames(chunks) + (TERMINATOR + rest)
  }

  lemma SizeOfBytes(b: Bytes)
    requires |b| == 4
    ensures BigEndian4(FromBigEndian(b)) == b
    ensures FromBigEndian(b) == 0 <==> b == TERMINATOR
  {
    var high: nat, middle: nat, low: nat := b[0], b[0] as int * 256 + b[1] as int,
        (b[0] as int * 256 + b[1] as int) * 256 + b[2] as int;
    var n: nat := low * 256 + b[3] as int;
    assert FromBigEndian(b) == n;
    LastByte(low, b[3]);
    LastByte(middle, b[2]);
    LastByte(high, b[1]);
    assert n / 0x1_0000 == n / 0x100 / 0x100 && n / 0x100_0000 == n / 0x100 / 0x100 / 0x100;
    assert BigEndian4(n) == [b[0], b[1], b[2], b[3]];
  }

  lemma LastByte(high: nat, last: Byte)
    ensures (high * 256 + last as int) / 256 == high && (high * 256 + last as int) % 256 == last as int
  {
  }

  /** Whatever is accepted was framed. */
  lemma {:induction false} AcceptedIsFramed(stream: Bytes, result: Bytes) returns (chunks: seq<Bytes>)
    requires Reassemble(stream, result).Ok? && |result| <= RESPONSE_LIMIT
    ensures forall i :: 0 <= i < |chunks| ==> 0 < |chunks[i]| <= FRAME_LIMIT
    ensures |result| + |Flatten(chunks)| <= RESPONSE_LIMIT && (result != [] || chunks != [])
    ensures stream == Frames(chunks) + (TERMINATOR + Reassemble(stream, result).value.1)
    ensures Reassemble(stream, result).value.0 == result + Flatten(chunks)
    decreases |stream|
  {
    hide BigEndian4, FromBigEndian, Flatten, Frames;
    var size := FromBigEndian(stream[..4]);
    SizeOfBytes(stream[..4]);
    if size == 0 {
      chunks := [];
      NoFrames();
      NothingToFlatten();
      assert stream == [] + (TERMINATOR + stream[4..]);
    } else {
      var c, tail := stream[4..4 + size], stream[4 + size..];
      var more := AcceptedIsFramed(tail, result + c);
      chunks := [c] + more;
      assert chunks[1..] == more;
      FlattenFirst(chunks);
      FramesFirst(chunks, TERMINATOR + Reassemble(stream, result).value.1);
      assert stream == BigEndian4(size) + (c + tail);
      assert result + c + Flatten(more) == result + (c + Flatten(more));
    }
  }

  /** A stream is accepted if and only if it is framed. */
  lemma AcceptedExactlyWhenFramed(stream: Bytes)
    ensures Reassemble(stream, []).Ok? <==> exists chunks, rest :: IsFramed(stream, chunks, rest)
  {
    hide Reassemble, Frames, Flatten;
    if Reassemble(stream, []).Ok? {
      var chunks := AcceptedIsFramed(stream, []);
      assert IsFramed(stream, chunks, Reassemble(stream, []).value.1);
    }
    if chunks, rest :| IsFramed(stream, chunks, rest) { FramesReassemble(chunks, [], rest); }
  }

  /** A first line that is not the header is a reply exactly when it is not longer than 2 MiB and claims no frames. */
  lemma LineIsAcceptedExactlyWhen(stream: Bytes, claimsFrames: Bytes -> bool)
    requires !(FRAME_HEADER <= stream)
    ensures ReadResponse(stream, claimsFrames).Ok?
            <==> LineEnd(stream) <= 2 * 1024 * 1024 && !claimsFrames(stream[..LineEnd(stream)])
    ensures ReadResponse(stream, claimsFrames).Ok? ==>
              var (line, rest) := ReadResponse(stream, claimsFrames).value;
              && line + rest == stream && (rest != [] ==> LF in line)
              && forall i :: 0 <= i < |line| - 1 ==> line[i] != LF
  {
    var n := LineEnd(stream);
    if LF in stream[..n] {
      assert forall i :: 0 <= i < n - 1 ==> stream[i] == stream[..n - 1][i] != LF;
    }
  }

  /** A framed stream cut short anywhere, even between frames or inside the terminator, is never accepted. */
  lemma {:induction false} TruncatedFramesRejected(chunks: seq<Bytes>, result: Bytes, cut: nat)
    requires forall i :: 0 <= i < |chunks| ==> 0 < |chunks[i]| <= FRAME_LIMIT
    requires cut < |Frames(chunks) + TERMINATOR|
    ensures Reassemble((Frames(chunks) + TERMINATOR)[..cut], result).Err?
  {
    hide BigEndian4, FromBigEndian;
    var stream := (Frames(chunks) + TERMINATOR)[..cut];
    if chunks != [] && cut >= 4 {
      var c := chunks[0];
      var tail := Frames(chunks[1..]) + TERMINATOR;
      FramesFirst(chunks, TERMINATOR);
      FrameSizeReads(|c|, c + tail);
      assert stream[..4] == (BigEndian4(|c|) + (c + tail))[..4];
      if cut >= 4 + |c| {
        assert stream[4 + |c|..] == tail[..cut - 4 - |c|];
        TruncatedFramesRejected(chunks[1..], result + stream[4..4 + |c|], cut - 4 - |c|);
      }
    }
  }

  /** Below 2 MiB a reply is one line, and that line is what is read. */
  lemma LineRoundTrip(data: Bytes, out: Bytes, error: ErrorLine, rest: Bytes, claimsFrames: Bytes -> bool)
    requires IsWireForm(out, data, error) && |data| < REQUEST_LIMIT
    requires LF !in data && !claimsFrames(data + [LF]) && claimsFrames(FRAME_HEADER)
    ensures ReadResponse(out + rest, claimsFrames) == Ok((data + [LF], rest))
  {
    var stream := data + [LF] + rest;
    LineEndOf(data, rest);
    assert stream[..|data| + 1] == data + [LF] && stream[|data| + 1..] == rest;
  }

  /** From 2 MiB to 64 MiB a reply travels in frames and is read back byte for byte. */
  lemma FramedRoundTrip(data: Bytes, out: Bytes, error: ErrorLine, rest: Bytes, claimsFrames: Bytes -> bool)
    requires IsWireForm(out, data, error) && REQUEST_LIMIT <= |data| <= RESPONSE_LIMIT
    ensures ReadResponse(out + rest, claimsFrames) == Ok((data, rest))
  {
    hide Frames, Reassemble, LineEnd, Flatten;
    var chunks :| IsChunking(chunks, data) && out == FRAME_HEADER + Frames(chunks) + TERMINATOR;
    HeaderLine(Frames(chunks) + (TERMINATOR + rest));
    assert out + rest == FRAME_HEADER + (Frames(chunks) + (TERMINATOR + rest));
    NothingToFlatten();
    FramesReassemble(chunks, [], rest);
    assert [] + Flatten(chunks) == data;
  }

  lemma HeaderLine(tail: Bytes)
    ensures LineEnd(FRAME_HEADER + tail) == |FRAME_HEADER|
    ensures (FRAME_HEADER + tail)[..|FRAME_HEADER|] == FRAME_HEADER && (FRAME_HEADER + tail)[|FRAME_HEADER|..] == tail
  {
    HeaderIsALine();
    LineEndOf(FRAME_HEADER[..17], tail);
  }

  /** Beyond 64 MiB the peer sees the error line and nothing else of the reply. */
  lemma OversizeIsReported(data: Bytes, out: Bytes, error: ErrorLine, body: Bytes, rest: Bytes,
                           claimsFrames: Bytes -> bool)
    requires IsWireForm(out, data, error) && |data| > RESPONSE_LIMIT
    requires error.text == body + [LF] && LF !in body && |error.text| <= REQUEST_LIMIT
    requires !claimsFrames(error.text) && claimsFrames(FRAME_HEADER)
    ensures ReadResponse(out + rest, claimsFrames) == Ok((error.text, rest))
  {
    LineEndOf(body, rest);
    assert (out + rest)[..|body| + 1] == error.text && (out + rest)[|body| + 1..] == rest;
  }

  /** A cut anywhere after the header of a framed reply makes the read fail. */
  lemma TruncatedReplyRejected(data: Bytes, out: Bytes, error: ErrorLine, cut: nat, claimsFrames: Bytes -> bool)
    requires IsWireForm(out, data, error) && REQUEST_LIMIT <= |data| <= RESPONSE_LIMIT
    requires |FRAME_HEADER| <= cut < |out|
    ensures ReadResponse(out[..cut], claimsFrames).Err?
  {
    var chunks :| IsChunking(chunks, data) && out == FRAME_HEADER + Frames(chunks) + TERMINATOR;
    var body := Frames(chunks) + TERMINATOR;
    var n := cut - |FRAME_HEADER|;
    assert out == FRAME_HEADER + body;
    assert out[..cut] == FRAME_HEADER + body[..n];
    HeaderLine(body[..n]);
    TruncatedFramesRejected(chunks, [], n);
  }
}
