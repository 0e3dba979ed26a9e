/**
 * Where the calls of a user of the client stop, if all of a body that the server writes is
 * here: with room for every chunk, one call gives one chunk.
 */
module ChunkwiseReading {
  import opened Bytes
  import opened HttpUtil
  import opened ChunkedCoding
  import opened Sockets
  import opened HttpClientBody

  lemma LineEndsShifted(d: Decoder, before: seq<byte>, s: seq<byte>, n: nat)
    requires 0 < n <= |s|
    ensures LineEndsAt(d, before + s, |before| + n) == LineEndsAt(Run(d, before), s, n)
  {
    hide Run;
    assert (before + s)[..|before| + n - 1] == before + s[..n - 1];
    RunConcat(d, before, s[..n - 1]);
  }

  /** What has been read before a line does not matter. */
  lemma {:induction false} LineStopShifted(d: Decoder, before: seq<byte>, s: seq<byte>, from: nat)
    requires from <= |s|
    ensures LineStop(d, before + s, |before| + from) == |before| + LineStop(Run(d, before), s, from)
    decreases |s| - from
  {
    hide LineEndsAt, Run;
    if from < |s| {
      LineEndsShifted(d, before, s, from + 1);
      LineStopShifted(d, before, s, from + 1);
    }
  }

  /** A line at the front of what is left. */
  lemma LineAhead(line: seq<byte>, rest: seq<byte>)
    requires Run(START, line).phase.ChunkTrail? && LF !in line
    ensures LineStop(START, line + [LF] + rest, 0) == |line| + 1
  {
    hide Run;
    var s, n := line + [LF] + rest, |line| + 1;
    assert s[..n - 1] == line;
    assert forall i :: 0 <= i < |line| ==> s[i] == line[i];
    LineStopIs(START, s, 0, n);
  }

  lemma SizeLineAhead(size: nat, rest: seq<byte>)
    requires 0 < size < WORD
    ensures LineStop(START, SizeLine(size, []) + rest, 0) == |SizeLine(size, [])|
  {
    hide Run, Output;
    var digits := Numeral(size, 16);
    NumeralSound(size, 16);
    RunSize(size, digits);
    RunLineEnd(Run(START, digits), [], [CR]);
    RunConcat(START, digits, [CR]);
    assert SizeLine(size, []) == digits + [CR] + [LF];
    LineAhead(digits + [CR], rest);
  }

  lemma DataEndAhead(rest: seq<byte>)
    ensures LineStop(START, CRLF + rest, 0) == 2
  {
    hide Run, Output;
    RunLineEnd(START, [], [CR]);
    assert CRLF == [CR] + [LF];
    LineAhead([CR], rest);
  }

  lemma LastLineAhead()
    ensures LineStop(START, LastChunk([]), 0) == 3 && LastChunk([]) == [ZERO, CR, LF] + CRLF
  {
    hide Run, Output;
    RunLastChunk([], [ZERO]);
    RunSnoc(START, [], ZERO);
    RunEmpty(START);
    assert [] + [ZERO] == [ZERO];
    RunLineEnd(Run(START, [ZERO]), [], [CR]);
    RunConcat(START, [ZERO], [CR]);
    assert LastChunk([]) == [ZERO] + [CR] + [LF] + CRLF;
    LineAhead([ZERO] + [CR], CRLF);
  }

  /** The first line of a body. */
  function FirstLine(chunks: seq<Chunk>): seq<byte> {
    if chunks == [] then [ZERO, CR, LF] else SizeLine(|chunks[0].data|, [])
  }

  lemma FirstLineIs(chunks: seq<Chunk>)
    requires Plain(chunks)
    ensures var line := FirstLine(chunks);
      && line <= Body(chunks, []) && LineStop(START, Body(chunks, []), 0) == |line|
      && Output(START, line) == [] && (Run(START, line).done <==> chunks == [])
      && (chunks != [] ==> Run(START, line) == Settled(|chunks[0].data|, false))
  {
    hide Run, Output, LineStop, SizeLine;
    if chunks == [] {
      LastLineAhead();
      assert Body(chunks, []) == LastChunk([]);
      RunLastChunk([], FirstLine(chunks));
    } else {
      var line, data := SizeLine(|chunks[0].data|, []), chunks[0].data;
      var rest := data + CRLF + Frames(chunks[1..]) + LastChunk([]);
      assert Body(chunks, []) == line + rest;
      SizeLineAhead(|data|, rest);
      RunSizeLine(|data|, [], line);
    }
  }

  lemma BodyTail(chunks: seq<Chunk>)
    requires chunks != []
    ensures Body(chunks, []) == Frame(chunks[0]) + Body(chunks[1..], [])
  {
    hide Frame, LastChunk;
    assert Frame(chunks[0]) + Frames(chunks[1..]) + LastChunk([])
        == Frame(chunks[0]) + (Frames(chunks[1..]) + LastChunk([]));
  }

  /** From the end of a size line on, a call with room for the chunk stops at the end of the
      next one. */
  lemma OneChunk(chunks: seq<Chunk>, size: nat)
    requires Plain(chunks) && chunks != [] && |chunks[0].data| <= size
    ensures |FirstLine(chunks)| <= |Body(chunks, [])|
    ensures ReadTo(START, Body(chunks, []), |FirstLine(chunks)|, size) == |Frame(chunks[0])| + |FirstLine(chunks[1..])|
  {
    hide Run, Output, LineStop, SizeLine, Frames, LastChunk;
    var line, data, rest := FirstLine(chunks), chunks[0].data, Body(chunks[1..], []);
    var frame := Frame(chunks[0]);
    BodyTail(chunks);
    assert frame + rest == line + (data + CRLF + rest) == line + data + (CRLF + rest);
    assert (frame + rest)[..|line|] == line && (frame + rest)[..|frame|] == frame;
    FirstLineIs(chunks);
    RunLineAndData(line, data, data);
    DataEndAhead(rest);
    LineStopShifted(START, line + data, CRLF + rest, 0);
    RunFrame(chunks[0], frame);
    FirstLineIs(chunks[1..]);
    LineStopShifted(START, frame, rest, 0);
  }

  lemma {:induction false} ReadToShifted(before: seq<byte>, s: seq<byte>, from: nat, room: nat)
    requires from <= |s| && Run(START, before) == START
    ensures ReadTo(START, before + s, |before| + from, room) == |before| + ReadTo(START, s, from, room)
    decreases |s| - from
  {
    hide Run, LineStop;
    var left := Run(START, s[..from]).left;
    var n := Least(Least(left, room), |s| - from);
    assert (before + s)[..|before| + from] == before + s[..from];
    RunConcat(START, before, s[..from]);
    LineStopShifted(START, before, s, from + n);
    if left > 0 && n == left {
      ReadToShifted(before, s, LineStop(START, s, from + n), room - n);
    }
  }

  /** What a call from there gives, wherever in the body it is. */
  lemma NextPart(before: seq<byte>, todo: seq<Chunk>, size: nat, to: nat)
    requires Run(START, before) == START && Plain(todo) && todo != [] && |todo[0].data| <= size
    requires StopsAt(START, before + Body(todo, []), |before + FirstLine(todo)|, size, to)
    ensures var now := before + Frame(todo[0]) + FirstLine(todo[1..]);
      && to == |now| && now <= before + Body(todo, [])
      && before + Body(todo, []) == before + Frame(todo[0]) + Body(todo[1..], [])
      && Run(START, before + Frame(todo[0])) == START
      && Output(START, now) == Output(START, before + FirstLine(todo)) + todo[0].data
      && (Run(START, now).done <==> todo[1..] == [])
      && (todo[1..] != [] ==> Run(START, now).phase.Data?)
  {
    hide Run, Output, LineStop, SizeLine, Frames, LastChunk, FirstLine, ReadTo;
    var frame, line, tail := Frame(todo[0]), FirstLine(todo), todo[1..];
    BodyTail(todo);
    FirstLineIs(todo);
    FirstLineIs(tail);
    assert (before + Body(todo, []))[..|before + line|] == before + line;
    RunNext(before, line);
    OneChunk(todo, size);
    ReadToShifted(before, Body(todo, []), |line|, size);
    RunFrame(todo[0], frame);
    RunNext(before, frame);
    RunNext(before + frame, FirstLine(tail));
    assert before + (frame + Body(tail, [])) == before + frame + Body(tail, []);
  }

  lemma InChunk(client: HttpClient)
    requires client.Valid() && !client.state.ConnIdle? && Run(client.origin, client.sck.consumed).phase.Data?
    ensures !client.ReadsLine()
  {
    hide Run, Output;
  }

  lemma EmptyBody(body: seq<byte>, consumed: seq<byte>)
    requires body == Body([], []) && consumed <= body
    ensures Output(START, consumed) == []
  {
    hide Run, Output;
    assert Payload([]) == [];
    DecodeSafe([], [], consumed);
  }

  /** What one call should give. */
  function NextData(todo: seq<Chunk>): seq<byte> {
    if todo == [] then [] else todo[0].data
  }

  /** Ahead of a call: all that comes before a chunk has been read, and the chunk's size line. */
  ghost predicate AtChunk(client: HttpClient, before: seq<byte>, todo: seq<Chunk>)
    reads client, client.sck
  {
    && client.Valid() && client.sck.AllHere() && client.origin == START && !client.state.ConnIdle?
    && Run(START, before) == START && Plain(todo)
    && client.sck.consumed + client.sck.pending == before + Body(todo, [])
    && client.sck.consumed == before + FirstLine(todo)
    && (todo == [] ==> before == [])
  }

  /** The whole response is here, and start_reading_body reads the first line. */
  method Begin(client: HttpClient, ghost chunks: seq<Chunk>) returns (ghost before: seq<byte>)
    requires client.sck.Valid() && client.sck.AllHere() && !client.bodyReadDone
    requires Plain(chunks) && client.sck.pending == Body(chunks, [])
    modifies client, client.sck
    ensures AtChunk(client, before, chunks)
  {
    hide Run, Output, LineStop, WithinLine, LineEndsAt, Body, FirstLine, HttpClient.Tracks;
    client.StartReadingBody();
    FirstLineIs(chunks);
    LineStopNow(START, client.sck.consumed, client.sck.pending, 0);
    RunEmpty(START);
    before := [];
    assert [] + Body(chunks, []) == Body(chunks, []) && [] + FirstLine(chunks) == FirstLine(chunks);
  }

  lemma GivenIs(client: HttpClient, given: seq<byte>, data: seq<byte>, to: seq<byte>, part: seq<byte>)
    requires client.Valid() && client.origin == START && client.sck.consumed == to
    requires client.delivered == given + data && Output(START, to) == given + part
    ensures data == part && client.bodyReadDone == Run(START, to).done
  {
    hide Run, Output;
    assert data == (given + data)[|given|..] == (given + part)[|given|..] == part;
  }

  lemma ReadLater(client: HttpClient, before: seq<byte>, todo: seq<Chunk>)
    requires AtChunk(client, before, todo)
    ensures if todo == [] then client.bodyReadDone else !client.bodyReadDone && !client.ReadsLine()
    ensures client.delivered == Output(START, before) == Output(START, before + FirstLine(todo))
  {
    hide Run, Output, Body, FirstLine;
    FirstLineIs(todo);
    RunNext(before, FirstLine(todo));
    if todo != [] {
      InChunk(client);
    }
    assert Output(START, before) + [] == Output(START, before);
  }

  /** One call, and what it gives. */
  method ReadOne(client: HttpClient, data: array<byte>, size: nat, ghost before: seq<byte>, ghost todo: seq<Chunk>)
    returns (n: nat, done: bool, ghost after: seq<byte>)
    requires AtChunk(client, before, todo) && |NextData(todo)| <= size
    requires size < 0x1_0000 && data.Length == size
    modifies client, client.sck, data
    ensures client.Valid() && n <= size && data[..n] == NextData(todo)
    ensures done == client.bodyReadDone == (|todo| <= 1)
    ensures !done ==> AtChunk(client, after, todo[1..])
  {
    hide Run, Output, LineStop, StopsAt, Body, Frame, FirstLine;
    hide HttpClient.Tracks, HttpClient.Given, HttpClient.LineFirst;
    ghost var given, all := client.delivered, client.sck.consumed + client.sck.pending;
    ReadLater(client, before, todo);
    after := before;
    ghost var lineTo;
    n, done, lineTo := client.ReadBody(data, size, false);
    ghost var consumed := client.sck.consumed;
    assert consumed == all[..|consumed|];
    if todo == [] {
      assert [] + Body([], []) == Body([], []);
      EmptyBody(all, consumed);
      EmptyBody(all, old(client.sck.consumed));
      GivenIs(client, given, data[..n], consumed, []);
    } else {
      assert todo[1..] == [] <==> |todo| <= 1;
      NextPart(before, todo, size, |consumed|);
      after := before + Frame(todo[0]);
      GivenIs(client, given, data[..n], after + FirstLine(todo[1..]), todo[0].data);
    }
  }

  /** What each call gives. */
  function Parts(todo: seq<Chunk>): seq<seq<byte>> {
    if |todo| <= 1 then [NextData(todo)] else [todo[0].data] + Parts(todo[1..])
  }

  /**
   * If all of a body that the server writes is here when its reading starts, and the buffer has
   * room for every chunk, a user who calls until done is given exactly one chunk at a time, and
   * told of the end by the call that gives the last.
   */
  method ReadByChunks(client: HttpClient, size: nat, ghost chunks: seq<Chunk>) returns (parts: seq<seq<byte>>)
    requires client.sck.Valid() && client.sck.AllHere() && !client.bodyReadDone
    requires Plain(chunks) && client.sck.pending == Body(chunks, [])
    requires size < 0x1_0000 && forall i :: 0 <= i < |chunks| ==> |chunks[i].data| <= size
    modifies client, client.sck
    ensures parts == Parts(chunks) && client.Valid() && client.bodyReadDone
  {
    hide Run, Output, Body, Frame, FirstLine, HttpClient.Valid, AtChunk;
    var data := new byte[size];
    var done := false;
    parts := [];
    ghost var todo := chunks;
    ghost var before := Begin(client, chunks);
    while !done
      invariant !done ==> AtChunk(client, before, todo)
      invariant done ==> client.Valid() && client.bodyReadDone
      invariant forall i :: 0 <= i < |todo| ==> |todo[i].data| <= size
      invariant Parts(chunks) == parts + if done then [] else Parts(todo)
      decreases !done, |todo|
    {
      var n: nat;
      n, done, before := ReadOne(client, data, size, before, todo);
      parts := parts + [data[..n]];
      todo := if todo == [] then [] else todo[1..];
    }
  }
}
