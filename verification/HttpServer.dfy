/**
 * The per-connection state machine of libhttp/pico_http_server.c, from the end of the
 * request to the end of a chunked response. The control writes (size line, CRLF, last
 * chunk) are issued once and a short count is not made up for; the transcript says how
 * much of each was taken, `lost` counts what was dropped, and the body on the wire is the
 * one submitted exactly when that is zero.
 */
module HttpServer {
  import opened Bytes
  import opened ChunkedCoding
  import opened Heap
  import opened Sockets
  import opened HttpUtil

  datatype ServerState =
    | WaitHdr | WaitEofHdr | EofHdr | WaitResponse | WaitData | WaitStaticData
    | SendingData | SendingStaticData | SendingFinal | Error | Closed

  datatype Event = EvReq | EvProgress | EvSent | EvError

  /** One report of progress for each write that took something. */
  function Progress(n: nat): (events: seq<Event>)
    ensures |events| == n
  {
    seq(n, _ => EvProgress)
  }

  lemma MoreProgress(before: seq<Event>, n: nat)
    ensures before + Progress(n) + [EvProgress] == before + Progress(n + 1) && before + Progress(0) == before
  {
  }

  /** What a read event makes of the request so far. */
  datatype RequestInput = Incomplete | Complete | Malformed

  const RESOURCE_FOUND := 2
  const STATIC_RESOURCE := 4

  predicate HasBit(code: nat, bit: nat)
    requires bit > 0
  {
    code / bit % 2 == 1
  }

  lemma {:induction false} FramesSnoc(chunks: seq<Chunk>, c: Chunk)
    ensures Frames(chunks + [c]) == Frames(chunks) + Frame(c)
    ensures Payload(chunks + [c]) == Payload(chunks) + c.data
  {
    hide Frame;
    if chunks == [] {
      assert (chunks + [c])[1..] == [];
    } else {
      FramesSnoc(chunks[1..], c);
      assert (chunks + [c])[1..] == chunks[1..] + [c];
    }
  }

  lemma FrameEnds(chunks: seq<Chunk>, c: Chunk)
    requires c.extension == []
    ensures Frames(chunks + [c])
         == Frames(chunks) + SizeLine(|c.data|, []) + c.data[..|c.data|] + CRLF
  {
    hide Frames, SizeLine;
    FramesSnoc(chunks, c);
    var f, line := Frames(chunks), SizeLine(|c.data|, []);
    assert c.data[..|c.data|] == c.data;
    assert f + (line + c.data + CRLF) == f + line + c.data + CRLF;
  }

  predicate Sending(s: ServerState) {
    s == SendingData || s == SendingStaticData
  }

  predicate AwaitingRequest(s: ServerState) {
    s == WaitHdr || s == WaitEofHdr || s == EofHdr
  }

  predicate AwaitingData(s: ServerState) {
    s == WaitData || s == WaitStaticData
  }

  /** No response body can have been started. */
  predicate BeforeBody(s: ServerState) {
    AwaitingRequest(s) || s == WaitResponse || s == Error
  }

  /** A body that should have gone out and the one that did, with `lost` bytes dropped. */
  ghost predicate OnWire(body: seq<byte>, expected: seq<byte>, lost: nat) {
    |body| + lost == |expected| && (lost == 0 ==> body == expected)
  }

  lemma OnWirePut(body: seq<byte>, expected: seq<byte>, lost: nat, bytes: seq<byte>, k: nat)
    requires OnWire(body, expected, lost) && k <= |bytes|
    ensures OnWire(body + bytes[..k], expected + bytes, lost + |bytes| - k)
    ensures OnWire(body + bytes[..k], expected + bytes[..k], lost)
  {
    if k == |bytes| {
      assert bytes[..k] == bytes;
    }
  }

  lemma TakeMore<T>(prefix: seq<T>, data: seq<T>, n: nat, k: nat)
    requires n + k <= |data|
    ensures prefix + data[..n + k] == prefix + data[..n] + data[n..][..k]
  {
    assert data[..n + k] == data[..n] + data[n..][..k];
  }

  lemma LastChunkText()
    ensures LastChunk([]) == [48, 13, 10, 13, 10]
  {
  }

  /** How much of a chunk's size line, and of its line end, the socket has taken. */
  datatype Taken = Taken(line: nat, end: nat)

  /** The first k bytes, or all. */
  function Cut(s: seq<byte>, k: nat): seq<byte> {
    if k <= |s| then s[..k] else s
  }

  lemma CutIs(s: seq<byte>, k: nat)
    requires k <= |s|
    ensures Cut(s, k) == s[..k]
  {
  }

  /** What is on the wire of a chunk that is done with. */
  function WireFrame(c: Chunk, k: Taken): seq<byte> {
    Cut(SizeLine(|c.data|, []), k.line) + c.data + Cut(CRLF, k.end)
  }

  function WireFrames(chunks: seq<Chunk>, taken: seq<Taken>): seq<byte>
    requires |chunks| == |taken|
  {
    if chunks == [] then []
    else
      var n := |chunks| - 1;
      WireFrames(chunks[..n], taken[..n]) + WireFrame(chunks[n], taken[n])
  }

  lemma WireFramesSnoc(chunks: seq<Chunk>, taken: seq<Taken>, c: Chunk, k: Taken)
    requires |chunks| == |taken|
    ensures WireFrames(chunks + [c], taken + [k]) == WireFrames(chunks, taken) + WireFrame(c, k)
  {
    assert (chunks + [c])[..|chunks|] == chunks && (taken + [k])[..|taken|] == taken;
  }

  lemma CutExact(s: seq<byte>, k: nat)
    ensures |Cut(s, k)| <= |s| && (|Cut(s, k)| == |s| <==> |s| <= k) && (|s| <= k ==> Cut(s, k) == s)
  {
  }

  /** Both control writes around a chunk were taken in full. */
  predicate Whole(c: Chunk, k: Taken) {
    |SizeLine(|c.data|, [])| <= k.line && 2 <= k.end
  }

  lemma WireFrameExact(c: Chunk, k: Taken)
    requires c.extension == []
    ensures |WireFrame(c, k)| <= |Frame(c)| && (|WireFrame(c, k)| == |Frame(c)| <==> Whole(c, k))
    ensures Whole(c, k) ==> WireFrame(c, k) == Frame(c)
  {
    hide SizeLine;
    CutExact(SizeLine(|c.data|, []), k.line);
    CutExact(CRLF, k.end);
  }

  lemma NoFrames()
    ensures Frames([]) == []
  {
  }

  /** Cutting a control write makes what is on the wire shorter. */
  lemma {:induction false} WireFramesExact(chunks: seq<Chunk>, taken: seq<Taken>)
    requires |chunks| == |taken| && forall i :: 0 <= i < |chunks| ==> chunks[i].extension == []
    ensures var whole := forall i :: 0 <= i < |chunks| ==> Whole(chunks[i], taken[i]);
      && |WireFrames(chunks, taken)| <= |Frames(chunks)|
      && (|WireFrames(chunks, taken)| == |Frames(chunks)| <==> whole)
      && (whole ==> WireFrames(chunks, taken) == Frames(chunks))
  {
    hide WireFrame, Frame, Whole, Frames;
    if chunks != [] {
      var n := |chunks| - 1;
      assert chunks == chunks[..n] + [chunks[n]];
      FramesSnoc(chunks[..n], chunks[n]);
      WireFrameExact(chunks[n], taken[n]);
      WireFramesExact(chunks[..n], taken[..n]);
    } else {
      NoFrames();
    }
  }

  /** The socket has taken k bytes of the line end of the last chunk. */
  function EndTaken(taken: seq<Taken>, k: nat): (r: seq<Taken>)
    requires taken != []
    ensures |r| == |taken|
  {
    taken[..|taken| - 1] + [Taken(taken[|taken| - 1].line, k)]
  }

  /** What has happened on a connection, in terms of the user and of the wire. */
  datatype Transcript = Transcript(
    header: seq<byte>,       // what went out ahead of the response body
    whole: bool,             // a response header has gone out, and all of it
    body: seq<byte>,         // the response body on the wire
    submitted: seq<Chunk>,   // every buffer accepted from the user, in order
    taken: seq<Taken>,       // what was taken of the control writes around each
    finished: bool,          // the last chunk has been written
    last: nat,               // how much of it was taken
    lost: nat                // control bytes the socket did not take
  ) {
    function Last(): seq<byte>
      requires submitted != []
    {
      submitted[|submitted| - 1].data
    }

    predicate InFlight(s: ServerState, sent: nat) {
      |taken| == |submitted| && (Sending(s) ==> submitted != [] && sent <= |Last()|)
    }

    /** The body that should be on the wire: complete frames, then as much of the frame
        in flight as has been sent, or the last chunk. */
    ghost function Expected(s: ServerState, sent: nat): seq<byte>
      requires InFlight(s, sent)
    {
      if Sending(s) then
        Frames(submitted[..|submitted| - 1]) + SizeLine(|Last()|, []) + Last()[..sent]
      else if finished then Body(submitted, [])
      else Frames(submitted)
    }

    /** The body that is on the wire: the same with the control writes cut. */
    ghost function Actual(s: ServerState, sent: nat): seq<byte>
      requires InFlight(s, sent)
    {
      var n := |submitted| - 1;
      if Sending(s) then
        WireFrames(submitted[..n], taken[..n]) + Cut(SizeLine(|Last()|, []), taken[n].line) + Last()[..sent]
      else if finished then WireFrames(submitted, taken) + Cut(LastChunk([]), last)
      else WireFrames(submitted, taken)
    }

    ghost predicate Consistent(s: ServerState, sent: nat) {
      && InFlight(s, sent)
      && (forall i :: 0 <= i < |submitted| ==>
            submitted[i].extension == [] && 0 < |submitted[i].data| < 0x1_0000)
      && (finished ==> s == Closed)
      && (BeforeBody(s) || (s == Closed && !finished) ==> submitted == [] && lost == 0 && body == [])
      && body == Actual(s, sent)
      && OnWire(body, Expected(s, sent), lost)
    }

    /** No control write around a chunk was cut short; the line end of the one in flight is
        not due yet. */
    ghost predicate FramesWhole(s: ServerState) {
      |taken| == |submitted| && forall i :: 0 <= i < |submitted| ==>
        if Sending(s) && i == |submitted| - 1 then |SizeLine(|submitted[i].data|, [])| <= taken[i].line
        else Whole(submitted[i], taken[i])
    }

    /** The expected body is on the wire exactly when no control write was cut short. */
    lemma WireExact(s: ServerState, sent: nat)
      requires Consistent(s, sent)
      ensures body == Expected(s, sent) <==> FramesWhole(s) && (finished ==> 5 <= last)
      ensures lost == 0 <==> FramesWhole(s) && (finished ==> 5 <= last)
    {
      hide Frames, WireFrames, Whole, SizeLine;
      if Sending(s) {
        var n := |submitted| - 1;
        WireFramesExact(submitted[..n], taken[..n]);
        CutExact(SizeLine(|Last()|, []), taken[n].line);
      } else {
        WireFramesExact(submitted, taken);
        CutExact(LastChunk([]), last);
        LastChunkText();
      }
    }

    /** While a chunk is in flight, complete frames and part of another are expected. */
    lemma ExpectedWithinFrames(s: ServerState, sent: nat)
      requires Consistent(s, sent) && Sending(s)
      ensures Expected(s, sent) <= Frames(submitted)
    {
      hide Frames, SizeLine, WireFrames;
      var front, last := submitted[..|submitted| - 1], submitted[|submitted| - 1];
      assert submitted == front + [last];
      FrameEnds(front, last);
      assert last.data[..|last.data|] == last.data[..sent] + last.data[sent..];
      assert Expected(s, sent) + (last.data[sent..] + CRLF) == Frames(submitted);
    }

    /** The last chunk may be cut short and still leave the beginning of a well-formed body. */
    lemma WireWithinBody(s: ServerState, sent: nat)
      requires Consistent(s, sent) && FramesWhole(s)
      ensures body <= Body(submitted, []) && (!finished ==> body <= Frames(submitted))
    {
      hide Frames, WireFrames, Whole, SizeLine;
      WireExact(s, sent);
      if finished {
        WireFramesExact(submitted, taken);
      } else if Sending(s) {
        ExpectedWithinFrames(s, sent);
      }
    }

    /** Before the body, the state and the header may change. */
    lemma Unstarted(s: ServerState, sent: nat, s': ServerState, header': seq<byte>, whole': bool)
      requires Consistent(s, sent) && BeforeBody(s) && !Sending(s')
      ensures body == [] && !finished
      ensures this.(header := header', whole := whole').Consistent(s', sent)
    {
      hide Frames, WireFrame;
    }

    /** Between chunks, nothing depends on which chunk was the last. */
    lemma Idle(s: ServerState, sent: nat, s': ServerState, sent': nat)
      requires Consistent(s, sent) && (AwaitingData(s) || s == SendingFinal)
      requires s' == s || s' == SendingFinal
      ensures !finished && Consistent(s', sent')
    {
      hide Frames, WireFrames;
    }

    /** A chunk is submitted and k bytes of its size line taken. */
    function Begin(data: seq<byte>, k: nat): Transcript
      requires k <= |SizeLine(|data|, [])|
    {
      var line := SizeLine(|data|, []);
      this.(body := body + line[..k], submitted := submitted + [Chunk([], data)],
            taken := taken + [Taken(k, 0)], lost := lost + |line| - k)
    }

    lemma BeginBodies(s: ServerState, sent: nat, data: seq<byte>, s': ServerState, k: nat)
      requires InFlight(s, sent) && AwaitingData(s) && Sending(s') && !finished && k <= |SizeLine(|data|, [])|
      ensures Begin(data, k).InFlight(s', 0)
      ensures Begin(data, k).Expected(s', 0) == Expected(s, sent) + SizeLine(|data|, [])
      ensures Begin(data, k).Actual(s', 0) == Actual(s, sent) + SizeLine(|data|, [])[..k]
    {
      hide Frames, SizeLine, WireFrames, Cut;
      var n := |submitted|;
      assert (submitted + [Chunk([], data)])[..n] == submitted && (taken + [Taken(k, 0)])[..n] == taken;
      assert data[..0] == [];
      CutIs(SizeLine(|data|, []), k);
    }

    lemma Started(s: ServerState, sent: nat, data: seq<byte>, s': ServerState, k: nat)
      requires Consistent(s, sent) && AwaitingData(s) && Sending(s')
      requires 0 < |data| < 0x1_0000 && k <= |SizeLine(|data|, [])|
      ensures Begin(data, k).Consistent(s', 0)
    {
      hide SizeLine, OnWire, Transcript.Expected, Transcript.Actual;
      BeginBodies(s, sent, data, s', k);
      OnWirePut(body, Expected(s, sent), lost, SizeLine(|data|, []), k);
    }

    lemma Advanced(s: ServerState, sent: nat, k: nat)
      requires Consistent(s, sent) && Sending(s) && sent + k <= |Last()|
      ensures this.(body := body + Last()[sent..][..k]).Consistent(s, sent + k)
    {
      hide Frames, SizeLine, OnWire, WireFrames;
      var n := |submitted| - 1;
      OnWirePut(body, Expected(s, sent), lost, Last()[sent..], k);
      TakeMore(Frames(submitted[..n]) + SizeLine(|Last()|, []), Last(), sent, k);
      TakeMore(WireFrames(submitted[..n], taken[..n]) + Cut(SizeLine(|Last()|, []), taken[n].line), Last(), sent, k);
    }

    lemma Ended(s: ServerState, sent: nat, k: nat)
      requires Consistent(s, sent) && Sending(s) && sent == |Last()| && k <= 2
      ensures var t := this.(body := body + CRLF[..k], taken := EndTaken(taken, k), lost := lost + 2 - k);
        t.Consistent(WaitData, sent)
    {
      hide Frames, SizeLine, OnWire, WireFrames, Cut;
      var n := |submitted| - 1;
      var front, last := submitted[..n], submitted[n];
      assert submitted == front + [last];
      FrameEnds(front, last);
      OnWirePut(body, Expected(s, sent), lost, CRLF, k);
      WireFramesSnoc(front, taken[..n], last, Taken(taken[n].line, k));
      var f, line := WireFrames(front, taken[..n]), Cut(SizeLine(|Last()|, []), taken[n].line);
      assert last.data[..sent] == last.data;
      CutIs(CRLF, k);
      Together(f, line, last.data, CRLF[..k]);
    }

    /** The socket has taken k bytes of the last chunk. */
    function End(k: nat): Transcript
      requires k <= 5
    {
      this.(body := body + LastChunk([])[..k], finished := true, last := k, lost := lost + 5 - k)
    }

    lemma Finished(s: ServerState, sent: nat, k: nat)
      requires Consistent(s, sent) && (AwaitingData(s) || s == SendingFinal) && k <= 5
      ensures End(k).Consistent(Closed, sent)
    {
      hide Frames, WireFrames;
      OnWirePut(body, Expected(s, sent), lost, LastChunk([]), k);
    }
  }

  class Connection {
    var state: ServerState
    var buffer: array?<byte>
    var bufferSize: nat
    var bufferSent: nat
    const sck: OutSocket
    const mem: Memory
    var events: seq<Event>
    ghost var t: Transcript

    /** The buffer in flight is the last one submitted; no other state holds one. */
    ghost predicate BufferValid()
      reads this, buffer
    {
      && (Sending(state) <==> buffer != null)
      && (buffer != null ==>
            && t.submitted != []
            && 0 < bufferSize <= buffer.Length
            && bufferSent <= bufferSize
            && buffer[..bufferSize] == t.Last())
    }

    ghost predicate Valid()
      reads this, sck, buffer
    {
      && BufferValid()
      && t.Consistent(state, bufferSent)
      && sck.wire == t.header + t.body
      && multiset(events)[EvSent] == |t.submitted| - (if Sending(state) then 1 else 0)
    }

    constructor (sck: OutSocket, mem: Memory)
      ensures Valid() && this.sck == sck && this.mem == mem && state == WaitHdr && buffer == null && events == []
      ensures t == Transcript(sck.wire, false, [], [], [], false, 0, 0)
    {
      this.sck, this.mem := sck, mem;
      state, buffer, bufferSize, bufferSent, events := WaitHdr, null, 0, 0, [];
      new;
      t := Transcript(sck.wire, false, [], [], [], false, 0, 0);
      assert sck.wire + [] == sck.wire;
    }

    /** A write of bytes that come before the response body. */
    method PutHeader(bytes: seq<byte>) returns (k: nat)
      requires sck.wire == t.header + t.body && t.body == []
      modifies this`t, sck
      ensures k == Least(|bytes|, sck.plan(old(sck.writes))) && sck.writes == old(sck.writes) + 1
      ensures t == old(t).(header := old(t).header + bytes[..k])
      ensures sck.wire == t.header + t.body
    {
      k := sck.Write(bytes);
      assert t.header + [] == t.header;
      t := t.(header := t.header + bytes[..k]);
      assert t.header + [] == t.header;
    }

    /** A write of bytes that belong to the response body. */
    method Put(bytes: seq<byte>) returns (k: nat)
      requires sck.wire == t.header + t.body
      modifies this`t, sck
      ensures k == Least(|bytes|, sck.plan(old(sck.writes))) && sck.writes == old(sck.writes) + 1
      ensures t == old(t).(body := old(t).body + bytes[..k])
      ensures sck.wire == t.header + t.body
    {
      k := sck.Write(bytes);
      assert t.header + (t.body + bytes[..k]) == (t.header + t.body) + bytes[..k];
      t := t.(body := t.body + bytes[..k]);
    }

    /** server.wakeup: callbacks are taken to do no more than note the event. */
    method Wake(e: Event)
      modifies this`events
      ensures events == old(events) + [e]
    {
      events := events + [e];
    }

    /** The error branch of the read event. */
    method Refuse(errorHeader: seq<byte>)
      requires Valid() && AwaitingRequest(state)
      modifies this`state, this`t, this`events, sck
      ensures Valid() && state == Error && events == old(events) + [EvError] && t.body == []
      ensures sck.writes == old(sck.writes) + 1
      ensures var k := Least(|errorHeader|, sck.plan(old(sck.writes)));
        t == old(t).(header := old(t).header + errorHeader[..k])
    {
      hide Transcript.Consistent;
      t.Unstarted(state, bufferSent, Error, t.header, t.whole);
      var k := PutHeader(errorHeader);
      old(t).Unstarted(state, bufferSent, Error, t.header, t.whole);
      state := Error;
      Wake(EvError);
    }

    /**
     * The read-event branch of http_server_cbk, with the request parser as an input. A
     * complete request and a refused one are signalled, the latter after an error header.
     */
    method ReadEvent(input: RequestInput, errorHeader: seq<byte>)
      requires Valid()
      modifies this`state, this`t, this`events, sck
      ensures Valid() && t == old(t).(header := t.header) && old(t).header <= t.header
      ensures !AwaitingRequest(old(state)) ==>
                state == old(state) && t == old(t) && events == old(events) && sck.writes == old(sck.writes)
      ensures AwaitingRequest(old(state)) ==> t.body == []
      ensures AwaitingRequest(old(state)) && (old(state) == EofHdr || input == Complete) ==>
                state == WaitResponse && events == old(events) + [EvReq]
                && t == old(t) && sck.writes == old(sck.writes)
      ensures old(state) == WaitHdr || old(state) == WaitEofHdr ==>
                && (input == Incomplete ==>
                      state == WaitEofHdr && events == old(events) && t == old(t) && sck.writes == old(sck.writes))
                && (input == Malformed ==>
                      && state == Error && events == old(events) + [EvError]
                      && sck.writes == old(sck.writes) + 1
                      && var k := Least(|errorHeader|, sck.plan(old(sck.writes)));
                      t.header == old(t).header + errorHeader[..k])
    {
      hide Transcript.Consistent;
      if state == WaitHdr || state == WaitEofHdr {
        if input == Malformed {
          Refuse(errorHeader);
          return;
        }
        var next := if input == Complete then EofHdr else WaitEofHdr;
        t.Unstarted(state, bufferSent, next, t.header, t.whole);
        state := next;
      }
      if state == EofHdr {
        t.Unstarted(state, bufferSent, WaitResponse, t.header, t.whole);
        state := WaitResponse;
        Wake(EvReq);
      }
    }

    /** A header is written, and the state it is for entered. */
    method SendHeader(text: seq<byte>, next: ServerState) returns (k: nat)
      requires Valid() && state == WaitResponse && !Sending(next)
      modifies this`state, this`t, sck
      ensures Valid() && state == next && t.body == []
      ensures k == Least(|text|, sck.plan(old(sck.writes))) && sck.writes == old(sck.writes) + 1
      ensures t == old(t).(header := old(t).header + text[..k], whole := k == |text|)
    {
      hide Transcript.Consistent;
      t.Unstarted(state, bufferSent, next, t.header, false);
      k := PutHeader(text);
      old(t).Unstarted(state, bufferSent, next, t.header, k == |text|);
      state, t := next, t.(whole := k == |text|);
    }

    /**
     * pico_http_respond, with the text of the header as an input. Without memory for it no
     * header is sent, but the state moves on; of the count that was written only the lowest
     * eight bits are returned for a resource that was found.
     */
    method Respond(code: nat, text: seq<byte>) returns (ret: int)
      requires Valid()
      modifies this`state, this`t, sck, mem
      ensures Valid() && t == old(t).(header := t.header, whole := t.whole)
      ensures old(state) != WaitResponse ==>
                ret == RETURN_ERROR && state == old(state) && t == old(t) && sck.writes == old(sck.writes)
      ensures old(state) == WaitResponse ==>
        && t.body == []
        && state == (if !HasBit(code, RESOURCE_FOUND) then Closed
                     else if HasBit(code, STATIC_RESOURCE) then WaitStaticData else WaitData)
        && if mem.refusals == old(mem.refusals) then
             var k := Least(|text|, sck.plan(old(sck.writes)));
             && t.header == old(t).header + text[..k] && t.whole == (k == |text|)
             && ret == (if HasBit(code, RESOURCE_FOUND) then k % 256 else k)
             && sck.writes == old(sck.writes) + 1
           else
             && HasBit(code, RESOURCE_FOUND) && mem.refusals == old(mem.refusals) + 1
             && ret == RETURN_ERROR && t.header == old(t).header && !t.whole && sck.writes == old(sck.writes)
      ensures !HasBit(code, RESOURCE_FOUND) || old(state) != WaitResponse ==>
                mem.refusals == old(mem.refusals) && mem.asked == old(mem.asked)
      ensures HasBit(code, RESOURCE_FOUND) && old(state) == WaitResponse ==>
                && mem.asked == old(mem.asked) + 1
                && mem.refusals == old(mem.refusals) + if mem.plan(old(mem.asked)) then 0 else 1
    {
      hide Transcript.Consistent;
      if state != WaitResponse {
        return RETURN_ERROR;
      }
      if HasBit(code, RESOURCE_FOUND) {
        var next := if HasBit(code, STATIC_RESOURCE) then WaitStaticData else WaitData;
        var granted := mem.Grant();
        if !granted {
          t.Unstarted(state, bufferSent, next, t.header, false);
          state, t := next, t.(whole := false);
          return RETURN_ERROR;
        }
        var k := SendHeader(text, next);
        ret := k % 256;
      } else {
        ret := SendHeader(text, Closed);
      }
    }

    /** The last chunk has been tried: a zero count means another try at the next event. */
    ghost predicate LastWritten(was: Transcript, writes: nat)
      reads this, sck
    {
      var k := Least(5, sck.plan(writes));
      && sck.writes == writes + 1
      && state == (if k > 0 then Closed else SendingFinal)
      && t == if k > 0 then was.End(k) else was
    }

    /** send_final */
    method SendFinal()
      requires Valid() && (AwaitingData(state) || state == SendingFinal)
      modifies this`state, this`t, sck
      ensures Valid() && LastWritten(old(t), old(sck.writes))
    {
      hide Transcript.Consistent;
      t.Idle(state, bufferSent, SendingFinal, bufferSent);
      var last: seq<byte> := [48, 13, 10, 13, 10];
      LastChunkText();
      hide LastChunk;
      var k := Put(last);
      if k != 0 {
        old(t).Finished(state, bufferSent, k);
        state, t := Closed, old(t).End(k);
      } else {
        assert t.body == old(t).body;
        state := SendingFinal;
      }
    }

    /** The part of pico_http_submit_data that takes no buffer. */
    method SubmitNothing()
      requires Valid() && AwaitingData(state)
      modifies this`state, this`t, this`bufferSize, this`bufferSent, sck
      ensures Valid() && LastWritten(old(t), old(sck.writes)) && bufferSent == 0
      ensures old(t).body <= t.body && old(t).lost <= t.lost
      ensures t.submitted == old(t).submitted && t.taken == old(t).taken
      ensures t.header == old(t).header && t.whole == old(t).whole
    {
      hide Transcript.Consistent;
      t.Idle(state, bufferSent, state, 0);
      bufferSize, bufferSent := 0, 0;
      SendFinal();
    }

    /** Memory was asked for once. */
    twostate predicate Asked()
      reads mem
    {
      && mem.asked == old(mem.asked) + 1
      && mem.refusals == old(mem.refusals) + if mem.plan(old(mem.asked)) then 0 else 1
    }

    /** PICO_ZALLOC and memcpy. */
    method Copy(data: array<byte>, len: nat) returns (copy: array<byte>)
      requires len <= data.Length
      ensures fresh(copy) && copy.Length == len && copy[..] == data[..len]
    {
      copy := new byte[len];
      forall i | 0 <= i < len {
        copy[i] := data[i];
      }
    }

    /** The text of chunk_str. */
    method ChunkLine(len: nat) returns (line: seq<byte>)
      requires len < 0x1_0000
      ensures line == SizeLine(len, [])
    {
      var chunkStr := new byte[10];
      var chunkCount := ItoaHex(len, chunkStr);
      chunkStr[chunkCount] := CR;
      chunkStr[chunkCount + 1] := LF;
      line := chunkStr[..chunkCount + 2];
    }

    /** A chunk has been accepted: how much of its size line was taken, and lost. */
    ghost predicate ChunkStarted(before: Transcript, data: seq<byte>, writes: nat)
      reads this, sck
    {
      var line := SizeLine(|data|, []);
      var k := Least(|line|, sck.plan(writes));
      && sck.writes == writes + 1 && !t.finished
      && t == before.Begin(data, k)
    }

    /** The buffer is taken over. */
    method Announce(data: array<byte>, len: nat, line: seq<byte>, ghost was: Transcript, k: nat)
      requires AwaitingData(state) && was.Consistent(state, bufferSent) && line == SizeLine(len, [])
      requires 0 < len < 0x1_0000 && len <= data.Length && k <= |line| && !was.finished
      requires t == was.(body := was.body + line[..k]) && sck.wire == t.header + t.body
      requires multiset(events)[EvSent] == |was.submitted|
      modifies this`buffer, this`bufferSize, this`bufferSent, this`state, this`t
      ensures Valid() && buffer == data && bufferSent == 0 && bufferSize == len && !t.finished
      ensures state == if old(state) == WaitData then SendingData else SendingStaticData
      ensures t == was.Begin(data[..len], k)
    {
      hide Transcript.Consistent, Transcript.InFlight, SizeLine;
      ghost var next := if state == WaitData then SendingData else SendingStaticData;
      was.Started(state, bufferSent, data[..len], next, k);
      t := t.(submitted := t.submitted + [Chunk([], data[..len])], taken := t.taken + [Taken(k, 0)],
              lost := t.lost + |line| - k);
      buffer, bufferSize, bufferSent := data, len, 0;
      state := if state == WaitData then SendingData else SendingStaticData;
    }

    /** The part of pico_http_submit_data that announces a chunk. */
    method StartChunk(data: array<byte>, len: nat, line: seq<byte>)
      requires Valid() && AwaitingData(state) && line == SizeLine(len, [])
      requires 0 < len < 0x1_0000 && len <= data.Length
      modifies this, sck
      ensures Valid() && buffer == data && bufferSent == 0 && bufferSize == len
      ensures ChunkStarted(old(t), data[..len], old(sck.writes))
      ensures old(t).body <= t.body && old(t).lost <= t.lost && t.header == old(t).header && t.whole == old(t).whole
      ensures state == if old(state) == WaitData then SendingData else SendingStaticData
      ensures events == old(events)
    {
      assert !t.finished;
      hide Transcript.Consistent, Transcript.InFlight, SizeLine;
      var k := Put(line);
      Announce(data, len, line, old(t), k);
    }

    /** The part of pico_http_submit_data that takes a buffer. */
    method AcceptData(data: array<byte>, len: nat) returns (granted: bool)
      requires Valid() && AwaitingData(state) && 0 < len < 0x1_0000 && len <= data.Length
      modifies this, sck, mem
      ensures Valid() && events == old(events) && old(t).body <= t.body && old(t).lost <= t.lost
      ensures t.header == old(t).header && t.whole == old(t).whole && (granted <==> mem.refusals == old(mem.refusals))
      ensures if old(state) == WaitData then Asked() else granted && mem.asked == old(mem.asked)
      ensures !granted ==>
                state == old(state) && buffer == old(buffer) && t == old(t)
                && sck.writes == old(sck.writes) && bufferSent == old(bufferSent)
      ensures granted ==>
                && ChunkStarted(old(t), old(data[..len]), old(sck.writes)) && bufferSent == 0 && bufferSize == len
                && (old(state) == WaitData ==> state == SendingData && fresh(buffer))
                && (old(state) == WaitStaticData ==> state == SendingStaticData && buffer == data)
    {
      hide Transcript.Consistent, Transcript.InFlight, SizeLine, Connection.ChunkStarted;
      var taken := data;
      if state != WaitStaticData {
        granted := mem.Grant();
        if !granted {
          return;
        }
        taken := Copy(data, len);
        assert taken[..len] == data[..len];
      }
      var line := ChunkLine(len);
      StartChunk(taken, len, line);
      granted := true;
    }

    /**
     * pico_http_submit_data. Static data stays in the user's buffer; other data is copied.
     * A waiting connection accepts everything for which it needs no memory or gets it.
     */
    method SubmitData(data: array?<byte>, length: nat) returns (ret: int)
      requires Valid()
      requires length < 0x1_0000 && (data != null ==> length <= data.Length)
      modifies this, sck, mem
      ensures Valid() && t.header == old(t).header && t.whole == old(t).whole && events == old(events)
      ensures ret == RETURN_OK <==> AwaitingData(old(state)) && mem.refusals == old(mem.refusals)
      ensures if old(state) == WaitData && data != null && length > 0
              then Asked() else mem.asked == old(mem.asked) && mem.refusals == old(mem.refusals)
      ensures ret != RETURN_OK ==>
                ret == RETURN_ERROR && state == old(state) && buffer == old(buffer) && t == old(t)
                && sck.writes == old(sck.writes) && bufferSent == old(bufferSent)
      ensures ret == RETURN_OK && data != null && length > 0 ==>
                && ChunkStarted(old(t), old(data[..length]), old(sck.writes))
                && bufferSent == 0 && bufferSize == length
                && (old(state) == WaitData ==> state == SendingData && fresh(buffer))
                && (old(state) == WaitStaticData ==> state == SendingStaticData && buffer == data)
      ensures ret == RETURN_OK && (data == null || length == 0) ==>
                && t.submitted == old(t).submitted && t.taken == old(t).taken
                && LastWritten(old(t), old(sck.writes))
      ensures old(t).body <= t.body && old(t).lost <= t.lost
    {
      hide Transcript.Consistent, Connection.LastWritten, Connection.ChunkStarted;
      if state != WaitData && state != WaitStaticData {
        return RETURN_ERROR;
      }
      if buffer != null {
        return RETURN_ERROR;
      }
      var len := if data == null then 0 else length;
      if len > 0 {
        var granted := AcceptData(data, len);
        if !granted {
          return RETURN_ERROR;
        }
      } else {
        SubmitNothing();
      }
      ret := RETURN_OK;
    }

    /** There is something to send, and the next write takes all of it. */
    ghost predicate AtOnce()
      reads this, sck
    {
      bufferSent < bufferSize && sck.plan(sck.writes) >= bufferSize - bufferSent
    }

    /** The chunk is still in flight, because the last write took nothing, which was the only one
        unless there was progress; a first write that takes something is not in vain. */
    twostate predicate Stalled()
      reads this, sck
    {
      && state == old(state) && buffer == old(buffer) && t == old(t).(body := t.body)
      && old(bufferSent) <= bufferSent && bufferSize == old(bufferSize)
      && sck.writes > old(sck.writes) && sck.plan(sck.writes - 1) == 0
      && (sck.plan(old(sck.writes)) > 0 ==> old(bufferSent) < bufferSent)
      && (bufferSent == old(bufferSent) ==> sck.writes == old(sck.writes) + 1)
      && (old(AtOnce()) ==> sck.writes == old(sck.writes) + 2)
      && events == old(events) + Progress(sck.writes - old(sck.writes) - 1)
    }

    /** The chunk in flight is complete: how much of its line end was taken, and lost. */
    twostate predicate ChunkEnded()
      reads this, sck
    {
      && state == WaitData && buffer == null && sck.writes > old(sck.writes) && !t.finished
      && events == old(events) + Progress(sck.writes - old(sck.writes) - 1) + [EvSent]
      && |old(t).taken| > 0 && (old(AtOnce()) ==> sck.writes == old(sck.writes) + 2)
      && var k := Least(2, sck.plan(sck.writes - 1));
      && k > 0 && t == old(t).(body := t.body, taken := EndTaken(old(t).taken, k), lost := old(t).lost + 2 - k)
    }

    /** One write of the loop in send_data. */
    method WriteSome() returns (length: nat)
      requires Valid() && Sending(state) && bufferSent < bufferSize
      modifies this`bufferSent, this`t, sck
      ensures Valid() && bufferSent == old(bufferSent) + length
      ensures length == Least(bufferSize - old(bufferSent), sck.plan(old(sck.writes)))
      ensures sck.writes == old(sck.writes) + 1
      ensures t == old(t).(body := t.body) && old(t).body <= t.body
    {
      hide Transcript.Consistent;
      var bytes := buffer[bufferSent..bufferSize];
      assert bytes == t.Last()[bufferSent..];
      length := Put(bytes);
      old(t).Advanced(state, bufferSent, length);
      bufferSent := bufferSent + length;
    }

    /** The loop of send_data. */
    method SendBuffer()
      requires Valid() && Sending(state)
      modifies this`bufferSent, this`t, this`events, sck
      ensures Valid() && old(t).body <= t.body && t == old(t).(body := t.body)
      ensures old(bufferSent) <= bufferSent <= bufferSize && old(sck.writes) <= sck.writes
      ensures bufferSent < bufferSize ==> sck.writes > old(sck.writes) && sck.plan(sck.writes - 1) == 0
      ensures if sck.writes == old(sck.writes) then bufferSent == old(bufferSent) == bufferSize
              else sck.plan(old(sck.writes)) > 0 ==> old(bufferSent) < bufferSent
      ensures bufferSent == old(bufferSent) ==> sck.writes == old(sck.writes) + if bufferSent < bufferSize then 1 else 0
      ensures old(AtOnce()) ==> bufferSent == bufferSize && sck.writes == old(sck.writes) + 1
      ensures events == old(events)
                        + Progress(sck.writes - old(sck.writes) - if bufferSent < bufferSize then 1 else 0)
    {
      hide Transcript.Consistent, Transcript.InFlight, Progress;
      var length: nat := 1;
      MoreProgress(events, 0);
      while bufferSent < bufferSize && length > 0
        invariant Valid() && bufferSent <= bufferSize
        invariant old(t).body <= t.body && old(bufferSent) <= bufferSent
        invariant t == old(t).(body := t.body) && old(sck.writes) <= sck.writes
        invariant length == 0 ==>
                    bufferSent < bufferSize && sck.writes > old(sck.writes) && sck.plan(sck.writes - 1) == 0
        invariant if sck.writes == old(sck.writes) then bufferSent == old(bufferSent)
                  else sck.plan(old(sck.writes)) > 0 ==> old(bufferSent) < bufferSent
        invariant bufferSent == old(bufferSent) ==> sck.writes == old(sck.writes) + if length > 0 then 0 else 1
        invariant old(AtOnce()) && sck.writes > old(sck.writes) ==>
                    bufferSent == bufferSize && sck.writes == old(sck.writes) + 1
        invariant events == old(events) + Progress(sck.writes - old(sck.writes) - if length == 0 then 1 else 0)
        decreases bufferSize - bufferSent, length
      {
        length := WriteSome();
        if length > 0 {
          MoreProgress(old(events), sck.writes - old(sck.writes) - 1);
          Wake(EvProgress);
        }
      }
    }

    /** The buffer is given back and the user told. */
    method Release(ghost was: Transcript, k: nat)
      requires Sending(state) && was.Consistent(state, bufferSent) && |was.taken| > 0
      requires was.submitted != [] && bufferSent == |was.Last()| && 0 < k <= 2
      requires t == was.(body := was.body + CRLF[..k]) && sck.wire == t.header + t.body
      requires multiset(events)[EvSent] == |was.submitted| - 1
      modifies this`buffer, this`state, this`t, this`events
      ensures Valid() && buffer == null && state == WaitData && events == old(events) + [EvSent]
      ensures t == was.(body := was.body + CRLF[..k], taken := EndTaken(was.taken, k), lost := was.lost + 2 - k)
    {
      hide Transcript.Consistent, EndTaken, Transcript.InFlight;
      was.Ended(state, bufferSent, k);
      t := t.(taken := EndTaken(t.taken, k), lost := t.lost + 2 - k);
      buffer, state := null, WaitData;
      Wake(EvSent);
    }

    lemma ChunkInFlight()
      requires Valid() && Sending(state)
      ensures t.submitted != [] && |t.taken| > 0 && !t.finished && |t.Last()| == bufferSize > 0
    {
    }

    /** The chunk trail in send_data: a zero count leaves everything for the next event. */
    method EndChunk()
      requires Valid() && Sending(state) && bufferSent == bufferSize
      modifies this`buffer, this`state, this`t, this`events, sck
      ensures Valid() && old(t).body <= t.body && sck.writes == old(sck.writes) + 1
      ensures Sending(state) <==> sck.plan(old(sck.writes)) == 0
      ensures if Sending(state) then
                state == old(state) && buffer == old(buffer) && t == old(t) && events == old(events)
              else ChunkEnded() && events == old(events) + [EvSent]
    {
      hide Transcript.Consistent, EndTaken, Transcript.InFlight;
      ChunkInFlight();
      var k := Put(CRLF);
      if k > 0 {
        Release(old(t), k);
      } else {
        assert t.body == old(t).body;
      }
    }

    /**
     * send_data. It stops short of the end of the chunk only at a write that takes nothing.
     */
    method SendData()
      requires Valid() && Sending(state)
      modifies this, sck
      ensures Valid() && old(t).body <= t.body
      ensures if Sending(state) then Stalled() else ChunkEnded()
    {
      hide Transcript.Consistent, EndTaken, Transcript.InFlight, Progress, Connection.Valid, Connection.AtOnce;
      ChunkInFlight();
      SendBuffer();
      if bufferSent == bufferSize && bufferSize != 0 {
        EndChunk();
      }
    }

    /** The write-event branch of http_server_cbk. */
    method WriteEvent()
      requires Valid()
      modifies this, sck
      ensures Valid() && t.submitted == old(t).submitted && t.header == old(t).header && t.whole == old(t).whole
      ensures old(t).body <= t.body && old(t).lost <= t.lost
      ensures buffer == null || buffer == old(buffer)
      ensures !Sending(old(state)) && old(state) != SendingFinal ==>
                state == old(state) && t == old(t) && events == old(events) && sck.writes == old(sck.writes)
      ensures old(state) == SendingFinal ==>
                LastWritten(old(t), old(sck.writes)) && events == old(events)
      ensures Sending(old(state)) ==> if Sending(state) then Stalled() else ChunkEnded()
    {
      hide Transcript.Consistent, LastChunk;
      if state == SendingData || state == SendingStaticData {
        SendData();
      } else if state == SendingFinal {
        SendFinal();
      }
    }
  }

  // ----- a whole response -----

  function Chunks(buffers: seq<array<byte>>): (chunks: seq<Chunk>)
    reads buffers
    ensures |chunks| == |buffers|
  {
    seq(|buffers|, i requires 0 <= i < |buffers| reads buffers => Chunk([], buffers[i][..]))
  }

  lemma LineIsShort(len: nat)
    requires len < 0x1_0000
    ensures |SizeLine(len, [])| < 10
  {
    assert Pow(16, 4) == 0x1_0000;
    NumeralLength(len, 16, 4);
  }

  /** The header is out, and the body only grows. */
  twostate predicate KeptHeader(conn: Connection)
    reads conn
  {
    conn.t.header == old(conn.t).header && conn.t.whole == old(conn.t).whole && old(conn.t).body <= conn.t.body
  }

  lemma SentWithin(conn: Connection)
    requires conn.Valid() && Sending(conn.state)
    ensures conn.bufferSent <= conn.bufferSize
  {
  }

  /** Some write from this one on takes something. */
  lemma NextToTake(plan: nat -> nat, from: nat) returns (next: nat)
    requires Lively(plan)
    ensures from <= next && plan(next) > 0
  {
    assert Resumes(plan, from);
    next :| from <= next && plan(next) > 0;
  }

  lemma ProgressSum(before: seq<Event>, n: nat, k: nat)
    ensures before + Progress(n) + Progress(k) == before + Progress(n + k)
  {
  }

  /** Nothing but progress and chunks sent has been reported since. */
  ghost predicate Told(before: seq<Event>, after: seq<Event>) {
    before <= after && forall i :: |before| <= i < |after| ==> after[i] == EvProgress || after[i] == EvSent
  }

  /** Write events until EV_HTTP_SENT. */
  method FinishChunk(conn: Connection) returns (ghost end: nat, ghost n: nat)
    requires conn.Valid() && Sending(conn.state) && conn.t.taken != [] && Lively(conn.sck.plan)
    modifies conn, conn.sck
    ensures conn.Valid() && conn.state == WaitData && KeptHeader(conn) && old(conn.sck.writes) <= conn.sck.writes
    ensures 0 < end <= 2 && (AllOrNothing(old(conn.sck.writes), conn.sck.plan, 10) ==> end == 2)
    ensures conn.t.submitted == old(conn.t).submitted && conn.t.taken == EndTaken(old(conn.t).taken, end)
    ensures conn.t.lost == old(conn.t).lost + 2 - end
    ensures conn.events == old(conn.events) + Progress(n) + [EvSent]
  {
    hide Progress, SizeLine, Transcript.Consistent, Connection.Valid, EndTaken, Lively;
    ghost var next := NextToTake(conn.sck.plan, conn.sck.writes);
    SentWithin(conn);
    n := 0;
    MoreProgress(conn.events, 0);
    while true
      invariant conn.Valid() && Sending(conn.state) && conn.bufferSent <= conn.bufferSize
      invariant KeptHeader(conn) && conn.t == old(conn.t).(body := conn.t.body)
      invariant old(conn.sck.writes) <= conn.sck.writes <= next && conn.sck.plan(next) > 0
      invariant conn.events == old(conn.events) + Progress(n)
      decreases conn.bufferSize - conn.bufferSent, next - conn.sck.writes
    {
      ghost var sent, writes := conn.bufferSent, conn.sck.writes;
      conn.WriteEvent();
      ProgressSum(old(conn.events), n, conn.sck.writes - writes - 1);
      n := n + (conn.sck.writes - writes - 1);
      if !Sending(conn.state) {
        end := Least(2, conn.sck.plan(conn.sck.writes - 1));
        return;
      }
      SentWithin(conn);
      if conn.bufferSent > sent {
        next := NextToTake(conn.sck.plan, conn.sck.writes);
      }
    }
  }

  /** A submission and the write events after it. */
  method ServeOne(conn: Connection, data: array<byte>) returns (ok: bool, ghost k: Taken)
    requires conn.Valid() && AwaitingData(conn.state) && 0 < data.Length < 0x1_0000 && Lively(conn.sck.plan)
    modifies conn, conn.sck, conn.mem
    ensures conn.Valid() && KeptHeader(conn) && old(conn.sck.writes) <= conn.sck.writes
    ensures Told(old(conn.events), conn.events)
    ensures ok <==> conn.mem.refusals == old(conn.mem.refusals)
    ensures ok ==>
              && AwaitingData(conn.state) && conn.t.submitted == old(conn.t).submitted + [Chunk([], data[..])]
              && var line := |SizeLine(data.Length, [])|;
              && k.line == Least(line, conn.sck.plan(old(conn.sck.writes))) && k.end <= 2
              && conn.t.taken == old(conn.t).taken + [k] && conn.t.lost == old(conn.t).lost + line - k.line + 2 - k.end
    ensures ok && AllOrNothing(old(conn.sck.writes), conn.sck.plan, 10) ==> k.end == 2
  {
    hide SizeLine, Transcript.Consistent, Connection.Valid, Lively;
    k := Taken(0, 0);
    assert data[..data.Length] == data[..];
    var ret := conn.SubmitData(data, data.Length);
    ok := ret == RETURN_OK;
    if ok {
      ghost var taken := conn.t.taken;
      ghost var end, n := FinishChunk(conn);
      k := Taken(taken[|taken| - 1].line, end);
    }
  }

  /** The last chunk and the write events after it. */
  method ServeEnd(conn: Connection)
    requires conn.Valid() && AwaitingData(conn.state) && Lively(conn.sck.plan)
    modifies conn, conn.sck, conn.mem
    ensures conn.Valid() && conn.state == Closed && KeptHeader(conn) && conn.t.finished
    ensures conn.events == old(conn.events)
    ensures conn.mem.refusals == old(conn.mem.refusals)
    ensures conn.t.submitted == old(conn.t).submitted && conn.t.taken == old(conn.t).taken
    ensures 0 < conn.t.last <= 5 && conn.t.lost == old(conn.t).lost + 5 - conn.t.last
    ensures AllOrNothing(old(conn.sck.writes), conn.sck.plan, 10) ==> conn.t.last == 5
  {
    hide SizeLine, Transcript.Consistent, Connection.Valid, Lively;
    ghost var next := NextToTake(conn.sck.plan, conn.sck.writes);
    var ret := conn.SubmitData(null, 0);
    while conn.state == SendingFinal
      invariant conn.Valid() && KeptHeader(conn) && conn.mem.refusals == old(conn.mem.refusals)
      invariant conn.events == old(conn.events)
      invariant conn.state == SendingFinal || conn.state == Closed
      invariant old(conn.sck.writes) < conn.sck.writes
      invariant if conn.state == SendingFinal then conn.sck.writes <= next && conn.t == old(conn.t)
                else var k := Least(5, conn.sck.plan(conn.sck.writes - 1)); k > 0 && conn.t == old(conn.t).End(k)
      decreases conn.state == SendingFinal, next - conn.sck.writes
    {
      conn.WriteEvent();
    }
  }

  /** A body that is done is the right one exactly when no control write was cut short. */
  lemma Served(conn: Connection)
    requires conn.Valid() && conn.state == Closed && conn.t.finished
    ensures multiset(conn.events)[EvSent] == |conn.t.submitted| == |conn.t.taken|
    ensures conn.t.body == Body(conn.t.submitted, []) <==> conn.t.FramesWhole(Closed) && 5 <= conn.t.last
    ensures conn.t.lost == 0 <==> conn.t.FramesWhole(Closed) && 5 <= conn.t.last
  {
    hide Transcript.FramesWhole;
    conn.t.WireExact(Closed, conn.bufferSent);
  }

  /** Of the chunks from the from-th on, every line end was taken in full. */
  ghost predicate EndsWhole(taken: seq<Taken>, from: nat) {
    forall i :: from <= i < |taken| ==> taken[i].end == 2
  }

  /**
   * Any number of submissions, each followed by write events until EV_HTTP_SENT, and a last one
   * without data: unless memory is refused, everything submitted goes out and the connection is
   * closed, whatever part of each write the socket takes, as long as it does not stop taking
   * bytes for good. The body is the right one exactly when no control write was cut short. If a
   * write that takes anything takes ten bytes, that leaves the size lines, and if every write
   * does, nothing more is lost.
   */
  method ServeAll(conn: Connection, buffers: seq<array<byte>>) returns (ok: bool)
    requires conn.Valid() && AwaitingData(conn.state) && Lively(conn.sck.plan)
    requires forall i :: 0 <= i < |buffers| ==> 0 < buffers[i].Length < 0x1_0000
    modifies conn, conn.sck, conn.mem
    ensures conn.Valid() && KeptHeader(conn) && (ok <==> conn.mem.refusals == old(conn.mem.refusals))
    ensures Told(old(conn.events), conn.events)
    ensures ok ==>
              && conn.state == Closed && conn.t.finished && conn.t.last > 0
              && conn.t.submitted == old(conn.t).submitted + Chunks(buffers)
              && multiset(conn.events)[EvSent] == |conn.t.submitted| == |conn.t.taken|
              && old(conn.t).taken <= conn.t.taken
              && (conn.t.body == Body(conn.t.submitted, []) <==> conn.t.FramesWhole(Closed) && 5 <= conn.t.last)
    ensures ok && AllOrNothing(old(conn.sck.writes), conn.sck.plan, 10) ==>
              EndsWhole(conn.t.taken, |old(conn.t).taken|) && conn.t.last == 5
    ensures ok && TakesAtLeast(old(conn.sck.writes), conn.sck.plan, 10) ==> conn.t.lost == old(conn.t).lost
  {
    hide SizeLine, Transcript.Consistent, Connection.Valid, Transcript.FramesWhole, Lively;
    for i := 0 to |buffers|
      invariant conn.Valid() && AwaitingData(conn.state) && old(conn.sck.writes) <= conn.sck.writes
      invariant conn.mem.refusals == old(conn.mem.refusals)
      invariant TakesAtLeast(old(conn.sck.writes), conn.sck.plan, 10) ==> conn.t.lost == old(conn.t).lost
      invariant KeptHeader(conn) && old(conn.t).taken <= conn.t.taken && Told(old(conn.events), conn.events)
      invariant AllOrNothing(old(conn.sck.writes), conn.sck.plan, 10) ==> EndsWhole(conn.t.taken, |old(conn.t).taken|)
      invariant conn.t.submitted == old(conn.t).submitted + Chunks(buffers)[..i]
    {
      LineIsShort(buffers[i].Length);
      ghost var k;
      ok, k := ServeOne(conn, buffers[i]);
      if !ok {
        return;
      }
      assert Chunks(buffers)[..i + 1] == Chunks(buffers)[..i] + [Chunk([], buffers[i][..])];
    }
    assert Chunks(buffers)[..|buffers|] == Chunks(buffers);
    ServeEnd(conn);
    Served(conn);
    ok := true;
  }
}
