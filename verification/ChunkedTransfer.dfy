/**
 * A chunked response end to end: the server's connection, a byte pipe that delivers at
 * its own pace, and the client's reader.
 */
module ChunkedTransfer {
  import opened Bytes
  import opened ChunkedCoding
  import opened ChunkSizes
  import opened Sockets
  import opened Heap
  import opened HttpServer
  import opened CutWrites
  import opened HttpClientBody
  import opened HttpUtil

  /**
   * Whatever part of the response body a client has read, provided no size line of the server
   * was cut short, and no line end but the last: what its user holds is a prefix of the buffers
   * submitted in order, and the end of the body is reported only once the server has closed
   * and only when the user holds all of them.
   */
  lemma EndToEnd(t: Transcript, s: ServerState, sent: nat, consumed: seq<byte>)
    requires t.Consistent(s, sent) && Unharmed(t)
    requires consumed <= t.body
    ensures Output(START, consumed) <= Payload(t.submitted)
    ensures Run(START, consumed).done ==>
              Output(START, consumed) == Payload(t.submitted) && t.finished && s == Closed
  {
    hide Frames, WireFrames, CutBody, Run, Output, Payload, AllHarmless;
    var last := if t.finished then t.last else 0;
    ServerCuts(t, s, sent);
    HarmlessIsRight(t.submitted, t.taken, last);
    RunMonotone(START, consumed, CutBody(t.submitted, t.taken, last));
  }

  // ----- what the provisos are for -----

  const ONE: seq<byte> := [65]                  // a chunk of one byte
  const TRICKY: seq<byte> := [49, 13, 10, 65]   // the size line of such a chunk, and the byte

  lemma SmallFrames()
    ensures Payload([Chunk([], ONE)]) == ONE && Payload([Chunk([], TRICKY)]) == TRICKY
    ensures Payload([Chunk([], ONE), Chunk([], TRICKY)]) == ONE + TRICKY
    ensures SizeLine(4, []) == [52, 13, 10] && SizeLine(1, []) == [49, 13, 10]
  {
    var c, d := Chunk([], TRICKY), Chunk([], ONE);
    assert Numeral(4, 16) == Numeral(0, 16) + [52] && Numeral(1, 16) == Numeral(0, 16) + [49];
    assert SizeLine(4, []) == [52] + [] + CRLF && SizeLine(1, []) == [49] + [] + CRLF;
    assert [c][1..] == [] && [d][1..] == [] && [d, c][1..] == [c];
    assert Payload([c]) == c.data + Payload([c][1..]) == c.data + [] == TRICKY;
    assert Payload([d]) == d.data + Payload([d][1..]) == d.data + [] == ONE;
  }

  lemma OneFrame()
    ensures Frames([Chunk([], ONE)]) == TRICKY + CRLF
  {
    var d := Chunk([], ONE);
    SmallFrames();
    assert Frame(d) == [49, 13, 10] + ONE + CRLF == TRICKY + CRLF;
    assert [d][1..] == [];
    assert Frames([d]) == Frame(d) + Frames([d][1..]) == Frame(d) + [] == Frame(d);
  }

  /** However much of its size line is missing, the data of this chunk is taken for another. */
  lemma ReadsAsSize(k: nat)
    requires k < 3
    ensures Output(START, [52, 13, 10][..k] + TRICKY) == ONE
  {
    hide Run, Output;
    var s := [52, 13, 10][..k] + TRICKY;
    assert s[..0] == [] && s[..|s|] == s;
    RunEmpty(START);
    RunNextByte(START, s, 0);
    RunNextByte(START, s, 1);
    RunNextByte(START, s, 2);
    RunNextByte(START, s, 3);
    if k > 0 {
      RunNextByte(START, s, 4);
    }
    if k > 1 {
      RunNextByte(START, s, 5);
    }
  }

  /** Half a line end: what follows it on the wire is skipped up to a line feed. */
  lemma ReadsPastSize()
    ensures Output(START, TRICKY + [CR] + [52, 13, 10] + TRICKY) == [65, 65]
  {
    hide Run, Output;
    var s := TRICKY + [CR] + [52, 13, 10];
    assert s[..0] == [] && s[..8] == s;
    RunEmpty(START);
    RunNextByte(START, s, 0);
    RunNextByte(START, s, 1);
    RunNextByte(START, s, 2);
    RunNextByte(START, s, 3);
    assert Run(START, s[..4]) == START && Output(START, s[..4]) == [65];
    RunNextByte(START, s, 4);
    RunNextByte(START, s, 5);
    RunNextByte(START, s, 6);
    RunNextByte(START, s, 7);
    RunNext(s, TRICKY);
    ReadsAsSize(0);
    assert [52, 13, 10][..0] + TRICKY == TRICKY;
  }

  /** A connection that has answered a request, with a socket and memory of given plans. */
  method Answered(plan: nat -> nat, grants: nat -> bool, text: seq<byte>) returns (conn: Connection)
    requires grants(0) ==> plan(0) >= |text|
    ensures fresh(conn) && fresh(conn.sck) && fresh(conn.mem) && conn.sck.plan == plan && conn.mem.plan == grants
    ensures conn.Valid() && conn.state == WaitData && conn.mem.asked == 1
    ensures conn.t == Transcript(if grants(0) then text else [], grants(0), [], [], [], false, 0, 0)
    ensures conn.sck.writes == if grants(0) then 1 else 0
  {
    hide Transcript.Consistent, Connection.Valid;
    var out := new OutSocket(plan);
    var mem := new Memory(grants);
    conn := new Connection(out, mem);
    conn.ReadEvent(Complete, []);
    assert HasBit(2, RESOURCE_FOUND) && !HasBit(2, STATIC_RESOURCE);
    var ret := conn.Respond(2, text);
    assert [] + text[..|text|] == text;
  }

  /** One chunk, with its data taken in one write. */
  method OneMore(conn: Connection, data: array<byte>)
    requires conn.Valid() && conn.state == WaitData
    requires 0 < data.Length < 0x1_0000 && conn.mem.plan(conn.mem.asked)
    requires conn.sck.plan(conn.sck.writes + 1) >= 0x1_0000 && conn.sck.plan(conn.sck.writes + 2) > 0
    modifies conn, conn.sck, conn.mem
    ensures conn.Valid() && conn.state == WaitData
    ensures conn.t.header == old(conn.t).header && conn.t.whole == old(conn.t).whole
    ensures conn.t.submitted == old(conn.t).submitted + [Chunk([], data[..])]
    ensures conn.sck.writes == old(conn.sck.writes) + 3 && conn.mem.asked == old(conn.mem.asked) + 1
    ensures var line := |SizeLine(data.Length, [])|;
      var k, e := Least(line, old(conn.sck.plan(conn.sck.writes))), Least(2, old(conn.sck.plan(conn.sck.writes + 2)));
      conn.t.taken == old(conn.t).taken + [Taken(k, e)] && conn.t.lost == old(conn.t).lost + line - k + 2 - e
  {
    hide Transcript.Consistent, Connection.Valid, SizeLine;
    assert data[..data.Length] == data[..];
    var ret := conn.SubmitData(data, data.Length);
    assert conn.AtOnce();
    ghost var taken := conn.t.taken;
    conn.WriteEvent();
    assert taken[..|taken| - 1] == old(conn.t).taken;
  }

  /** The last chunk, taken in full. */
  method LastOne(conn: Connection)
    requires conn.Valid() && conn.state == WaitData && conn.sck.plan(conn.sck.writes) >= 5
    modifies conn, conn.sck, conn.mem
    ensures conn.Valid() && conn.state == Closed
    ensures conn.t == old(conn.t).End(5)
  {
    hide Transcript.Consistent, Connection.Valid;
    var ret := conn.SubmitData(null, 0);
  }

  lemma OneWire(conn: Connection, k: nat)
    requires conn.Valid() && conn.state == Closed && conn.t.finished && conn.t.last == 5 && k < 3
    requires conn.t.submitted == [Chunk([], TRICKY)] && conn.t.taken == [Taken(k, 2)]
    ensures [52, 13, 10][..k] + TRICKY <= conn.t.body
  {
    hide SizeLine;
    SmallFrames();
    var t := conn.t;
    assert t.submitted[..0] == [] && t.taken[..0] == [];
    assert WireFrames(t.submitted, t.taken) == [] + WireFrame(t.submitted[0], t.taken[0]);
    assert Cut([52, 13, 10], k) == [52, 13, 10][..k];
  }

  /**
   * Runs in which only the first k bytes of a size line are taken, for every such k: the data
   * itself is then read as one, and the user of the client is given bytes that the user of the
   * server never submitted.
   */
  method CutSizeLine(text: seq<byte>, k: nat) returns (conn: Connection)
    requires k < 3
    ensures conn.Valid() && conn.state == Closed && conn.t.whole && conn.t.header == text
    ensures conn.t.lost == 3 - k && conn.t.submitted == [Chunk([], TRICKY)] && conn.t.taken == [Taken(k, 2)]
    ensures !(Output(START, conn.t.body) <= Payload(conn.t.submitted))
  {
    hide Frames, Frame, Payload, Run, Output, SizeLine, Connection.Valid, Transcript.Consistent;
    SmallFrames();
    var plan: nat -> nat := i => if i == 0 then |text| else if i == 1 then k else 0x1_0000;
    conn := Answered(plan, i => true, text);
    var data := new byte[4] [49, 13, 10, 65];
    assert data[..] == TRICKY;
    OneMore(conn, data);
    LastOne(conn);
    OneWire(conn, k);
    ReadsAsSize(k);
    RunMonotone(START, [52, 13, 10][..k] + TRICKY, conn.t.body);
    assert Output(START, conn.t.body)[0] == 65 != TRICKY[0];
  }

  lemma WrongSecond(body: seq<byte>)
    requires TRICKY + [CR] + [52, 13, 10] + TRICKY <= body
    ensures !(Output(START, body) <= ONE + TRICKY)
  {
    hide Run, Output;
    ReadsPastSize();
    RunMonotone(START, TRICKY + [CR] + [52, 13, 10] + TRICKY, body);
    assert Output(START, body)[1] == 65 != (ONE + TRICKY)[1];
  }

  lemma TwoFrames()
    ensures WireFrame(Chunk([], ONE), Taken(3, 1)) == TRICKY + [CR]
    ensures WireFrame(Chunk([], TRICKY), Taken(3, 2)) == [52, 13, 10] + TRICKY + CRLF
  {
    hide SizeLine;
    SmallFrames();
    assert Cut([49, 13, 10], 3) == [49, 13, 10] && Cut(CRLF, 1) == [CR];
    assert Cut([52, 13, 10], 3) == [52, 13, 10] && Cut(CRLF, 2) == CRLF;
    assert [49, 13, 10] + ONE == TRICKY;
  }

  lemma TwoOnWire(conn: Connection)
    requires conn.Valid() && conn.state == Closed && conn.t.finished && conn.t.last == 5
    requires conn.t.submitted == [Chunk([], ONE), Chunk([], TRICKY)]
    requires conn.t.taken == [Taken(3, 1), Taken(3, 2)]
    ensures TRICKY + [CR] + [52, 13, 10] + TRICKY <= conn.t.body
  {
    hide SizeLine, WireFrame;
    SmallFrames();
    var t := conn.t;
    var c, d := t.submitted[0], t.submitted[1];
    assert t.submitted[..1] == [c] && t.taken[..1] == [Taken(3, 1)];
    assert [c][..0] == [] && [Taken(3, 1)][..0] == [];
    assert WireFrames([c], [Taken(3, 1)]) == [] + WireFrame(c, Taken(3, 1));
    TwoFrames();
    assert t.body == (TRICKY + [CR]) + ([52, 13, 10] + TRICKY + CRLF) + Cut(LastChunk([]), 5);
  }

  /** A first chunk, of whose line end only the first byte is taken. */
  method HalfLineEnd(text: seq<byte>) returns (conn: Connection)
    ensures fresh(conn) && fresh(conn.sck) && fresh(conn.mem) && conn.Valid() && conn.state == WaitData
    ensures conn.t.whole && conn.t.header == text && conn.t.submitted == [Chunk([], ONE)]
    ensures conn.t.taken == [Taken(3, 1)] && conn.t.lost == 1
    ensures conn.mem.plan(conn.mem.asked) && forall i :: i >= conn.sck.writes ==> conn.sck.plan(i) >= 0x1_0000
  {
    hide Frames, Frame, SizeLine, Connection.Valid, Transcript.Consistent;
    SmallFrames();
    var plan: nat -> nat := i => if i == 0 then |text| else if i == 3 then 1 else 0x1_0000;
    conn := Answered(plan, i => true, text);
    var one := new byte[1] [65];
    assert one[..] == ONE;
    OneMore(conn, one);
  }

  /**
   * A run in which only the first byte of a line end is taken: the next size line is passed
   * over, with the same outcome.
   */
  method CutLineEnd(text: seq<byte>) returns (conn: Connection)
    ensures conn.Valid() && conn.state == Closed && conn.t.whole && conn.t.header == text
    ensures conn.t.lost == 1 && conn.t.submitted == [Chunk([], ONE), Chunk([], TRICKY)]
    ensures conn.t.taken == [Taken(3, 1), Taken(3, 2)]
    ensures !(Output(START, conn.t.body) <= Payload(conn.t.submitted))
  {
    hide Frames, Frame, Payload, Run, Output, SizeLine, Connection.Valid, Transcript.Consistent;
    SmallFrames();
    conn := HalfLineEnd(text);
    var data := new byte[4] [49, 13, 10, 65];
    assert data[..] == TRICKY;
    OneMore(conn, data);
    LastOne(conn);
    TwoOnWire(conn);
    WrongSecond(conn.t.body);
  }

  /** The first bytes without which the client takes nothing for a response. */
  const HTTP1: seq<byte> := [72, 84, 84, 80, 47, 49, 46]

  lemma BareBody(conn: Connection)
    requires conn.Valid() && conn.state == Closed && conn.t.finished && conn.t.lost == 0
    requires conn.t.submitted == [Chunk([], ONE)] && conn.t.header == []
    ensures conn.sck.wire == Body(conn.t.submitted, []) && !(HTTP1 <= conn.sck.wire)
  {
    hide Frames, SizeLine, Transcript.Consistent;
    Served(conn);
    OneFrame();
    assert [] + conn.t.body == conn.t.body;
    assert conn.sck.wire[0] == 49;
  }

  /**
   * A run in which there is no memory for the header: the body goes out without one, none of
   * its bytes dropped, and the client refuses it as no response.
   */
  method MissingHeader(text: seq<byte>) returns (conn: Connection)
    ensures conn.Valid() && conn.state == Closed && !conn.t.whole && conn.t.lost == 0
    ensures conn.t.submitted == [Chunk([], ONE)] && conn.sck.wire == Body(conn.t.submitted, [])
    ensures !(HTTP1 <= conn.sck.wire)
  {
    hide Frames, Frame, Payload, SizeLine, Connection.Valid, Transcript.Consistent;
    SmallFrames();
    conn := Answered(i => 0x1_0000, i => i > 0, text);
    var data := new byte[1] [65];
    assert data[..] == ONE;
    OneMore(conn, data);
    LastOne(conn);
    BareBody(conn);
  }

  ghost predicate Truthful(d: Decoder, chunks: seq<Chunk>, e: seq<byte>, p: seq<byte>) {
    WellFormed(chunks) && IsExtension(e) && p <= Body(chunks, e) && Run(d, p).done ==>
      Output(d, p) == Payload(chunks)
  }

  /**
   * The client clears body_read_done when it is created and, outside long polling, nowhere on
   * the way to the next response, so on a connection that is kept alive the flag says what it
   * should about a body exactly when it was clear before that body began.
   */
  lemma DoneTruthfulIff(wasDone: bool)
    ensures (forall chunks, e, p :: Truthful(START.(done := wasDone), chunks, e, p)) <==> !wasDone
  {
    var d := START.(done := wasDone);
    if wasDone {
      var one := [Chunk([], [0])];
      assert Output(d, []) == [] && Payload(one) == [0] + Payload(one[1..]);
      assert !Truthful(d, one, [], []);
    } else {
      forall chunks, e, p ensures Truthful(d, chunks, e, p) {
        if WellFormed(chunks) && IsExtension(e) && p <= Body(chunks, e) {
          DecodeSafe(chunks, e, p);
        }
      }
    }
  }

  // ----- all runs -----

  /** Whatever anyone may do next. */
  datatype Move =
    | Request(input: RequestInput, errorHeader: seq<byte>)   // something of a request is here
    | Response(code: nat, text: seq<byte>)                   // the server's user answers it
    | Submission(data: seq<byte>)                            // and submits data, or none to end
    | Writable                                               // the server's socket has room
    | Transport(count: nat)                                  // the pipe passes on so many bytes
    | Arrival                                                // and some of them are here
    | Reading(size: nat)                                     // the client's user reads the body

  /** What the one who made the move is told. */
  datatype Reply = Nothing | Returned(ret: int) | Given(bytes: seq<byte>, done: bool)

  datatype ServerView =
    ServerView(state: ServerState, t: Transcript, sent: nat, writes: nat, asked: nat, events: seq<Event>)

  datatype ClientView =
    ClientView(consumed: seq<byte>, arrived: nat, reading: bool, delivered: seq<byte>, done: bool)

  /** Everything between two moves. */
  datatype View = View(server: ServerView, passed: nat, client: ClientView)

  const NEW := View(ServerView(WaitHdr, Transcript([], false, [], [], [], false, 0, 0), 0, 0, 0, []), 0,
                    ClientView([], 0, true, [], false))

  predicate Fits(move: Move) {
    match move
    case Submission(data) => |data| < 0x1_0000
    case Reading(size) => size < 0x1_0000
    case _ => true
  }

  function AfterRequest(s: ServerView, input: RequestInput, errorHeader: seq<byte>, plan: nat -> nat): ServerView {
    if !AwaitingRequest(s.state) then s
    else if s.state == EofHdr || input == Complete then s.(state := WaitResponse, events := s.events + [EvReq])
    else if input == Incomplete then s.(state := WaitEofHdr)
    else
      var k := Least(|errorHeader|, plan(s.writes));
      s.(state := Error, t := s.t.(header := s.t.header + errorHeader[..k]), writes := s.writes + 1,
         events := s.events + [EvError])
  }

  predicate Responded(s: ServerView, code: nat, text: seq<byte>, s': ServerView, reply: Reply,
                      plan: nat -> nat, grants: nat -> bool)
  {
    var found := HasBit(code, RESOURCE_FOUND);
    var next := if !found then Closed else if HasBit(code, STATIC_RESOURCE) then WaitStaticData else WaitData;
    if s.state != WaitResponse then s' == s && reply == Returned(RETURN_ERROR)
    else if found && !grants(s.asked) then
      s' == s.(state := next, t := s.t.(whole := false), asked := s.asked + 1) && reply == Returned(RETURN_ERROR)
    else
      var k := Least(|text|, plan(s.writes));
      && reply == Returned(if found then k % 256 else k)
      && s' == s.(state := next, t := s.t.(header := s.t.header + text[..k], whole := k == |text|),
                  writes := s.writes + 1, asked := s.asked + if found then 1 else 0)
  }

  /** Memory is needed for a copy. */
  predicate Copies(s: ServerView, data: seq<byte>) {
    s.state == WaitData && data != []
  }

  predicate Accepts(s: ServerView, data: seq<byte>, grants: nat -> bool) {
    AwaitingData(s.state) && (Copies(s, data) ==> grants(s.asked))
  }

  /** The last chunk is tried. */
  function AfterLast(s: ServerView, plan: nat -> nat): ServerView {
    var k := Least(5, plan(s.writes));
    s.(state := if k > 0 then Closed else SendingFinal, t := if k > 0 then s.t.End(k) else s.t, writes := s.writes + 1)
  }

  function AfterSubmission(s: ServerView, data: seq<byte>, plan: nat -> nat, grants: nat -> bool): ServerView {
    var asked := s.asked + if Copies(s, data) then 1 else 0;
    if !Accepts(s, data, grants) then s.(asked := asked)
    else if data == [] then AfterLast(s, plan)
    else
      var k := Least(|SizeLine(|data|, [])|, plan(s.writes));
      s.(state := if s.state == WaitData then SendingData else SendingStaticData,
         t := s.t.Begin(data, k), sent := 0, writes := s.writes + 1, asked := asked)
  }

  /** A chunk in flight goes on until a write takes nothing or its line end is out. */
  predicate Resumed(s: ServerView, s': ServerView, plan: nat -> nat) {
    && s'.writes > s.writes && s'.asked == s.asked
    && var k := Least(2, plan(s'.writes - 1));
    if Sending(s'.state) then
      && k == 0 && s'.state == s.state && s'.t == s.t.(body := s'.t.body)
      && s'.events == s.events + Progress(s'.writes - s.writes - 1)
      && s.sent <= s'.sent && (plan(s.writes) > 0 ==> s.sent < s'.sent)
      && (s'.sent == s.sent ==> s'.writes == s.writes + 1)
    else
      && k > 0 && s'.state == WaitData && s'.sent == 0 && s.t.taken != []
      && s'.events == s.events + Progress(s'.writes - s.writes - 1) + [EvSent]
      && s'.t == s.t.(body := s'.t.body, taken := EndTaken(s.t.taken, k), lost := s.t.lost + 2 - k)
  }

  predicate Wrote(s: ServerView, s': ServerView, plan: nat -> nat) {
    if s.state == SendingFinal then s' == AfterLast(s, plan)
    else if Sending(s.state) then Resumed(s, s', plan)
    else s' == s
  }

  /** A read gives the next bytes of the body, and makes progress if it can. */
  predicate ReadBy(c: ClientView, size: nat, c': ClientView, reply: Reply) {
    && reply.Given? && |reply.bytes| <= size && c'.delivered == c.delivered + reply.bytes
    && reply.done == c'.done && c'.reading == (c.reading && !c'.done)
    && c.consumed <= c'.consumed && (!c.reading ==> c'.consumed == c.consumed)
    && (c.reading && size > 0 && c.arrived > 0 ==> |c'.consumed| > |c.consumed|)
  }

  /** What a move may make of one view, and what its maker is told. */
  ghost predicate Moved(v: View, move: Move, v': View, reply: Reply, plan: nat -> nat, grants: nat -> bool) {
    match move
    case Request(input, errorHeader) =>
      v' == v.(server := AfterRequest(v.server, input, errorHeader, plan)) && reply == Nothing
    case Response(code, text) =>
      v' == v.(server := v'.server) && Responded(v.server, code, text, v'.server, reply, plan, grants)
    case Submission(data) =>
      && v' == v.(server := AfterSubmission(v.server, data, plan, grants))
      && reply == Returned(if Accepts(v.server, data, grants) then RETURN_OK else RETURN_ERROR)
    case Writable => v' == v.(server := v'.server) && Wrote(v.server, v'.server, plan) && reply == Nothing
    case Transport(count) =>
      v' == v.(passed := Least(v.passed + count, |v.server.t.body|)) && reply == Nothing
    case Arrival =>
      && v' == v.(client := v.client.(arrived := v'.client.arrived)) && reply == Nothing
      && v.client.arrived <= v'.client.arrived
      && (|v.client.consumed| < v.passed ==> v'.client.arrived > 0)
    case Reading(size) => v' == v.(client := v'.client) && ReadBy(v.client, size, v'.client, reply)
  }

  /** What holds between any two moves: the wire has what the transcript says, and the client
      has made of the bytes it has read what the automaton makes of them. */
  ghost predicate Sound(v: View) {
    && v.server.t.Consistent(v.server.state, v.server.sent)
    && v.passed <= |v.server.t.body| && |v.client.consumed| + v.client.arrived <= v.passed
    && v.client.consumed <= v.server.t.body
    && v.client.delivered == Output(START, v.client.consumed)
    && v.client.done == Run(START, v.client.consumed).done
  }

  /** The promise of the whole protocol, for a response whose header went out whole and of
      which no size line was cut short, and no line end but the last. */
  ghost predicate Safe(v: View) {
    Unharmed(v.server.t) && (v.server.t.whole || BeforeBody(v.server.state)) ==>
      && v.client.delivered <= Payload(v.server.t.submitted)
      && (v.client.done ==> v.client.delivered == Payload(v.server.t.submitted) && v.server.state == Closed)
  }

  lemma SoundIsSafe(v: View)
    requires Sound(v)
    ensures Safe(v)
  {
    hide Run, Output, Payload, Transcript.Consistent, Unharmed;
    if Unharmed(v.server.t) {
      EndToEnd(v.server.t, v.server.state, v.server.sent, v.client.consumed);
    }
  }

  class Transfer {
    const server: Connection
    const client: HttpClient
    var bodyStart: nat     // where the response body begins on the server's wire
    var transmitted: nat   // how much of it the pipe has passed on

    ghost predicate Valid()
      reads this, server, server.sck, server.buffer, client, client.sck
    {
      && server.Valid() && client.Valid()
      && client.origin == START
      && bodyStart == |server.t.header|
      && transmitted <= |server.t.body|
      && client.sck.consumed + client.sck.pending == server.t.body[..transmitted]
      && (client.state.ConnIdle? ==> client.bodyReadDone)
    }

    ghost function ServerSide(): ServerView
      reads server, server.sck, server.mem
    {
      ServerView(server.state, server.t, if Sending(server.state) then server.bufferSent else 0,
                 server.sck.writes, server.mem.asked, server.events)
    }

    ghost function ClientSide(): ClientView
      reads client, client.sck
    {
      ClientView(client.sck.consumed, client.sck.arrived, !client.state.ConnIdle?,
                 client.delivered, client.bodyReadDone)
    }

    ghost function Now(): View
      reads this, server, server.sck, server.mem, client, client.sck
    {
      View(ServerSide(), transmitted, ClientSide())
    }

    lemma ValidIsSound()
      requires Valid()
      ensures Sound(Now())
    {
      hide Run, Output, Frames, WireFrames;
      var consumed := client.sck.consumed;
      assert consumed <= consumed + client.sck.pending <= server.t.body;
    }

    /** A new connection, with the client set to read the body of the response. */
    constructor (plan: nat -> nat, grants: nat -> bool)
      ensures Valid() && server.sck.plan == plan && server.mem.plan == grants && fresh(server.mem)
      ensures Now() == NEW && server.mem.refusals == 0
      ensures server.buffer == null
      ensures fresh(server) && fresh(server.sck) && fresh(client) && fresh(client.sck)
    {
      hide Transcript.Consistent, Connection.Valid, HttpClient.Valid, HttpClient.Tracks, Run, Output;
      var out := new OutSocket(plan);
      var inn := new InSocket();
      var mem := new Memory(grants);
      var s := new Connection(out, mem);
      var c := new HttpClient(inn);
      c.StartReadingBody();
      c.NothingRead();
      server, client, bodyStart, transmitted := s, c, 0, 0;
    }

    /** The pipe's bookkeeping survives a step of the server. */
    lemma ServerStep(body: seq<byte>, body': seq<byte>)
      requires body <= body'
      ensures forall n :: 0 <= n <= |body| ==> body[..n] == body'[..n]
    {
    }

    lemma HeaderIsWire()
      requires server.Valid() && server.t.body == []
      ensures |server.sck.wire| == |server.t.header|
    {
      hide Transcript.Consistent;
    }

    method TakeRequest(input: RequestInput, errorHeader: seq<byte>)
      requires Valid()
      modifies this`bodyStart, server`state, server`t, server`events, server.sck
      ensures Valid()
      ensures Moved(old(Now()), Request(input, errorHeader), Now(), Nothing, server.sck.plan, server.mem.plan)
    {
      hide Transcript.Consistent, Connection.Valid, HttpClient.Valid;
      var early := AwaitingRequest(server.state);
      server.ReadEvent(input, errorHeader);
      if early {
        HeaderIsWire();
        bodyStart := |server.sck.wire|;
      }
    }

    method Answer(code: nat, text: seq<byte>) returns (reply: Reply)
      requires Valid()
      modifies this`bodyStart, server`state, server`t, server.sck, server.mem
      ensures Valid() && Moved(old(Now()), Response(code, text), Now(), reply, server.sck.plan, server.mem.plan)
      ensures old(server.state) == WaitResponse ==>
                server.mem.refusals == old(server.mem.refusals) + if reply == Returned(RETURN_ERROR) then 1 else 0
    {
      hide Transcript.Consistent, Connection.Valid, HttpClient.Valid;
      var early := server.state == WaitResponse;
      var ret := server.Respond(code, text);
      if early {
        HeaderIsWire();
        bodyStart := |server.sck.wire|;
      }
      reply := Returned(ret);
    }

    method Submit(data: array?<byte>, length: nat) returns (reply: Reply)
      requires Valid()
      requires length < 0x1_0000 && (data != null ==> length <= data.Length)
      modifies server, server.sck, server.mem
      ensures Valid()
      ensures Moved(old(Now()), Submission(if data == null then [] else old(data[..length])), Now(), reply,
                    server.sck.plan, server.mem.plan)
      ensures server.buffer == null || server.buffer == old(server.buffer) || server.buffer == data
              || fresh(server.buffer)
    {
      hide Transcript.Consistent, HttpClient.Valid;
      ghost var bytes := if data == null then [] else data[..length];
      var ret := server.SubmitData(data, length);
      assert data != null ==> |bytes| == length;
      ServerStep(old(server.t).body, server.t.body);
      reply := Returned(ret);
    }

    method Resume()
      requires Valid()
      modifies server, server.sck
      ensures Valid() && Moved(old(Now()), Writable, Now(), Nothing, server.sck.plan, server.mem.plan)
      ensures server.buffer == null || server.buffer == old(server.buffer)
    {
      hide Transcript.Consistent, Connection.Valid, HttpClient.Valid;
      server.WriteEvent();
      ServerStep(old(server.t).body, server.t.body);
    }

    lemma Slice(header: seq<byte>, body: seq<byte>, from: nat, to: nat)
      requires from <= to <= |body|
      ensures (header + body)[|header| + from..|header| + to] == body[from..to]
      ensures body[..from] + body[from..to] == body[..to]
    {
    }

    /** The pipe passes on some more of what the server's socket has accepted. */
    method Transmit(count: nat)
      requires Valid()
      modifies this`transmitted, client.sck
      ensures Valid() && Moved(old(Now()), Transport(count), Now(), Nothing, server.sck.plan, server.mem.plan)
    {
      hide Run, Output, Transcript.Consistent;
      var wire := server.sck.wire;
      ghost var body := server.t.body;
      assert |wire| == bodyStart + |body|;
      var k := Least(transmitted + count, |wire| - bodyStart);
      var more := wire[bodyStart + transmitted..bodyStart + k];
      Slice(server.t.header, body, transmitted, k);
      assert client.sck.consumed + (client.sck.pending + more) == (client.sck.consumed + client.sck.pending) + more;
      client.sck.Deliver(more);
      transmitted := k;
    }

    method Arrive()
      requires Valid()
      modifies client.sck
      ensures Valid() && Moved(old(Now()), Arrival, Now(), Nothing, server.sck.plan, server.mem.plan)
    {
      hide Transcript.Consistent, Connection.Valid, HttpClient.Tracks;
      ghost var read, pending := client.sck.consumed, client.sck.pending;
      assert |read + pending| == transmitted;
      client.sck.ArriveSome();
    }

    method Read(into: array<byte>, size: nat) returns (reply: Reply)
      requires Valid() && size < 0x1_0000 && size <= into.Length && into != server.buffer
      modifies client, client.sck, into
      ensures Valid() && Moved(old(Now()), Reading(size), Now(), reply, server.sck.plan, server.mem.plan)
    {
      hide Transcript.Consistent, Connection.Valid, HttpClient.Tracks;
      var n, done, _ := client.ReadBody(into, size, false);
      reply := Given(into[..n], done);
    }

    /** Any move, with any arguments and buffers. */
    method Step(move: Move, data: array<byte>, into: array<byte>) returns (reply: Reply)
      requires Valid() && Fits(move) && into != server.buffer
      requires move.Submission? ==> data[..] == move.data
      requires move.Reading? ==> move.size <= into.Length
      modifies this, server, server.sck, server.mem, client, client.sck, into
      ensures Valid() && Moved(old(Now()), move, Now(), reply, server.sck.plan, server.mem.plan)
      ensures Sound(Now()) && Safe(Now())
      ensures server.buffer == null || server.buffer == old(server.buffer) || server.buffer == data
              || fresh(server.buffer)
    {
      hide Transfer.Valid, Transfer.Now, Moved, Sound, Safe;
      reply := Nothing;
      match move {
        case Request(input, errorHeader) => TakeRequest(input, errorHeader);
        case Response(code, text) => reply := Answer(code, text);
        case Submission(bytes) =>
          assert data[..data.Length] == data[..];
          reply := Submit(data, data.Length);
        case Writable => Resume();
        case Transport(count) => Transmit(count);
        case Arrival => Arrive();
        case Reading(size) => reply := Read(into, size);
      }
      ValidIsSound();
      SoundIsSafe(Now());
    }
  }

  /** The views of a run, from a new connection on, with one move between any two. */
  ghost predicate IsRun(log: seq<View>, moves: seq<Move>, replies: seq<Reply>, plan: nat -> nat, grants: nat -> bool) {
    && |log| == |moves| + 1 && |replies| == |moves| && log[0] == NEW
    && forall i :: 0 <= i < |moves| ==> Moved(log[i], moves[i], log[i + 1], replies[i], plan, grants)
  }

  /** The buffers whose submission was reported as a success. */
  function Accepted(moves: seq<Move>, replies: seq<Reply>): seq<Chunk>
    requires |moves| == |replies|
  {
    if moves == [] then []
    else
      var n := |moves| - 1;
      Accepted(moves[..n], replies[..n]) +
      if moves[n].Submission? && moves[n].data != [] && replies[n] == Returned(RETURN_OK)
      then [Chunk([], moves[n].data)] else []
  }

  /** What the client's user has been given. */
  function Received(replies: seq<Reply>): seq<byte> {
    if replies == [] then []
    else
      var n := |replies| - 1;
      Received(replies[..n]) + if replies[n].Given? then replies[n].bytes else []
  }

  lemma Submissions(s: ServerView, move: Move, v: View, v': View, reply: Reply, plan: nat -> nat, grants: nat -> bool)
    requires Moved(v, move, v', reply, plan, grants) && s == v'.server
    ensures s.t.submitted == v.server.t.submitted +
              if move.Submission? && move.data != [] && reply == Returned(RETURN_OK)
              then [Chunk([], move.data)] else []
    ensures v'.client.delivered == v.client.delivered + if reply.Given? then reply.bytes else []
  {
    hide SizeLine, LastChunk;
  }

  /** What the two users can tell of a run is what the transcripts say. */
  lemma {:induction false} Traffic(log: seq<View>, moves: seq<Move>, replies: seq<Reply>,
                                   plan: nat -> nat, grants: nat -> bool)
    requires IsRun(log, moves, replies, plan, grants)
    ensures log[|moves|].server.t.submitted == Accepted(moves, replies)
    ensures log[|moves|].client.delivered == Received(replies)
    decreases |moves|
  {
    hide Moved;
    if moves != [] {
      var n := |moves| - 1;
      Traffic(log[..n + 1], moves[..n], replies[..n], plan, grants);
      Submissions(log[n + 1].server, moves[n], log[n], log[n + 1], replies[n], plan, grants);
    }
  }

  /** What the users were promised: the bytes received are a beginning of the bytes accepted,
      and all of them if the last reply says that the body has ended. */
  ghost predicate Kept(moves: seq<Move>, replies: seq<Reply>, s: ServerView)
    requires |moves| == |replies|
  {
    Unharmed(s.t) && (s.t.whole || BeforeBody(s.state)) ==>
      && Received(replies) <= Payload(Accepted(moves, replies))
      && (replies != [] && replies[|replies| - 1].Given? && replies[|replies| - 1].done ==>
            Received(replies) == Payload(Accepted(moves, replies)) && s.state == Closed)
  }

  lemma RunKept(log: seq<View>, moves: seq<Move>, replies: seq<Reply>, plan: nat -> nat, grants: nat -> bool)
    requires IsRun(log, moves, replies, plan, grants) && Safe(log[|moves|])
    ensures Kept(moves, replies, log[|moves|].server)
  {
    hide Unharmed, Payload, Accepted, Received, AfterRequest, AfterSubmission, Wrote;
    Traffic(log, moves, replies, plan, grants);
    if moves != [] {
      var n := |moves| - 1;
      assert Moved(log[n], moves[n], log[n + 1], replies[n], plan, grants);
    }
  }

  lemma AnotherMove(log: seq<View>, moves: seq<Move>, replies: seq<Reply>, v: View, move: Move, reply: Reply,
                plan: nat -> nat, grants: nat -> bool)
    requires IsRun(log, moves, replies, plan, grants) && Moved(log[|moves|], move, v, reply, plan, grants)
    ensures IsRun(log + [v], moves + [move], replies + [reply], plan, grants)
  {
    hide Moved;
  }

  /** A new array of these bytes. */
  method Allocate(bytes: seq<byte>) returns (data: array<byte>)
    ensures fresh(data) && data[..] == bytes
  {
    data := new byte[|bytes|];
    forall i | 0 <= i < |bytes| {
      data[i] := bytes[i];
    }
  }

  /**
   * Any moves of anyone, over a socket that takes whatever it likes and with memory that fails
   * whenever it likes: every step is one that its move allows, and after each of them the
   * users' promise is kept.
   */
  method AnyRun(moves: seq<Move>, plan: nat -> nat, grants: nat -> bool)
    returns (transfer: Transfer, replies: seq<Reply>, ghost log: seq<View>)
    requires forall i :: 0 <= i < |moves| ==> Fits(moves[i])
    ensures transfer.Valid() && IsRun(log, moves, replies, plan, grants) && log[|moves|] == transfer.Now()
    ensures forall i :: 0 <= i <= |moves| ==> Sound(log[i]) && Safe(log[i])
    ensures forall i :: 0 <= i <= |moves| ==> Kept(moves[..i], replies[..i], log[i].server)
  {
    hide Transfer.Valid, Transfer.Now, Moved, Sound, Safe, Kept;
    transfer := new Transfer(plan, grants);
    transfer.ValidIsSound();
    SoundIsSafe(NEW);
    replies, log := [], [NEW];
    RunKept(log, [], [], plan, grants);
    for i := 0 to |moves|
      invariant transfer.Valid() && IsRun(log, moves[..i], replies, plan, grants) && log[i] == transfer.Now()
      invariant forall k :: 0 <= k <= i ==> Sound(log[k]) && Safe(log[k])
      invariant forall k :: 0 <= k <= i ==> Kept(moves[..k], replies[..k], log[k].server)
      invariant fresh(transfer) && fresh(transfer.server) && fresh(transfer.server.sck)
      invariant fresh(transfer.server.mem)
      invariant transfer.server.sck.plan == plan && transfer.server.mem.plan == grants
      invariant fresh(transfer.client) && fresh(transfer.client.sck)
      invariant transfer.server.buffer == null || fresh(transfer.server.buffer)
    {
      var data := Allocate(if moves[i].Submission? then moves[i].data else []);
      var into := new byte[if moves[i].Reading? then moves[i].size else 0];
      var reply := transfer.Step(moves[i], data, into);
      AnotherMove(log, moves[..i], replies, transfer.Now(), moves[i], reply, plan, grants);
      ghost var before := replies;
      log, replies := log + [transfer.Now()], replies + [reply];
      assert forall k :: 0 <= k <= i ==> replies[..k] == before[..k];
      assert moves[..i + 1] == moves[..i] + [moves[i]];
      RunKept(log, moves[..i + 1], replies, plan, grants);
      assert replies[..i + 1] == replies;
    }
    assert moves[..|moves|] == moves;
  }

  // ----- reading to the end -----

  lemma SeenAtEnd(client: HttpClient, chunks: seq<HexChunk>, zeros: nat, e: seq<byte>, rest: seq<byte>)
    requires client.Valid() && client.origin == START
    requires forall i :: 0 <= i < |chunks| ==> chunks[i].data != [] && ChunkRight(chunks[i])
    requires zeros > 0 && IsLineTail(e)
    requires client.sck.consumed + client.sck.pending == HexFrames(chunks) + LastLine(zeros, e) + rest
    ensures client.sck.pending == [] ==> client.bodyReadDone
  {
    hide Run, Output, ChunkRight, HexFrames, LastLine;
    DoneAtEnd(chunks, zeros, e, rest);
    if client.sck.pending == [] {
      assert client.sck.consumed == client.sck.consumed + client.sck.pending;
    }
  }

  lemma GivenAtEnd(client: HttpClient, chunks: seq<HexChunk>, zeros: nat, e: seq<byte>, rest: seq<byte>, seen: bool)
    requires client.Valid() && client.origin == START && client.bodyReadDone
    requires forall i :: 0 <= i < |chunks| ==> chunks[i].data != [] && ChunkRight(chunks[i])
    requires zeros > 0 && IsLineTail(e)
    requires client.sck.consumed + client.sck.pending == HexFrames(chunks) + LastLine(zeros, e) + rest
    requires if seen then rest == CRLF
             else EndSeen(START, client.sck.consumed, client.endFrom, client.endTo, client.delivered)
    ensures client.delivered == HexPayload(chunks)
  {
    hide Run, Output, ChunkRight, HexFrames, LastLine, HexPayload, EndSeen;
    var s := client.sck.consumed;
    assert s <= s + client.sck.pending;
    if seen {
      PayloadWhenDone(chunks, zeros, e, s);
    } else {
      PayloadAtEnd(chunks, zeros, e, s, rest, client.endFrom, client.endTo, client.delivered);
    }
  }

  /**
   * The loop a user of the client runs, over any chunks that the reader takes for what they
   * are, with anything after the last chunk's line. If before every call at least one more
   * byte has arrived, unless all of it has been read, it ends after at most as many calls as
   * there were bytes and one, and the user then has the payload. Only when the end was seen
   * before the first call must there be no trailer.
   */
  method ReadToEnd(client: HttpClient, size: nat, ghost chunks: seq<HexChunk>, ghost zeros: nat,
                   ghost e: seq<byte>, ghost rest: seq<byte>)
    returns (result: seq<byte>, calls: nat)
    requires client.Valid() && client.origin == START && !client.state.ConnIdle?
    requires 0 < size < 0x1_0000
    requires forall i :: 0 <= i < |chunks| ==> chunks[i].data != [] && ChunkRight(chunks[i])
    requires zeros > 0 && IsLineTail(e)
    requires client.sck.consumed + client.sck.pending == HexFrames(chunks) + LastLine(zeros, e) + rest
    requires client.bodyReadDone ==> rest == CRLF
    modifies client, client.sck
    ensures client.Valid() && client.origin == START && client.bodyReadDone
    ensures client.delivered == old(client.delivered) + result == HexPayload(chunks)
    ensures client.sck.consumed + client.sck.pending == old(client.sck.consumed + client.sck.pending)
    ensures calls <= |old(client.sck.pending)| + 1
  {
    hide Run, Output, HexPayload, HexFrames, LastLine, ChunkRight, EndSeen, HttpClient.Tracks;
    var data := new byte[size];
    var done := false;
    result, calls := [], 0;
    ghost var all := client.sck.consumed + client.sck.pending;
    while !done
      invariant client.Valid() && client.origin == START
      invariant client.sck.consumed + client.sck.pending == all
      invariant done ==> client.bodyReadDone && client.delivered == HexPayload(chunks)
      invariant !done ==> !client.state.ConnIdle? && (client.bodyReadDone ==> rest == CRLF)
      invariant client.delivered == old(client.delivered) + result
      invariant calls + |client.sck.pending| <= |old(client.sck.pending)| + if done then 1 else 0
      decreases !done, |client.sck.pending|
    {
      ghost var seen := client.bodyReadDone;
      SeenAtEnd(client, chunks, zeros, e, rest);
      client.sck.ArriveSome();
      var n: nat;
      ghost var lineTo: nat;
      n, done, lineTo := client.ReadBody(data, size, done);
      result, calls := result + data[..n], calls + 1;
      if done {
        GivenAtEnd(client, chunks, zeros, e, rest, seen);
      }
    }
  }

  /** Two header lines: "a: 1" and "b: 2". */
  const TRAILER: seq<byte> := [97, 58, 32, 49, 13, 10, 98, 58, 32, 50, 13, 10]

  /** A body of no chunks, and the trailer. */
  const EMPTY_WITH_TRAILER: seq<byte> := [48, 13, 10] + TRAILER + CRLF

  /** What the reader makes of its first line, byte by byte. */
  lemma RunOnZero()
    ensures var s := EMPTY_WITH_TRAILER;
      && LineEndsAt(START, s, 3) && Run(START, s[..3]) == Decoder(ChunkValue, 0, true) && Output(START, s[..3]) == []
      && s[..3] == LastLine(1, [CR])
  {
    hide Run, Output;
    var s := EMPTY_WITH_TRAILER;
    assert s[..0] == [] && ZeroDigits(1) == [ZERO];
    RunEmpty(START);
    RunNextByte(START, s, 0);
    RunNextByte(START, s, 1);
    RunNextByte(START, s, 2);
  }

  /** And of the next one: a size of 0xa1. */
  lemma RunOnTrailer()
    ensures var s := EMPTY_WITH_TRAILER;
      LineEndsAt(START, s, 9) && Run(START, s[..9]).left == 161 && Output(START, s[..10]) == [98]
  {
    hide Run, Output;
    var s := EMPTY_WITH_TRAILER;
    RunOnZero();
    RunNextByte(START, s, 3);
    RunNextByte(START, s, 4);
    RunNextByte(START, s, 5);
    RunNextByte(START, s, 6);
    assert Run(START, s[..7]) == Decoder(ChunkValue, 161, true) && Output(START, s[..7]) == [];
    RunNextByte(START, s, 7);
    RunNextByte(START, s, 8);
    RunNextByte(START, s, 9);
  }

  /** A reader that stops at line ends only, from one of them on, stops at the next one. */
  lemma StopsAtNext(s: seq<byte>, all: seq<byte>, from: nat, to: nat, next: nat)
    requires s <= all && from < next < |all| && LineEndsAt(START, all, next)
    requires forall k :: from <= k < next - 1 ==> all[k] != LF
    requires from <= to <= |s| && WithinLine(START, s, from, to)
    requires to < |all| ==> from < to && LineEndsAt(START, s, to)
    ensures to == next
  {
    hide Run;
    if next < to {
      LineEndsGrows(START, s, all, next);
    }
  }

  lemma ZeroTaken(client: HttpClient)
    requires client.Valid() && client.origin == START && !client.state.ConnIdle?
    requires client.sck.consumed + client.sck.pending == EMPTY_WITH_TRAILER
    requires var s := client.sck.consumed;
      WithinLine(START, s, 0, |s|) && (client.sck.pending != [] ==> s != [] && LineEndsAt(START, s, |s|))
    ensures client.sck.consumed == LastLine(1, [CR]) && client.sck.pending == TRAILER + CRLF
    ensures client.bodyReadDone && client.contentLengthOrChunk == 0
  {
    hide Run, Output, HttpClient.Tracks, LastLine, WithinLine, LineEndsAt;
    var s, all := client.sck.consumed, EMPTY_WITH_TRAILER;
    RunOnZero();
    assert s <= s + client.sck.pending;
    StopsAtNext(s, all, 0, |s|, 3);
    assert s == all[..3] && client.sck.pending == all[3..];
    client.Tracking();
  }

  /** The whole response is here, and start_reading_body reads the first line. */
  method EmptyBodyBegun() returns (client: HttpClient)
    ensures fresh(client) && fresh(client.sck) && client.Valid() && client.origin == START
    ensures client.sck.AllHere() && client.ReadsLine() && client.bodyReadDone && client.delivered == []
    ensures client.sck.consumed == LastLine(1, [CR]) && client.sck.pending == TRAILER + CRLF
  {
    hide Run, Output, HttpClient.Tracks, LastLine, WithinLine, LineEndsAt;
    var inn := new InSocket();
    var text := [48, 13, 10] + TRAILER + CRLF;
    inn.Deliver(text);
    assert [] + text == text;
    inn.arrived := |text|;
    client := new HttpClient(inn);
    client.StartReadingBody();
    ZeroTaken(client);
  }

  lemma TrailerTaken(client: HttpClient, lineTo: nat)
    requires client.Valid() && client.origin == START && client.LineFirst(3, lineTo, true, 10)
    requires client.sck.consumed + client.sck.pending == EMPTY_WITH_TRAILER
    ensures client.delivered != []
  {
    hide Run, Output, HttpClient.Tracks, WithinLine, LineEndsAt;
    var s, all := client.sck.consumed, EMPTY_WITH_TRAILER;
    RunOnZero();
    RunOnTrailer();
    assert s <= s + client.sck.pending;
    StopsAtNext(s, all, 3, lineTo, 9);
    assert s[..9] == all[..9] && all[..10] <= s;
    RunMonotone(START, all[..10], s);
    client.Tracking();
  }

  /**
   * The proviso of `ReadToEnd`: if the last chunk's line of an empty body is read before the
   * first call, that call takes a line of the trailer for a size, and what follows for data.
   */
  method TrailerGivenOut() returns (client: HttpClient, given: seq<byte>)
    ensures client.Valid() && client.origin == START && client.bodyReadDone && given == client.delivered
    ensures client.sck.consumed + client.sck.pending == HexFrames([]) + LastLine(1, [CR]) + (TRAILER + CRLF)
    ensures given != HexPayload([])
  {
    hide Run, Output, HttpClient.Tracks, LastLine, WithinLine, LineEndsAt;
    ghost var all := EMPTY_WITH_TRAILER;
    RunOnZero();
    RunOnTrailer();
    client := EmptyBodyBegun();
    var data := new byte[10];
    assert client.sck.consumed + client.sck.pending == all;
    var n, done, lineTo := client.ReadBody(data, 10, false);
    given := data[..n];
    TrailerTaken(client, lineTo);
    assert [] + given == given;
  }

  // ----- a whole response and its reader -----

  /** The server's body in the terms of the reader's. */
  lemma ServerBody(chunks: seq<Chunk>)
    requires WellFormed(chunks)
    ensures Body(chunks, []) == HexFrames(AsHex(chunks)) + LastLine(1, [CR]) + CRLF
  {
    hide HexFrames, Frames;
    ServerForm(chunks);
    assert ZeroDigits(1) == [ZERO] && LastLine(1, [CR]) == [ZERO, CR, LF];
    LastChunkText();
    assert LastChunk([]) == LastLine(1, [CR]) + CRLF;
  }

  /** The server is done and all of the body has been passed on. */
  ghost predicate SentOn(t: Transfer)
    reads t, t.server
  {
    && t.server.state == Closed && t.server.t.finished && t.server.t.last > 0
    && t.transmitted == |t.server.t.body|
  }

  /** And nothing was cut short. */
  ghost predicate AllPassed(t: Transfer)
    reads t, t.server
  {
    SentOn(t) && t.server.t.last >= 5 && t.server.t.FramesWhole(Closed)
  }

  lemma AllOnPipe(t: Transfer)
    requires t.Valid() && AllPassed(t)
    ensures WellFormed(t.server.t.submitted)
    ensures t.client.sck.consumed + t.client.sck.pending == Body(t.server.t.submitted, [])
  {
    hide Run, Output, Frames, WireFrames, HttpClient.Tracks, Transcript.FramesWhole;
    t.server.t.WireExact(Closed, t.server.bufferSent);
    assert t.server.t.body[..t.transmitted] == t.server.t.body;
  }

  lemma IdleHasAll(t: Transfer)
    requires t.Valid() && AllPassed(t) && t.client.state.ConnIdle?
    ensures t.client.bodyReadDone && t.client.delivered == Payload(t.server.t.submitted)
  {
    hide Run, Output, Payload, Transcript.Consistent, Transcript.FramesWhole;
    var consumed := t.client.sck.consumed;
    assert consumed <= consumed + t.client.sck.pending <= t.server.t.body;
    WholeIsUnharmed(t.server.t, Closed);
    EndToEnd(t.server.t, Closed, t.server.bufferSent, consumed);
  }

  /**
   * Wherever the client's user has come to by then, reading until the end leaves it with
   * exactly the bytes that the server's user submitted.
   */
  method Drain(transfer: Transfer, size: nat) returns (result: seq<byte>, calls: nat)
    requires transfer.Valid() && AllPassed(transfer) && 0 < size < 0x1_0000
    modifies transfer.client, transfer.client.sck
    ensures transfer.Valid() && transfer.client.bodyReadDone
    ensures transfer.client.delivered == old(transfer.client.delivered) + result
    ensures transfer.client.delivered == Payload(transfer.server.t.submitted)
    ensures calls <= |old(transfer.client.sck.pending)| + 1
  {
    hide Run, Output, Payload, HexFrames, LastLine, HexPayload, ChunkRight, AsHex;
    hide Transcript.Consistent, Transcript.FramesWhole, Connection.Valid, HttpClient.Valid, HttpClient.Tracks;
    result, calls := [], 0;
    assert transfer.client.delivered + [] == transfer.client.delivered;
    if transfer.client.state == ConnIdle {
      IdleHasAll(transfer);
      return;
    }
    ghost var submitted := transfer.server.t.submitted;
    AllOnPipe(transfer);
    ServerBody(submitted);
    ServerForm(submitted);
    result, calls := ReadToEnd(transfer.client, size, AsHex(submitted), 1, [CR], CRLF);
  }

  /** A new transfer, with the request answered if there is memory. */
  method StartTransfer(text: seq<byte>, plan: nat -> nat, grants: nat -> bool) returns (ok: bool, transfer: Transfer)
    requires plan(0) >= |text|
    ensures fresh(transfer) && fresh(transfer.server) && fresh(transfer.server.sck) && fresh(transfer.server.mem)
    ensures fresh(transfer.client) && fresh(transfer.client.sck)
    ensures transfer.Valid() && transfer.server.mem.plan == grants && transfer.server.sck.plan == plan
    ensures transfer.client.delivered == [] && !transfer.client.state.ConnIdle?
    ensures ok <==> transfer.server.mem.refusals == 0
    ensures ok ==>
              && transfer.server.state == WaitData && transfer.server.sck.writes == 1
              && transfer.server.t == Transcript(text, true, [], [], [], false, 0, 0) && transfer.transmitted == 0
  {
    hide Transcript.Consistent, Transfer.Valid, HttpClient.Valid, HttpClient.Tracks, Run, Output;
    transfer := new Transfer(plan, grants);
    transfer.TakeRequest(Complete, []);
    assert HasBit(2, RESOURCE_FOUND) && !HasBit(2, STATIC_RESOURCE);
    var reply := transfer.Answer(2, text);
    ok := reply != Returned(RETURN_ERROR);
    assert [] + text[..|text|] == text;
  }

  /** All the buffers are sent, and passed on. */
  method SendRest(transfer: Transfer, buffers: seq<array<byte>>) returns (ok: bool)
    requires transfer.Valid() && transfer.server.state == WaitData && Lively(transfer.server.sck.plan)
    requires forall i :: 0 <= i < |buffers| ==> 0 < buffers[i].Length < 0x1_0000
    modifies transfer, transfer.server, transfer.server.sck, transfer.server.mem, transfer.client.sck
    ensures transfer.Valid() && (ok <==> transfer.server.mem.refusals == old(transfer.server.mem.refusals))
    ensures ok ==>
              && SentOn(transfer) && KeptHeader(transfer.server)
              && transfer.server.t.submitted == old(transfer.server.t).submitted + Chunks(buffers)
              && |transfer.server.t.taken| == |transfer.server.t.submitted|
              && old(transfer.server.t).taken <= transfer.server.t.taken
    ensures ok && AllOrNothing(old(transfer.server.sck.writes), transfer.server.sck.plan, 10) ==>
              EndsWhole(transfer.server.t.taken, |old(transfer.server.t).taken|) && transfer.server.t.last == 5
    ensures ok && TakesAtLeast(old(transfer.server.sck.writes), transfer.server.sck.plan, 10) ==>
              transfer.server.t.lost == old(transfer.server.t).lost
    ensures transfer.client.delivered == old(transfer.client.delivered)
    ensures transfer.client.state == old(transfer.client.state)
  {
    hide Transcript.Consistent, Transcript.FramesWhole, HttpClient.Valid, HttpClient.Tracks, Run, Output, Lively;
    ok := ServeAll(transfer.server, buffers);
    transfer.ServerStep(old(transfer.server.t).body, transfer.server.t.body);
    if ok {
      transfer.Transmit(|transfer.server.sck.wire|);
    }
  }

  /** Calls until one reports the end, or there is nothing more to read. */
  method ReadAll(transfer: Transfer, size: nat) returns (result: seq<byte>)
    requires transfer.Valid() && !transfer.client.state.ConnIdle? && 0 < size < 0x1_0000
    modifies transfer.client, transfer.client.sck
    ensures transfer.Valid() && transfer.client.delivered == old(transfer.client.delivered) + result
    ensures transfer.client.bodyReadDone || transfer.client.sck.pending == []
  {
    hide Run, Output, EndSeen, HttpClient.Tracks, Connection.Valid;
    var client := transfer.client;
    var data := new byte[size];
    var done := false;
    result := [];
    while !done && client.sck.pending != []
      invariant transfer.Valid() && client.delivered == old(client.delivered) + result
      invariant if done then client.bodyReadDone else !client.state.ConnIdle?
      decreases !done, |client.sck.pending|
    {
      client.sck.ArriveSome();
      var n: nat;
      ghost var lineTo: nat;
      n, done, lineTo := client.ReadBody(data, size, done);
      result := result + data[..n];
    }
  }

  /** All of it is then there, and the end is reported unless the last line end was cut. */
  lemma HasAll(t: Transfer)
    requires t.Valid() && SentOn(t) && Unharmed(t.server.t)
    requires t.client.bodyReadDone || t.client.sck.pending == []
    ensures t.client.delivered == Payload(t.server.t.submitted)
    ensures t.client.bodyReadDone <==> LastEndWhole(t.server.t.taken)
  {
    hide Run, Output, Payload, Frames, WireFrames, AllHarmless;
    var consumed, w := t.client.sck.consumed, t.server.t;
    assert consumed <= consumed + t.client.sck.pending <= w.body;
    ServerCuts(w, Closed, t.server.bufferSent);
    HarmlessIsRight(w.submitted, w.taken, w.last);
    RunMonotone(START, consumed, w.body);
    if t.client.sck.pending == [] {
      assert consumed == w.body;
    }
  }

  /** If no control byte was lost, nothing was cut short. */
  lemma NothingLost(t: Transfer)
    requires t.Valid() && SentOn(t) && t.server.t.lost == 0
    ensures Unharmed(t.server.t) && LastEndWhole(t.server.t.taken)
  {
    hide Run, Output, Frames, WireFrames, HttpClient.Tracks, Transcript.FramesWhole, AllHarmless;
    t.server.t.WireExact(Closed, t.server.bufferSent);
    WholeIsUnharmed(t.server.t, Closed);
  }

  /** If no line end was, size lines are all that can do harm. */
  lemma LinesLeft(chunks: seq<Chunk>, taken: seq<Taken>)
    requires |chunks| == |taken| && EndsWhole(taken, 0)
    ensures LastEndWhole(taken)
    ensures AllHarmless(chunks, taken) <==> forall i :: 0 <= i < |chunks| ==> LineWhole(chunks[i], taken[i])
  {
    hide LineWhole;
    if AllHarmless(chunks, taken) {
      forall i | 0 <= i < |chunks| ensures LineWhole(chunks[i], taken[i]) {
        assert Harmless(chunks, taken, i);
      }
    }
  }

  /**
   * A whole response. Unless memory is refused, a server whose socket does not stop taking bytes
   * for good sends all of the buffers and closes. If the cuts of its control writes do no harm, a
   * user of the client that reads until the end, or until there is nothing more, has exactly the
   * bytes of the buffers, in order, and has been told of the end unless the last line end was
   * cut. If every write that takes anything takes ten bytes, only a size line can do harm, and
   * if every write does, nothing can.
   */
  method WholeResponse(text: seq<byte>, buffers: seq<array<byte>>, plan: nat -> nat, grants: nat -> bool, size: nat)
    returns (ok: bool, transfer: Transfer, result: seq<byte>)
    requires forall i :: 0 <= i < |buffers| ==> 0 < buffers[i].Length < 0x1_0000
    requires 0 < size < 0x1_0000 && plan(0) >= |text| && Lively(plan)
    ensures transfer.server.mem.plan == grants && transfer.server.sck.plan == plan
    ensures ok <==> transfer.server.mem.refusals == 0
    ensures ok ==>
              var t := transfer.server.t;
              && transfer.server.state == Closed && t.finished && t.header == text
              && t.submitted == Chunks(buffers) && |t.taken| == |buffers|
              && (Unharmed(t) ==>
                    result == Payload(Chunks(buffers)) && (transfer.client.bodyReadDone <==> LastEndWhole(t.taken)))
              && (AllOrNothing(1, plan, 10) ==>
                    && LastEndWhole(t.taken)
                    && (Unharmed(t) <==>
                          forall i :: 0 <= i < |buffers| ==> LineWhole(t.submitted[i], t.taken[i])))
              && (TakesAtLeast(1, plan, 10) ==> Unharmed(t) && LastEndWhole(t.taken))
  {
    hide Payload, Transfer.Valid, AllHarmless, LastEndWhole, LineWhole, Lively;
    result := [];
    ok, transfer := StartTransfer(text, plan, grants);
    if !ok {
      return;
    }
    ok := SendRest(transfer, buffers);
    if ok {
      ghost var t := transfer.server.t;
      assert [] + Chunks(buffers) == Chunks(buffers);
      if t.lost == 0 {
        NothingLost(transfer);
      }
      if EndsWhole(t.taken, 0) {
        LinesLeft(t.submitted, t.taken);
      }
      result := ReadAll(transfer, size);
      assert [] + result == result;
      if Unharmed(t) {
        HasAll(transfer);
      }
    }
  }
}
