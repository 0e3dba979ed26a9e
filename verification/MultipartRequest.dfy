/**
 * How libhttp/pico_http_client.c builds the parts of a multipart POST in a buffer of fixed
 * size, and what is sent, also when memory runs out half-way.
 */
module MultipartRequest {
  import opened Bytes
  import opened Heap
  import opened HttpUtil
  import opened Multipart
  import opened RequestSender
  import opened Sockets
  import opened Wrappers

  // ----- the buffer -----

  /** A zero-terminated string in a block of fixed size. */
  class StringBuffer {
    const block: array<byte>
    var length: nat

    ghost predicate Valid()
      reads this, block
    {
      length < block.Length && block[length] == 0
    }

    ghost function Contents(): seq<byte>
      requires Valid()
      reads this, block
    {
      block[..length]
    }

    /** PICO_ZALLOC */
    constructor (size: nat)
      requires size > 0
      ensures Valid() && fresh(block) && block.Length == size && Contents() == []
    {
      block := new byte[size](_ => 0);
      length := 0;
    }

    /** strcat; the caller must know that the result fits. */
    method Cat(s: seq<byte>)
      requires Valid() && length + |s| < block.Length
      modifies this, block
      ensures Valid() && Contents() == old(Contents()) + s
    {
      forall i | 0 <= i < |s| {
        block[length + i] := s[i];
      }
      length := length + |s|;
      block[length] := 0;
    }

    /** strcpy */
    method Copy(s: seq<byte>)
      requires |s| < block.Length
      modifies this, block
      ensures Valid() && Contents() == s
    {
      length := 0;
      block[0] := 0;
      Cat(s);
    }
  }

  function HeaderStrings(c: MultipartChunk): nat {
    c.lengthContentDisposition + c.lengthName + c.lengthFilename + c.lengthContentType
  }

  /** The greatest sum of header string lengths. */
  function MaxStrings(chunks: seq<MultipartChunk>): (max: nat)
    ensures forall i :: 0 <= i < |chunks| ==> HeaderStrings(chunks[i]) <= max
    ensures max == 0 || exists i :: 0 <= i < |chunks| && HeaderStrings(chunks[i]) == max
  {
    if chunks == [] then 0
    else
      var front, len := MaxStrings(chunks[..|chunks| - 1]), HeaderStrings(chunks[|chunks| - 1]);
      if front < len then len else front
  }

  /** get_max_multipart_header_size */
  method GetMaxMultipartHeaderSize(chunks: seq<MultipartChunk>) returns (max: nat)
    ensures max == MaxStrings(chunks)
  {
    max := 0;
    for i := 0 to |chunks|
      invariant max == MaxStrings(chunks[..i])
    {
      assert chunks[..i + 1][..i] == chunks[..i];
      var len := HeaderStrings(chunks[i]);
      if max < len {
        max := len;
      }
    }
    assert chunks[..|chunks|] == chunks;
  }

  const BASIC_SIZE := 80

  function BufferSize(chunks: seq<MultipartChunk>, boundary: seq<byte>): nat {
    BASIC_SIZE + MaxStrings(chunks) + |boundary|
  }

  predicate AnyData(chunks: seq<MultipartChunk>) {
    exists i :: 0 <= i < |chunks| && chunks[i].data.Some?
  }

  /** A line end is pending in the buffer once a chunk has been sent. */
  function Pending(chunks: seq<MultipartChunk>): nat {
    if AnyData(chunks) then 2 else 0
  }

  /** The buffer takes what is pending, the header of chunk i, and the final zero. */
  predicate ChunkFits(chunks: seq<MultipartChunk>, boundary: seq<byte>, i: nat)
    requires i < |chunks|
  {
    chunks[i].data.Some? ==> Pending(chunks[..i]) + |Header(chunks[i], boundary)| < BufferSize(chunks, boundary)
  }

  /** The buffer is large enough for every header. */
  predicate BufferFits(chunks: seq<MultipartChunk>, boundary: seq<byte>) {
    forall i :: 0 <= i < |chunks| ==> ChunkFits(chunks, boundary, i)
  }

  /** The length fields of a chunk are those of its strings. */
  predicate LengthsMatch(c: MultipartChunk) {
    Created(c) && Short(c.name) && Short(c.filename) && Short(c.contentDisposition) && Short(c.contentType)
  }

  lemma HeaderLength(c: MultipartChunk, boundary: seq<byte>)
    requires LengthsMatch(c)
    ensures |Header(c, boundary)| <= 67 + HeaderStrings(c) + |boundary|
  {
  }

  /** Where every string is below 65536 bytes the buffer suffices. */
  lemma ShortFits(chunks: seq<MultipartChunk>, boundary: seq<byte>)
    requires forall i :: 0 <= i < |chunks| ==> LengthsMatch(chunks[i])
    ensures BufferFits(chunks, boundary)
  {
    hide Header, HeaderStrings, MaxStrings, AnyData;
    forall i | 0 <= i < |chunks| ensures ChunkFits(chunks, boundary, i) {
      HeaderLength(chunks[i], boundary);
    }
  }

  /** With a string of 65536 letters it does not. */
  lemma LongString(boundary: seq<byte>) returns (c: MultipartChunk)
    ensures Created(c) && !BufferFits([c], boundary)
  {
    c := CreateChunk([0], None, None, None, Some(seq(NAME_LIMIT, _ => 97))).value;
    assert HeaderStrings(c) == 0;
    assert |Header(c, boundary)| >= NAME_LIMIT + |boundary|;
    assert !ChunkFits([c], boundary, 0);
  }

  method AppendQuoted(buf: StringBuffer, lead: string, s: Option<seq<byte>>)
    requires buf.Valid() && buf.length + |Quoted(lead, s)| < buf.block.Length
    modifies buf, buf.block
    ensures buf.Valid() && buf.Contents() == old(buf.Contents()) + Quoted(lead, s)
  {
    hide Ascii;
    if s.Some? {
      ghost var start := buf.Contents();
      buf.Cat(Ascii(lead));
      buf.Cat(s.value);
      buf.Cat(Ascii("\""));
      Regroup(start, Ascii(lead), s.value, Ascii("\""), [], [], []);
    }
  }

  lemma DispositionParts(c: MultipartChunk)
    ensures c.contentDisposition.None? ==> Disposition(c) == []
    ensures c.contentDisposition.Some? ==>
              Disposition(c) == Ascii("Content-Disposition: ") + c.contentDisposition.value
                                + Quoted("; name=\"", c.name) + Quoted("; filename=\"", c.filename)
  {
  }

  method AppendDisposition(buf: StringBuffer, c: MultipartChunk)
    requires buf.Valid() && buf.length + |Disposition(c)| < buf.block.Length
    modifies buf, buf.block
    ensures buf.Valid() && buf.Contents() == old(buf.Contents()) + Disposition(c)
  {
    hide Ascii, Quoted;
    DispositionParts(c);
    hide Disposition;
    if c.contentDisposition.Some? {
      ghost var start := buf.Contents();
      var d := c.contentDisposition.value;
      buf.Cat(Ascii("Content-Disposition: "));
      buf.Cat(d);
      ghost var name, filename := Quoted("; name=\"", c.name), Quoted("; filename=\"", c.filename);
      AppendQuoted(buf, "; name=\"", c.name);
      AppendQuoted(buf, "; filename=\"", c.filename);
      assert buf.Contents() == start + Ascii("Content-Disposition: ") + d + name + filename;
      Regroup(start, Ascii("Content-Disposition: "), d, name, filename, [], []);
    }
  }

  method AppendTypeLine(buf: StringBuffer, c: MultipartChunk)
    requires buf.Valid() && buf.length + |TypeLine(c)| < buf.block.Length
    modifies buf, buf.block
    ensures buf.Valid() && buf.Contents() == old(buf.Contents()) + TypeLine(c)
  {
    hide Ascii;
    if c.contentType.Some? {
      ghost var start := buf.Contents();
      buf.Cat(Ascii("\r\n"));
      buf.Cat(Ascii("Content-type: "));
      buf.Cat(c.contentType.value);
      Regroup(start, Ascii("\r\n"), Ascii("Content-type: "), c.contentType.value, [], [], []);
    }
  }

  method AppendHeader(buf: StringBuffer, c: MultipartChunk, boundary: seq<byte>, first: bool)
    requires buf.Valid() && buf.length + |Header(c, boundary)| < buf.block.Length
    requires first ==> buf.length == 0
    modifies buf, buf.block
    ensures buf.Valid() && buf.Contents() == old(buf.Contents()) + Header(c, boundary)
  {
    ghost var start := buf.Contents();
    assert |Header(c, boundary)| == 8 + |boundary| + |Disposition(c)| + |TypeLine(c)|;
    hide Ascii, Disposition, TypeLine;
    if first {
      buf.Copy(Ascii("--"));
    } else {
      buf.Cat(Ascii("--"));
    }
    assert buf.Contents() == start + Ascii("--");
    buf.Cat(boundary);
    buf.Cat(Ascii("\r\n"));
    AppendDisposition(buf, c);
    AppendTypeLine(buf, c);
    buf.Cat(Ascii("\r\n\r\n"));
    Regroup(start, Ascii("--"), boundary, Ascii("\r\n"), Disposition(c), TypeLine(c), Ascii("\r\n\r\n"));
  }

  // ----- the parts -----

  /** The end of a build: Overrun where the C would write past the end of an array. */
  datatype Outcome = Built | NoMemory | Overrun

  /** request_part_create, which fails when memory runs out for the part or for its copy. */
  method RequestPartCreate(mem: Memory, buf: seq<byte>, copied: bool, userMem: bool) returns (part: RequestPart?)
    modifies mem`asked, mem`refusals
    ensures if part == null then mem.LastRefused(old(mem.asked)) else mem.AllGranted(old(mem.asked))
    ensures old(mem.asked) < mem.asked <= old(mem.asked) + if copied then 2 else 1
    ensures part != null ==>
              fresh(part) && part.buf == buf && part.copied == copied && part.userMem == userMem
              && part.bufLenDone == 0 && mem.asked == old(mem.asked) + if copied then 2 else 1
  {
    var granted := mem.Grant();
    if !granted {
      return null;
    }
    if copied {
      granted := mem.Grant();
      if !granted {
        return null;
      }
    }
    part := new RequestPart(buf, copied, userMem);
  }

  /** The parts so far and the pending line end, for the chunks before i. */
  function Front(chunks: seq<MultipartChunk>, boundary: seq<byte>): seq<byte>
    requires AllCreated(chunks)
  {
    if chunks == [] then []
    else
      var c := chunks[|chunks| - 1];
      Front(chunks[..|chunks| - 1], boundary)
      + if c.data.None? then [] else Header(c, boundary) + SentData(c) + Ascii("\r\n")
  }

  lemma {:induction false} FrontConcat(front: seq<MultipartChunk>, chunks: seq<MultipartChunk>, boundary: seq<byte>)
    requires AllCreated(front) && AllCreated(chunks)
    ensures AllCreated(front + chunks)
    ensures Front(front, boundary) + MultipartBody(chunks, boundary) == MultipartBody(front + chunks, boundary)
    decreases |front|
  {
    hide Header, SentData, Ascii;
    if front == [] {
      assert front + chunks == chunks;
    } else {
      var n := |front| - 1;
      assert front[..n] + ([front[n]] + chunks) == front + chunks;
      assert ([front[n]] + chunks)[1..] == chunks;
      FrontConcat(front[..n], [front[n]] + chunks, boundary);
    }
  }

  /** Bytes that begin the multipart body and are not all of it. */
  ghost predicate PartOfBody(bytes: seq<byte>, chunks: seq<MultipartChunk>, boundary: seq<byte>)
    requires AllCreated(chunks)
  {
    bytes <= MultipartBody(chunks, boundary) && |bytes| < |MultipartBody(chunks, boundary)|
  }

  /** What precedes the closing boundary is part of the body. */
  lemma FrontIsPart(chunks: seq<MultipartChunk>, boundary: seq<byte>, i: nat, bytes: seq<byte>)
    requires AllCreated(chunks) && i <= |chunks|
    requires AllCreated(chunks[..i]) && bytes <= Front(chunks[..i], boundary)
    ensures PartOfBody(bytes, chunks, boundary)
  {
    hide Front, MultipartBody;
    FrontConcat(chunks[..i], chunks[i..], boundary);
    assert chunks[..i] + chunks[i..] == chunks;
    BodyNotEmpty(chunks[i..], boundary);
  }

  /** Parts ready to be sent: nothing done yet, and no part twice. */
  ghost predicate Unsent(parts: seq<RequestPart>)
    reads parts
  {
    && (forall i :: 0 <= i < |parts| ==> parts[i].bufLenDone == 0)
    && (forall i, j :: 0 <= i < j < |parts| ==> parts[i] != parts[j])
  }

  lemma BufsSnoc(parts: seq<RequestPart>, part: RequestPart)
    ensures Concat(Bufs(parts + [part])) == Concat(Bufs(parts)) + part.buf
  {
    assert Bufs(parts + [part]) == Bufs(parts) + [part.buf];
    ConcatSnoc(Bufs(parts), part.buf);
  }

  /** The data that are sent. */
  function SentDatas(chunks: seq<MultipartChunk>): seq<seq<byte>>
    requires AllCreated(chunks)
  {
    if chunks == [] then []
    else
      var c := chunks[|chunks| - 1];
      SentDatas(chunks[..|chunks| - 1]) + if c.data.None? then [] else [SentData(c)]
  }

  lemma KeptSnoc(parts: seq<RequestPart>, part: RequestPart)
    ensures Kept(parts + [part]) == Kept(parts) + if part.userMem && !part.copied then [part.buf] else []
  {
    assert (parts + [part])[..|parts|] == parts;
  }

  lemma KeptCons(part: RequestPart, parts: seq<RequestPart>)
    requires part.copied || !part.userMem
    ensures Kept([part] + parts) == Kept(parts)
  {
    if parts != [] {
      var n := |parts| - 1;
      KeptCons(part, parts[..n]);
      assert ([part] + parts)[..n + 1] == [part] + parts[..n];
    } else {
      assert ([part] + parts)[..0] == [];
    }
  }

  lemma SentDatasSnoc(chunks: seq<MultipartChunk>, i: nat)
    requires AllCreated(chunks) && i < |chunks|
    ensures SentDatas(chunks[..i + 1])
         == SentDatas(chunks[..i]) + if chunks[i].data.None? then [] else [SentData(chunks[i])]
  {
    assert chunks[..i + 1][..i] == chunks[..i];
  }

  lemma {:induction false} SentDatasWithin(chunks: seq<MultipartChunk>, i: nat)
    requires AllCreated(chunks) && i <= |chunks|
    ensures SentDatas(chunks[..i]) <= SentDatas(chunks)
    decreases |chunks| - i
  {
    if i == |chunks| {
      assert chunks[..i] == chunks;
    } else {
      SentDatasWithin(chunks, i + 1);
      SentDatasSnoc(chunks, i);
    }
  }

  /** One part more at the end of the list. */
  method AppendPart(mem: Memory, parts: seq<RequestPart>, bytes: seq<byte>, copied: bool, userMem: bool)
    returns (ok: bool, parts': seq<RequestPart>)
    requires Unsent(parts)
    modifies mem`asked, mem`refusals
    ensures if ok then mem.AllGranted(old(mem.asked)) else mem.LastRefused(old(mem.asked))
    ensures old(mem.asked) < mem.asked && (ok ==> mem.asked == old(mem.asked) + if copied then 2 else 1)
    ensures if ok then |parts'| == |parts| + 1 && parts < parts' && fresh(parts'[|parts|]) else parts' == parts
    ensures Unsent(parts') && Concat(Bufs(parts')) == Concat(Bufs(parts)) + if ok then bytes else []
    ensures Kept(parts') == Kept(parts) + if ok && userMem && !copied then [bytes] else []
  {
    hide Concat, Bufs, Kept;
    var part := RequestPartCreate(mem, bytes, copied, userMem);
    if part == null {
      return false, parts;
    }
    BufsSnoc(parts, part);
    KeptSnoc(parts, part);
    ok, parts' := true, parts + [part];
  }

  /** What one chunk adds, or as much of it as there was memory for: the header part stays
      when only the data part cannot be made. */
  method AppendChunk(mem: Memory, parts: seq<RequestPart>, buf: StringBuffer, c: MultipartChunk,
                     boundary: seq<byte>, first: bool)
    returns (ok: bool, parts': seq<RequestPart>)
    requires buf.Valid() && Created(c) && c.data.Some? && buf.block.Length >= 3
    requires buf.length + |Header(c, boundary)| < buf.block.Length
    requires first ==> buf.length == 0
    requires Unsent(parts)
    modifies buf, buf.block, mem`asked, mem`refusals
    ensures Unsent(parts') && parts <= parts' && |parts'| <= |parts| + 2
    ensures forall i :: |parts| <= i < |parts'| ==> fresh(parts'[i])
    ensures if ok then mem.AllGranted(old(mem.asked)) else mem.LastRefused(old(mem.asked))
    ensures Kept(parts') == Kept(parts) + if ok then [SentData(c)] else []
    ensures ok ==> buf.Valid() && buf.length == 2 && mem.asked == old(mem.asked) + 3
    ensures ok ==>
              Concat(Bufs(parts')) + buf.Contents()
                == (Concat(Bufs(parts)) + old(buf.Contents())) + (Header(c, boundary) + SentData(c) + Ascii("\r\n"))
    ensures !ok ==>
              Concat(Bufs(parts'))
                <= (Concat(Bufs(parts)) + old(buf.Contents())) + (Header(c, boundary) + SentData(c) + Ascii("\r\n"))
  {
    hide Header, Ascii, Concat, Bufs, Kept, Unsent;
    ghost var sent, pending, h := Concat(Bufs(parts)), buf.Contents(), Header(c, boundary);
    ok, parts' := false, parts;
    AppendHeader(buf, c, boundary, first);
    Regroup(sent, pending, h, SentData(c), Ascii("\r\n"), [], []);
    assert (sent + pending) + (h + SentData(c) + Ascii("\r\n")) == sent + (pending + h) + SentData(c) + Ascii("\r\n");
    ok, parts' := AppendPart(mem, parts, buf.block[..buf.length], true, false);
    if !ok {
      return;
    }
    ok, parts' := AppendPart(mem, parts', c.data.value[..c.lengthData], false, true);
    if !ok {
      return;
    }
    buf.Copy(Ascii("\r\n"));
    ok := true;
  }

  /** The closing boundary. */
  method AppendLast(mem: Memory, parts: seq<RequestPart>, buf: StringBuffer, boundary: seq<byte>)
    returns (ok: bool, parts': seq<RequestPart>)
    requires buf.Valid() && buf.length + 6 + |boundary| < buf.block.Length && Unsent(parts)
    modifies buf, buf.block, mem`asked, mem`refusals
    ensures Unsent(parts') && parts <= parts' && |parts'| <= |parts| + 1
    ensures forall i :: |parts| <= i < |parts'| ==> fresh(parts'[i])
    ensures mem.asked - old(mem.asked) >= 1
    ensures if ok then mem.AllGranted(old(mem.asked)) else mem.LastRefused(old(mem.asked))
    ensures !ok ==> parts' == parts
    ensures Kept(parts') == Kept(parts) && (ok ==> mem.asked == old(mem.asked) + 2)
    ensures ok ==>
              Concat(Bufs(parts'))
                == (Concat(Bufs(parts)) + old(buf.Contents())) + (Ascii("--") + boundary + Ascii("--\r\n"))
  {
    hide Ascii, Concat;
    ghost var sent, pending := Concat(Bufs(parts)), buf.Contents();
    ghost var closing := Ascii("--") + boundary + Ascii("--\r\n");
    buf.Cat(Ascii("--"));
    buf.Cat(boundary);
    buf.Cat(Ascii("--\r\n"));
    Regroup(pending, Ascii("--"), boundary, Ascii("--\r\n"), [], [], []);
    ok, parts' := AppendPart(mem, parts, buf.block[..buf.length], true, true);
    assert sent + (pending + closing) == (sent + pending) + closing;
  }

  lemma FrontSnoc(chunks: seq<MultipartChunk>, i: nat, boundary: seq<byte>)
    requires i < |chunks| && AllCreated(chunks)
    ensures Front(chunks[..i + 1], boundary)
         == Front(chunks[..i], boundary)
            + if chunks[i].data.None? then []
              else Header(chunks[i], boundary) + SentData(chunks[i]) + Ascii("\r\n")
    ensures Pending(chunks[..i + 1]) == if chunks[i].data.Some? then 2 else Pending(chunks[..i])
  {
    assert chunks[..i + 1][..i] == chunks[..i];
    if chunks[i].data.Some? {
      assert chunks[..i + 1][i].data.Some?;
    } else if AnyData(chunks[..i + 1]) {
      var j :| 0 <= j < i + 1 && chunks[..i + 1][j].data.Some?;
      assert chunks[..i][j].data.Some?;
    } else {
      assert forall j :: 0 <= j < i ==> chunks[..i][j] == chunks[..i + 1][j];
    }
  }

  lemma FrontWhole(chunks: seq<MultipartChunk>, boundary: seq<byte>)
    requires AllCreated(chunks)
    ensures Front(chunks, boundary) + (Ascii("--") + boundary + Ascii("--\r\n")) == MultipartBody(chunks, boundary)
  {
    FrontConcat(chunks, [], boundary);
    assert chunks + [] == chunks;
  }

  lemma NothingYet(chunks: seq<MultipartChunk>, boundary: seq<byte>)
    ensures Concat(Bufs([])) == [] && Front(chunks[..0], boundary) == [] && Pending(chunks[..0]) == 0
    ensures Kept([]) == SentDatas(chunks[..0]) == []
  {
  }

  /** What add_multipart_chunks leaves behind, by how it ended. */
  ghost predicate Added(outcome: Outcome, parts: seq<RequestPart>, chunks: seq<MultipartChunk>,
                        boundary: seq<byte>, mem: Memory, asked: nat)
    requires AllCreated(chunks)
    reads mem
  {
    match outcome
    case Built =>
      && Concat(Bufs(parts)) == MultipartBody(chunks, boundary)
      && BufferFits(chunks, boundary) && mem.AllGranted(asked)
      && Kept(parts) == SentDatas(chunks) && mem.asked == asked + 3 + 3 * |SentDatas(chunks)|
    case NoMemory =>
      && PartOfBody(Concat(Bufs(parts)), chunks, boundary) && mem.LastRefused(asked)
      && Kept(parts) <= SentDatas(chunks)
    case Overrun => !BufferFits(chunks, boundary) && mem.AllGranted(asked)
  }

  lemma PendingShort(chunks: seq<MultipartChunk>)
    ensures Pending(chunks) <= 2
  {
  }

  /** The loop of add_multipart_chunks. The C does not look at the room that is left. */
  method AppendChunks(mem: Memory, buf: StringBuffer, chunks: seq<MultipartChunk>, boundary: seq<byte>)
    returns (outcome: Outcome, parts: seq<RequestPart>)
    requires AllCreated(chunks)
    requires buf.Valid() && buf.length == 0 && buf.block.Length == BufferSize(chunks, boundary)
    modifies buf, buf.block, mem`asked, mem`refusals
    ensures |parts| <= 2 * |chunks| && Unsent(parts)
    ensures forall i :: 0 <= i < |parts| ==> fresh(parts[i])
    ensures outcome == NoMemory ==>
              mem.LastRefused(old(mem.asked)) && PartOfBody(Concat(Bufs(parts)), chunks, boundary)
    ensures Kept(parts) <= SentDatas(chunks)
    ensures outcome == Built ==> Kept(parts) == SentDatas(chunks)
    ensures outcome == Built ==> mem.asked == old(mem.asked) + 3 * |SentDatas(chunks)|
    ensures outcome != NoMemory ==> mem.AllGranted(old(mem.asked))
    ensures outcome == Overrun ==> !BufferFits(chunks, boundary)
    ensures outcome == Built ==>
              && BufferFits(chunks, boundary) && buf.Valid() && buf.length <= 2
              && Concat(Bufs(parts)) + buf.Contents() == Front(chunks, boundary)
  {
    hide Header, SentData, Ascii, Concat, MaxStrings, Front, MultipartBody, Pending, PartOfBody, Kept, SentDatas;
    parts := [];
    NothingYet(chunks, boundary);
    var i := 0;
    while i < |chunks|
      invariant 0 <= i <= |chunks|
      invariant buf.Valid() && buf.length == Pending(chunks[..i]) && (i == 0 ==> buf.length == 0)
      invariant forall j :: 0 <= j < i ==> ChunkFits(chunks, boundary, j)
      invariant Concat(Bufs(parts)) + buf.Contents() == Front(chunks[..i], boundary)
      invariant |parts| <= 2 * i && Unsent(parts)
      invariant forall j :: 0 <= j < |parts| ==> fresh(parts[j])
      invariant mem.AllGranted(old(mem.asked)) && mem.asked == old(mem.asked) + 3 * |Kept(parts)|
      invariant Kept(parts) == SentDatas(chunks[..i])
    {
      SentDatasSnoc(chunks, i);
      SentDatasWithin(chunks, i);
      SentDatasWithin(chunks, i + 1);
      FrontSnoc(chunks, i, boundary);
      if chunks[i].data.Some? {
        if buf.length + |Header(chunks[i], boundary)| >= buf.block.Length {
          assert !ChunkFits(chunks, boundary, i);
          return Overrun, parts;
        }
        var ok;
        ok, parts := AppendChunk(mem, parts, buf, chunks[i], boundary, i == 0);
        if !ok {
          FrontIsPart(chunks, boundary, i + 1, Concat(Bufs(parts)));
          return NoMemory, parts;
        }
      }
      i := i + 1;
    }
    assert chunks[..i] == chunks;
    PendingShort(chunks);
    outcome := Built;
  }

  /** add_multipart_chunks, once it has its buffer. */
  method AppendAll(mem: Memory, buf: StringBuffer, chunks: seq<MultipartChunk>, boundary: seq<byte>)
    returns (outcome: Outcome, parts: seq<RequestPart>)
    requires AllCreated(chunks)
    requires buf.Valid() && buf.length == 0 && buf.block.Length == BufferSize(chunks, boundary)
    modifies buf, buf.block, mem`asked, mem`refusals
    ensures |parts| <= 2 * |chunks| + 1 && Unsent(parts)
    ensures forall i :: 0 <= i < |parts| ==> fresh(parts[i])
    ensures outcome == Built ==>
              && Concat(Bufs(parts)) == MultipartBody(chunks, boundary)
              && BufferFits(chunks, boundary) && mem.AllGranted(old(mem.asked))
              && Kept(parts) == SentDatas(chunks) && mem.asked == old(mem.asked) + 2 + 3 * |SentDatas(chunks)|
    ensures Kept(parts) <= SentDatas(chunks)
    ensures outcome == NoMemory ==>
              PartOfBody(Concat(Bufs(parts)), chunks, boundary) && mem.LastRefused(old(mem.asked))
    ensures outcome == Overrun ==> !BufferFits(chunks, boundary) && mem.AllGranted(old(mem.asked))
  {
    hide Ascii, Concat, HeaderStrings, Front, MultipartBody, Pending, PartOfBody, BufferFits, Unsent;
    hide StringBuffer.Contents;
    outcome, parts := AppendChunks(mem, buf, chunks, boundary);
    if outcome == Built {
      FrontWhole(chunks, boundary);
      assert chunks[..|chunks|] == chunks;
      FrontIsPart(chunks, boundary, |chunks|, Concat(Bufs(parts)));
      var ok;
      ok, parts := AppendLast(mem, parts, buf, boundary);
      outcome := if ok then Built else NoMemory;
    }
  }

  lemma NoParts()
    ensures Unsent([])
  {
  }

  /**
   * add_multipart_chunks. Only a lack of memory or of room in the buffer can prevent the
   * parts from being, laid end to end, the multipart body; the parts made before a lack of
   * memory stay, and are the beginning of it.
   */
  method AddMultipartChunks(mem: Memory, chunks: seq<MultipartChunk>, boundary: seq<byte>)
    returns (outcome: Outcome, parts: seq<RequestPart>)
    requires AllCreated(chunks)
    modifies mem`asked, mem`refusals
    ensures |parts| <= 2 * |chunks| + 1 && Unsent(parts)
    ensures forall i :: 0 <= i < |parts| ==> fresh(parts[i])
    ensures Added(outcome, parts, chunks, boundary, mem, old(mem.asked))
  {
    hide Ascii, Concat, HeaderStrings, Front, MultipartBody, Pending, PartOfBody, BufferFits, Unsent;
    var max := GetMaxMultipartHeaderSize(chunks);
    parts := [];
    NothingYet(chunks, boundary);
    var granted := mem.Grant();
    if !granted {
      FrontIsPart(chunks, boundary, 0, []);
      NoParts();
      return NoMemory, [];
    }
    var buf := new StringBuffer(BASIC_SIZE + max + |boundary|);
    outcome, parts := AppendAll(mem, buf, chunks, boundary);
  }

  // ----- the request -----

  lemma BufsCons(part: RequestPart, parts: seq<RequestPart>)
    ensures Concat(Bufs([part] + parts)) == part.buf + Concat(Bufs(parts))
  {
    assert Bufs([part] + parts) == [part.buf] + Bufs(parts);
    assert ([part.buf] + Bufs(parts))[1..] == Bufs(parts);
  }

  /** The header, with the text of the count in it, and the body. */
  function Request(header: seq<byte> -> seq<byte>, chunks: seq<MultipartChunk>, boundary: seq<byte>): seq<byte>
    requires AllCreated(chunks)
  {
    header(DecimalText(Printed(ReportedLength(chunks, |boundary|)))) + MultipartBody(chunks, boundary)
  }

  /** Where the count is right, so is what the header says. */
  lemma RequestTellsLength(header: seq<byte> -> seq<byte>, chunks: seq<MultipartChunk>, boundary: seq<byte>)
    requires AllCreated(chunks) && AllCounted(chunks) && |MultipartBody(chunks, boundary)| < 100000
    ensures var body := MultipartBody(chunks, boundary);
      Request(header, chunks, boundary) == header(Numeral(|body|, 10)) + body
    ensures TextFits(ReportedLength(chunks, |boundary|))
  {
    TextIsLength(chunks, boundary);
  }

  /** Neither the text of the count nor the buffer is too small. */
  ghost predicate RoomEnough(chunks: seq<MultipartChunk>, boundary: seq<byte>) {
    TextFits(ReportedLength(chunks, |boundary|)) && BufferFits(chunks, boundary)
  }

  /** What is left in the client's list of parts, by how the build ended. */
  ghost predicate Left(outcome: Outcome, parts: seq<RequestPart>, request: seq<byte>, room: bool,
                       mem: Memory, asked: nat)
    reads mem
  {
    var bytes := Concat(Bufs(parts));
    match outcome
    case Built => parts != [] && bytes == request && room && mem.AllGranted(asked)
    case NoMemory => bytes <= request && |bytes| < |request| && mem.LastRefused(asked)
    case Overrun => !room && mem.AllGranted(asked)
  }

  /**
   * pico_http_client_build_post_multipart_request, with the header's text as a function of
   * the text of the count. A lack of memory leaves the parts made so far.
   */
  method BuildPostMultipart(mem: Memory, header: seq<byte> -> seq<byte>, chunks: seq<MultipartChunk>,
                            boundary: seq<byte>)
    returns (outcome: Outcome, parts: seq<RequestPart>)
    requires AllCreated(chunks)
    modifies mem`asked, mem`refusals
    ensures |parts| <= 2 + 2 * |chunks| && Unsent(parts)
    ensures forall i :: 0 <= i < |parts| ==> fresh(parts[i])
    ensures Left(outcome, parts, Request(header, chunks, boundary), RoomEnough(chunks, boundary), mem, old(mem.asked))
    ensures outcome == Built ==>
              Kept(parts) == SentDatas(chunks) && mem.asked == old(mem.asked) + 5 + 3 * |SentDatas(chunks)|
    ensures outcome == NoMemory ==> Kept(parts) <= SentDatas(chunks)
    ensures outcome == NoMemory && parts == [] ==> mem.asked - old(mem.asked) <= 2
  {
    hide Concat, MultipartBody, ReportedLength, Printed, BufferFits, DecimalText, TextFits, Kept, SentDatas;
    parts := [];
    NothingYet(chunks, boundary);
    BodyNotEmpty(chunks, boundary);
    var contentLength := GetContentLength(chunks, boundary);
    var fits, digits, size := PrintContentLength(contentLength);
    if !fits {
      return Overrun, [];
    }
    var text := header(digits[..size]);
    var granted := mem.Grant();
    if !granted {
      return NoMemory, [];
    }
    var first := RequestPartCreate(mem, text, false, false);
    if first == null {
      return NoMemory, [];
    }
    var others;
    outcome, others := AddMultipartChunks(mem, chunks, boundary);
    BufsCons(first, others);
    KeptCons(first, others);
    assert forall i :: 0 <= i < |others| ==> fresh(others[i]) && others[i] != first;
    parts := [first] + others;
  }

  lemma RequestNotEmpty(header: seq<byte> -> seq<byte>, chunks: seq<MultipartChunk>, boundary: seq<byte>)
    requires AllCreated(chunks)
    ensures |Request(header, chunks, boundary)| > 0
  {
    BodyNotEmpty(chunks, boundary);
  }

  lemma NoEvents()
    ensures Successes([]) == 0
  {
  }

  /** The write events that meet a list of parts, after a first write if it was built. */
  method SendLeft(sck: OutSocket, parts: seq<RequestPart>, built: bool, events: nat, ghost least: nat)
    returns (successes: nat, ghost more: seq<byte>)
    requires Unsent(parts)
    modifies sck, parts
    ensures sck.wire == old(sck.wire) + more && more <= Concat(Bufs(parts))
    ensures parts == [] ==> more == [] && successes == 0
    ensures parts != [] && (built || events > 0) ==> successes == if more == Concat(Bufs(parts)) then 1 else 0
    ensures !built && events == 0 ==> successes == 0 && more == []
    ensures parts != [] && TakesAtLeast(old(sck.writes), sck.plan, least) && events * least >= |Concat(Bufs(parts))| ==>
              more == Concat(Bufs(parts))
  {
    hide Concat, Position, InOrder, Successes;
    successes, more := 0, [];
    if parts == [] {
      return;
    }
    var sender := new Sender(sck, parts, NoLongPolling);
    if built {
      more := SendAll(sender, events, least);
    } else if events > 0 {
      more := AnyWriteEvents(sender, events, least);
    }
    NoEvents();
    successes := Successes(sender.events);
  }

  /**
   * The rest of pico_http_client_send_post_multipart once its checks have passed, and `events`
   * write events after it. A built request is written at once and then as the socket takes
   * it. After a lack of memory the caller is told of an error, but the parts that are left go
   * out at the write events all the same, and success is reported for them if there were
   * any and the socket took them, without the whole request having gone out.
   */
  method PostChecked(sck: OutSocket, mem: Memory, header: seq<byte> -> seq<byte>,
                     chunks: seq<MultipartChunk>, boundary: seq<byte>, events: nat, ghost least: nat)
    returns (outcome: Outcome, successes: nat, anyLeft: bool, ghost more: seq<byte>)
    requires AllCreated(chunks)
    modifies sck, mem`asked, mem`refusals
    ensures sck.wire == old(sck.wire) + more
    ensures match outcome
      case Built => RoomEnough(chunks, boundary) && mem.AllGranted(old(mem.asked)) && anyLeft
      case NoMemory => mem.LastRefused(old(mem.asked))
      case Overrun => !RoomEnough(chunks, boundary) && more == [] && successes == 0
    ensures var request := Request(header, chunks, boundary);
      && more <= request
      && successes <= 1 && (successes == 1 ==> anyLeft && (more == request <==> outcome == Built))
      && (outcome == Built && more == request ==> successes == 1)
      && (outcome == NoMemory ==> |more| < |request|)
      && (TakesAtLeast(old(sck.writes), sck.plan, least) && events * least >= |request| && outcome != Overrun ==>
            (successes == 1 <==> anyLeft))
    ensures outcome == NoMemory && !anyLeft ==> more == []
    ensures outcome == Built ==> mem.asked >= old(mem.asked) + 5
    ensures outcome == NoMemory && !anyLeft ==> mem.asked <= old(mem.asked) + 3
  {
    hide Concat, Request, RoomEnough, Position, BufferFits, InOrder;
    successes, anyLeft, more := 0, false, [];
    var granted := mem.Grant();
    if !granted {
      RequestNotEmpty(header, chunks, boundary);
      return NoMemory, 0, false, [];
    }
    var parts;
    outcome, parts := BuildPostMultipart(mem, header, chunks, boundary);
    if outcome != Overrun {
      anyLeft := parts != [];
      successes, more := SendLeft(sck, parts, outcome == Built, events, least);
    }
  }

  /**
   * pico_http_client_send_post_multipart: what it returns, and what comes of it. The client
   * is there or not, idle or not, and the connection type is one of the two or not.
   */
  method SendPostMultipart(sck: OutSocket, mem: Memory, header: seq<byte> -> seq<byte>,
                           chunks: seq<MultipartChunk>, boundary: seq<byte>, events: nat,
                           found: bool, idle: bool, knownType: bool, ghost least: nat)
    returns (ret: int, posted: Option<Outcome>, successes: nat, ghost more: seq<byte>)
    requires AllCreated(chunks)
    modifies sck, mem`asked, mem`refusals
    ensures sck.wire == old(sck.wire) + more
    ensures posted.None? <==> chunks == [] || !found || !idle || !knownType
    ensures posted.None? ==>
              && ret == (if chunks != [] && found && !idle then RETURN_CONN_BUSY else RETURN_ERROR)
              && more == [] && successes == 0 && mem.asked == old(mem.asked) && sck.writes == old(sck.writes)
    ensures posted.Some? && posted.value != Overrun ==>
              ret == if posted.value == Built then RETURN_OK else RETURN_ERROR
    ensures posted.Some? ==>
              var request := Request(header, chunks, boundary);
              && more <= request && successes <= 1
              && (match posted.value
                  case Built =>
                    && RoomEnough(chunks, boundary) && mem.AllGranted(old(mem.asked)) && mem.asked >= old(mem.asked) + 5
                    && (successes == 1 <==> more == request)
                  case NoMemory => mem.LastRefused(old(mem.asked)) && |more| < |request|
                  case Overrun => !RoomEnough(chunks, boundary) && more == [] && successes == 0)
              && (TakesAtLeast(old(sck.writes), sck.plan, least) && events * least >= |request|
                  && posted.value != Overrun ==>
                    posted.value == Built || mem.asked > old(mem.asked) + 3 ==> successes == 1)
  {
    hide Request, RoomEnough;
    assert sck.wire + [] == sck.wire;
    ret, posted, successes, more := RETURN_ERROR, None, 0, [];
    if chunks == [] || !found {
      return;
    }
    if !idle {
      ret := RETURN_CONN_BUSY;
      return;
    }
    if !knownType {
      return;
    }
    var outcome, anyLeft;
    outcome, successes, anyLeft, more := PostChecked(sck, mem, header, chunks, boundary, events, least);
    ret, posted := if outcome == Built then RETURN_OK else RETURN_ERROR, Some(outcome);
  }

  const SMALL: MultipartChunk := CreateChunk([0], None, None, None, None).value

  lemma SmallPost()
    ensures AllCreated([SMALL]) && RoomEnough([SMALL], [])
  {
    ShortFits([SMALL], []);
    OneChunkBody(SMALL, []);
    assert |Header(SMALL, [])| == 8 && |SentData(SMALL)| == 1;
    TextIsLength([SMALL], []);
  }

  /**
   * A post for which memory runs out at the header of its only chunk: the caller is told of
   * an error, and one write event later that the request has gone out, of which the end is
   * missing.
   */
  method TruncatedPost(header: seq<byte> -> seq<byte>)
    returns (sck: OutSocket, ret: int, successes: nat)
    ensures AllCreated([SMALL]) && ret == RETURN_ERROR && successes == 1
    ensures sck.wire <= Request(header, [SMALL], []) && |sck.wire| < |Request(header, [SMALL], [])|
  {
    hide Request, RoomEnough;
    SmallPost();
    var length := |Request(header, [SMALL], [])|;
    var mem := new Memory(i => i < 4);
    sck := new OutSocket(i => length);
    var posted;
    ghost var more;
    ret, posted, successes, more := SendPostMultipart(sck, mem, header, [SMALL], [], 1, true, true, true, length);
    assert [] + more == more && !mem.plan(4);
  }
}
