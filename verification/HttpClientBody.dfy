/**
 * The chunked-body reader of libhttp/pico_http_client.c. Whatever the stream and
 * however it is cut, the client's fields follow the byte automaton of ChunkedCoding
 * on the bytes consumed so far, and the user has been given that automaton's output.
 */
module HttpClientBody {
  import opened Bytes
  import opened ChunkedCoding
  import opened Sockets
  import HttpUtil

  datatype ClientState = ConnIdle | ReadingBody | ReadingChunkValue | ReadingChunkTrail

  /** Where the line ends that begins at this place, or where s does. */
  ghost function LineStop(d: Decoder, s: seq<byte>, from: nat): (to: nat)
    requires from <= |s|
    ensures from <= to <= |s|
    decreases |s| - from
  {
    if from == |s| then from
    else if LineEndsAt(d, s, from + 1) then from + 1
    else LineStop(d, s, from + 1)
  }

  lemma {:induction false} LineStopIs(d: Decoder, s: seq<byte>, from: nat, to: nat)
    requires from <= to <= |s| && WithinLine(d, s, from, to)
    requires to == |s| || (from < to && LineEndsAt(d, s, to))
    ensures to == LineStop(d, s, from)
    decreases |s| - from
  {
    hide LineEndsAt;
    if from + 1 < to {
      LineStopIs(d, s, from + 1, to);
    }
  }

  /** The same, where s has been read and nothing else is here, or a line has been read. */
  lemma LineStopNow(d: Decoder, s: seq<byte>, rest: seq<byte>, from: nat)
    requires from <= |s| && WithinLine(d, s, from, |s|)
    requires rest == [] || (from < |s| && LineEndsAt(d, s, |s|))
    ensures |s| == LineStop(d, s + rest, from)
  {
    hide LineEndsAt, WithinLine;
    WithinLineGrows(d, s, s + rest, from, |s|);
    if s != [] {
      LineEndsGrows(d, s, s + rest, |s|);
    }
    LineStopIs(d, s + rest, from, |s|);
  }

  /** Where one call with room for so many bytes stops reading chunk data, if all of s is here:
      in a chunk when there is no more room or nothing left to read, and otherwise after a line
      that follows on another. */
  ghost function ReadTo(d: Decoder, s: seq<byte>, from: nat, room: nat): (to: nat)
    requires from <= |s|
    ensures from <= to <= |s|
    decreases |s| - from
  {
    var left := Run(d, s[..from]).left;
    var n := Least(Least(left, room), |s| - from);
    if left == 0 then LineStop(d, s, from)
    else if n < left then from + n
    else ReadTo(d, s, LineStop(d, s, from + n), room - n)
  }

  lemma LeftAfter(d: Decoder, s: seq<byte>, from: nat, k: nat)
    requires from + k <= |s| && 0 < k <= Run(d, s[..from]).left && Run(d, s[..from]).phase.Data?
    ensures Run(d, s[..from + k]).left == Run(d, s[..from]).left - k
  {
    assert s[..from + k] == s[..from] + s[from..from + k];
    RunConcat(d, s[..from], s[from..from + k]);
    RunData(Run(d, s[..from]), s[from..from + k]);
  }

  /** Reading some of the data first makes no difference. */
  lemma ReadToFrom(d: Decoder, s: seq<byte>, from: nat, room: nat, k: nat)
    requires from + k <= |s| && k <= room && Run(d, s[..from]).phase.Data?
    requires 0 < k <= Run(d, s[..from]).left
    ensures ReadTo(d, s, from, room)
         == if k == Run(d, s[..from]).left then ReadTo(d, s, LineStop(d, s, from + k), room - k)
            else ReadTo(d, s, from + k, room - k)
  {
    hide Run, LineStop;
    LeftAfter(d, s, from, k);
  }

  ghost function AfterFirst(d: Decoder, s: seq<byte>, from: nat, size: nat, k: nat): nat
    requires k <= size && from + k <= |s|
  {
    if Run(d, s[..from]).left <= size + k then ReadTo(d, s, from + k, size - k) else from + k
  }

  /** Where one call stops, from the first chunk data on: a buffer smaller than what is left of
      the chunk is filled by one read of k bytes first. */
  ghost predicate StopsAt(d: Decoder, s: seq<byte>, from: nat, size: nat, to: nat) {
    && from <= |s|
    && var left := Run(d, s[..from]).left;
    if left <= size then to == ReadTo(d, s, from, size)
    else exists k: nat ::
      && k <= size && from + k <= |s| && (size > 0 && from < |s| ==> k > 0)
      && to == AfterFirst(d, s, from, size, k)
  }

  class HttpClient {
    var state: ClientState
    var contentLengthOrChunk: nat   // a uint32_t
    var bodyReadDone: bool
    const sck: InSocket
    ghost var origin: Decoder       // where the automaton was when this body began
    ghost var delivered: seq<byte>  // all that was handed to the user from this body
    ghost var endFrom: nat          // where reading of the line with the last chunk's zero
    ghost var endTo: nat            // began and stopped, in the call that saw it

    /** The automaton's view of the fields; set_client_chunk_state catches up lazily. */
    ghost function Abs(): Decoder
      reads this
    {
      match state
      case ReadingChunkTrail => Decoder(ChunkTrail, contentLengthOrChunk, bodyReadDone)
      case ReadingChunkValue => Decoder(ChunkValue, contentLengthOrChunk, bodyReadDone)
      case _ => Settled(contentLengthOrChunk, bodyReadDone)
    }

    /** The fields say what the automaton does after s. */
    ghost predicate Tracks(s: seq<byte>)
      reads this
    {
      && contentLengthOrChunk < WORD
      && delivered == Output(origin, s)
      && bodyReadDone == Run(origin, s).done
      && (state.ConnIdle? || Abs() == Run(origin, s))
    }

    ghost predicate Valid()
      reads this, sck
    {
      sck.Valid() && Tracks(sck.consumed)
    }

    /** A client that has not read any body yet. */
    constructor (sck: InSocket)
      requires sck.Valid() && sck.consumed == []
      ensures Valid() && this.sck == sck && state.ConnIdle?
      ensures !bodyReadDone && origin == START && delivered == []
    {
      this.sck := sck;
      state, contentLengthOrChunk, bodyReadDone := ConnIdle, 0, false;
      origin, delivered := START, [];
    }

    /** set_client_chunk_state */
    method SetClientChunkState()
      requires Valid()
      modifies this`state
      ensures Valid()
      ensures state == if old(state).ReadingBody? && contentLengthOrChunk == 0
                       then ReadingChunkValue else old(state)
    {
      if contentLengthOrChunk == 0 && state == ReadingBody {
        state := ReadingChunkValue;
      }
    }

    /** read_chunk_trail. The C leaves c unset when nothing can be read. */
    method ReadChunkTrail()
      requires Valid()
      modifies this`state, sck
      ensures Valid()
      ensures sck.consumed + sck.pending == old(sck.consumed + sck.pending)
      ensures |old(sck.consumed)| <= |sck.consumed|
      ensures state == old(state) || (old(state).ReadingChunkTrail? && state.ReadingBody?)
      ensures sck.Here() >= old(sck.Here())
      ensures old(state).ReadingChunkTrail? && old(sck.arrived) > 0 ==> |sck.consumed| > |old(sck.consumed)|
      ensures !old(state).ReadingChunkTrail? ==>
                sck.consumed == old(sck.consumed) && sck.arrived == old(sck.arrived)
      ensures WithinLine(origin, sck.consumed, |old(sck.consumed)|, |sck.consumed|)
      ensures old(state).ReadingChunkTrail? && state.ReadingBody? ==>
                sck.consumed != [] && LineEndsAt(origin, sck.consumed, |sck.consumed|)
      ensures old(sck.AllHere()) ==>
                sck.AllHere() && (state.ReadingChunkTrail? ==> sck.pending == [])
      ensures state.ReadingChunkTrail? ==> sck.arrived == 0
    {
      hide Run, Output, WithinLine, LineEndsAt;
      WithinLineLess(origin, sck.consumed, |sck.consumed|, 0, |sck.consumed| + 1);
      WithinLineLess(origin, sck.consumed, |sck.consumed|, 0, |sck.consumed|);
      if state == ReadingChunkTrail {
        ghost var all, fed := sck.consumed + sck.pending, sck.consumed;
        var got, c := sck.ConsumeChar(0);
        while got && c != LF
          invariant sck.Valid() && Tracks(fed) && state == ReadingChunkTrail
          invariant if got then sck.consumed == fed + [c] else sck.consumed == fed && c != LF
          invariant all == sck.consumed + sck.pending && |old(sck.consumed)| <= |fed|
          invariant got || old(sck.arrived) == 0 || |fed| > |old(sck.consumed)|
          invariant got || sck.arrived == 0
          invariant sck.Here() >= old(sck.Here()) && WithinLine(origin, fed, |old(sck.consumed)|, |fed| + 1)
          invariant old(sck.AllHere()) ==> sck.AllHere() && (got || sck.pending == [])
          decreases |sck.pending|, got
        {
          assert Tracks(fed + [c]) by {
            RunSnoc(origin, fed, c);
          }
          WithinLineSnoc(origin, fed, c, |old(sck.consumed)|);
          fed := fed + [c];
          got, c := sck.ConsumeChar(c);
        }
        WithinLineLess(origin, fed, |old(sck.consumed)|, |fed| + 1, |fed|);
        if c == LF {
          RunSnoc(origin, fed, c);
          WithinLineSnoc(origin, fed, c, |old(sck.consumed)|);
          state := ReadingBody;
        }
      }
    }

    /** The body of read_chunk_value's loop. */
    method TakeSizeChar(c: byte, ghost fed: seq<byte>)
      requires Tracks(fed) && state == ReadingChunkValue && c != CR && c != SEMICOLON
      modifies this`contentLengthOrChunk, this`bodyReadDone
      ensures Tracks(fed + [c]) && (old(bodyReadDone) ==> bodyReadDone) && Run(origin, fed).phase.ChunkValue?
    {
      RunSnoc(origin, fed, c);
      if HttpUtil.DigitValue(c) >= 0 {
        contentLengthOrChunk := contentLengthOrChunk * 16 % WORD + HttpUtil.DigitValue(c);
      }
      if c == ZERO && contentLengthOrChunk == 0 {
        bodyReadDone := true;
      }
    }

    /** What ends the size. */
    method EndSize(c: byte, ghost fed: seq<byte>)
      requires Tracks(fed) && state == ReadingChunkValue && (c == CR || c == SEMICOLON)
      modifies this`state
      ensures Tracks(fed + [c]) && state == ReadingChunkTrail && Run(origin, fed).phase.ChunkValue?
    {
      RunSnoc(origin, fed, c);
      state := ReadingChunkTrail;
    }

    /** read_chunk_value */
    method ReadChunkValue()
      requires Valid() && state == ReadingChunkValue
      modifies this, sck
      ensures Valid() && delivered == old(delivered) && origin == old(origin)
      ensures endFrom == old(endFrom) && endTo == old(endTo)
      ensures state == ReadingChunkValue || state == ReadingChunkTrail
      ensures sck.consumed + sck.pending == old(sck.consumed + sck.pending)
      ensures |old(sck.consumed)| <= |sck.consumed|
      ensures sck.Here() >= old(sck.Here())
      ensures old(sck.arrived) > 0 ==> |sck.consumed| > |old(sck.consumed)|
      ensures WithinLine(origin, sck.consumed, |old(sck.consumed)|, |sck.consumed| + 1)
      ensures old(bodyReadDone) ==> bodyReadDone
      ensures old(sck.AllHere()) ==> sck.AllHere() && (state == ReadingChunkTrail || sck.pending == [])
      ensures state == ReadingChunkTrail || sck.arrived == 0
    {
      hide Run, Output, WithinLine, LineEndsAt, HttpClient.Tracks;
      WithinLineLess(origin, sck.consumed, |sck.consumed|, 0, |sck.consumed| + 1);
      ghost var all, fed := sck.consumed + sck.pending, sck.consumed;
      var got, c := sck.ConsumeChar(0);
      while got && c != CR && c != SEMICOLON
        invariant sck.Valid() && Tracks(fed) && state == ReadingChunkValue
        invariant delivered == old(delivered) && origin == old(origin)
        invariant endFrom == old(endFrom) && endTo == old(endTo)
        invariant if got then sck.consumed == fed + [c]
                  else sck.consumed == fed && c != CR && c != SEMICOLON
        invariant all == sck.consumed + sck.pending && |old(sck.consumed)| <= |fed|
        invariant got || old(sck.arrived) == 0 || |fed| > |old(sck.consumed)|
        invariant got || sck.arrived == 0
        invariant sck.Here() >= old(sck.Here()) && WithinLine(origin, fed, |old(sck.consumed)|, |fed| + 1)
        invariant old(bodyReadDone) ==> bodyReadDone
        invariant old(sck.AllHere()) ==> sck.AllHere() && (got || sck.pending == [])
        decreases |sck.pending|, got
      {
        WithinLineSnoc(origin, fed, c, |old(sck.consumed)|);
        TakeSizeChar(c, fed);
        fed := fed + [c];
        got, c := sck.ConsumeChar(c);
      }
      if c == CR || c == SEMICOLON {
        WithinLineSnoc(origin, fed, c, |old(sck.consumed)|);
        EndSize(c, fed);
      }
    }

    lemma PrefixOfWhole(s: seq<byte>, t: seq<byte>, s': seq<byte>, t': seq<byte>)
      requires s + t == s' + t' && |s| <= |s'|
      ensures s <= s'
    {
      assert s == (s + t)[..|s|] == (s' + t')[..|s|] == s'[..|s|];
    }

    /** The next byte belongs to a size line. */
    ghost predicate ReadsLine()
      reads this
    {
      !state.ConnIdle? && (state.ReadingBody? ==> contentLengthOrChunk == 0)
    }

    lemma EndLineNow(before: seq<byte>)
      requires Valid() && bodyReadDone && before <= sck.consumed && !Run(origin, before).done
      requires WithinLine(origin, sck.consumed, |before|, |sck.consumed|)
      ensures EndLine(origin, sck.consumed, |before|, |sck.consumed|)
    {
      hide Run, Output, WithinLine;
      assert sck.consumed[..|before|] == before && sck.consumed[..|sck.consumed|] == sck.consumed;
    }

    /** read_chunk_line */
    method ReadChunkLine()
      requires Valid()
      modifies this, sck
      ensures Valid() && delivered == old(delivered) && origin == old(origin)
      ensures state.ConnIdle? <==> old(state).ConnIdle?
      ensures sck.consumed + sck.pending == old(sck.consumed + sck.pending)
      ensures old(sck.consumed) <= sck.consumed
      ensures sck.Here() >= old(sck.Here())
      ensures old(ReadsLine()) && old(sck.arrived) > 0 ==> |sck.consumed| > |old(sck.consumed)|
      ensures !old(ReadsLine()) ==>
                state == old(state) && contentLengthOrChunk == old(contentLengthOrChunk)
                && sck.consumed == old(sck.consumed) && sck.arrived == old(sck.arrived)
                && bodyReadDone == old(bodyReadDone)
      ensures WithinLine(origin, sck.consumed, |old(sck.consumed)|, |sck.consumed|)
      ensures old(ReadsLine()) && state.ReadingBody? ==>
                sck.consumed != [] && LineEndsAt(origin, sck.consumed, |sck.consumed|)
      ensures old(sck.AllHere()) ==>
                sck.AllHere() && (old(ReadsLine()) && !state.ReadingBody? ==> sck.pending == [])
      ensures old(ReadsLine()) && !state.ReadingBody? ==> sck.arrived == 0
      ensures old(sck.AllHere() && ReadsLine()) ==>
                |sck.consumed| == LineStop(origin, sck.consumed + sck.pending, |old(sck.consumed)|)
      ensures if bodyReadDone == old(bodyReadDone) then endFrom == old(endFrom) && endTo == old(endTo)
              else bodyReadDone && EndLine(origin, sck.consumed, endFrom, endTo) && endTo == |sck.consumed|
    {
      hide Run, Output, WithinLine, LineEndsAt, EndLine, LineStop;
      ghost var before, all, line := sck.consumed, sck.consumed + sck.pending, sck.AllHere() && ReadsLine();
      WithinLineLess(origin, before, |before|, 0, |before| + 1);
      SetClientChunkState();
      if state == ReadingChunkValue {
        ReadChunkValue();
      }
      ghost var mid, pending := sck.consumed, sck.pending;
      ReadChunkTrail();
      PrefixOfWhole(before, old(sck.pending), sck.consumed, sck.pending);
      PrefixOfWhole(mid, pending, sck.consumed, sck.pending);
      WithinLineJoin(origin, mid, sck.consumed, |before|, |sck.consumed|);
      if line {
        LineStopNow(origin, sck.consumed, sck.pending, |before|);
      }
      if bodyReadDone && !Run(origin, before).done {
        EndLineNow(before);
        endFrom, endTo := |before|, |sck.consumed|;
      }
    }

    /** start_reading_body, for a chunked response. Nothing clears body_read_done here. */
    method StartReadingBody()
      requires sck.Valid()
      modifies this, sck
      ensures Valid() && !state.ConnIdle?
      ensures origin == START.(done := old(bodyReadDone)) && delivered == []
      ensures sck.consumed + sck.pending == old(sck.pending)
      ensures WithinLine(origin, sck.consumed, 0, |sck.consumed|)
      ensures state.ReadingBody? ==> sck.consumed != [] && LineEndsAt(origin, sck.consumed, |sck.consumed|)
      ensures old(sck.AllHere()) ==> sck.AllHere() && (state.ReadingBody? || sck.pending == [])
    {
      contentLengthOrChunk, state := 0, ReadingChunkValue;
      origin, delivered, sck.consumed := START.(done := bodyReadDone), [], [];
      ReadChunkLine();
    }

    lemma NothingRead()
      requires Valid() && sck.consumed == sck.pending == []
      ensures sck.arrived == 0 && bodyReadDone == origin.done
    {
    }

    lemma TracksData(s: seq<byte>, bytes: seq<byte>)
      requires Tracks(s) && state == ReadingBody && |bytes| <= contentLengthOrChunk
      ensures Run(origin, s + bytes) == Settled(contentLengthOrChunk - |bytes|, bodyReadDone)
      ensures Output(origin, s + bytes) == delivered + bytes
    {
      RunConcat(origin, s, bytes);
      RunData(Abs(), bytes);
    }

    lemma SplitConserves(s: seq<byte>, t: seq<byte>, k: nat)
      requires k <= |t|
      ensures (s + t[..k]) + t[k..] == s + t
    {
    }

    /** The socket read both data paths make: n bytes at most, and no more than the chunk has. */
    method TakeData(data: array<byte>, offset: nat, n: nat) returns (k: nat)
      requires Valid() && state == ReadingBody && n <= contentLengthOrChunk
      requires offset + n <= data.Length
      modifies this`contentLengthOrChunk, this`delivered, sck, data
      ensures Valid() && k <= n && old(sck.consumed) <= sck.consumed
      ensures sck.consumed + sck.pending == old(sck.consumed + sck.pending)
      ensures |sck.consumed| == |old(sck.consumed)| + k
      ensures n > 0 && old(sck.arrived) > 0 ==> k > 0
      ensures sck.wanted == n
      ensures contentLengthOrChunk == old(contentLengthOrChunk) - k
      ensures sck.Here() >= old(sck.Here()) && (old(sck.AllHere()) ==> sck.AllHere())
      ensures delivered == old(delivered) + data[offset..offset + k]
      ensures data[..offset] == old(data[..offset])
      ensures data[offset + k..] == old(data[offset + k..])
    {
      ghost var before, all := sck.consumed, sck.pending;
      k := sck.Read(data, offset, n);
      ghost var bytes := all[..k];
      SplitConserves(before, all, k);
      assert sck.consumed == before + bytes && sck.pending == all[k..];
      TracksData(before, bytes);
      contentLengthOrChunk, delivered := contentLengthOrChunk - k, delivered + bytes;
      assert Tracks(before + bytes);
    }

    /** read_body, with the length update it calls. */
    method ReadBodyPart(data: array<byte>, size: nat, lenRead: nat) returns (lenRead': nat, tmpLenRead: nat)
      requires Valid() && lenRead <= size <= data.Length
      modifies this`contentLengthOrChunk, this`delivered, sck, data
      ensures Valid() && lenRead' == lenRead + tmpLenRead <= size && tmpLenRead <= old(contentLengthOrChunk)
      ensures old(sck.consumed) <= sck.consumed
      ensures sck.consumed + sck.pending == old(sck.consumed + sck.pending)
      ensures |sck.consumed| == |old(sck.consumed)| + tmpLenRead
      ensures contentLengthOrChunk == old(contentLengthOrChunk) - tmpLenRead
      ensures sck.Here() >= old(sck.Here()) && (old(sck.AllHere()) ==> sck.AllHere())
      ensures old(state.ReadingBody? && contentLengthOrChunk > 0 && sck.arrived > 0) && lenRead < size ==>
                tmpLenRead > 0
      ensures old(state.ReadingBody?) ==> sck.wanted == Least(old(contentLengthOrChunk), size - lenRead)
      ensures delivered == old(delivered) + data[lenRead..lenRead']
      ensures data[..lenRead] == old(data[..lenRead])
      ensures data[lenRead'..] == old(data[lenRead'..])
    {
      tmpLenRead := 0;
      if state == ReadingBody {
        var n := if contentLengthOrChunk < size - lenRead then contentLengthOrChunk else size - lenRead;
        tmpLenRead := TakeData(data, lenRead, n);
      }
      lenRead' := lenRead + tmpLenRead;
    }

    /** read_small_chunk */
    method ReadSmallChunk(data: array<byte>, size: nat) returns (lenRead: nat)
      requires Valid() && state == ReadingBody && size <= data.Length
      modifies this`contentLengthOrChunk, this`delivered, sck, data
      ensures Valid() && lenRead <= size && old(sck.consumed) <= sck.consumed
      ensures sck.consumed + sck.pending == old(sck.consumed + sck.pending)
      ensures |sck.consumed| == |old(sck.consumed)| + lenRead
      ensures old(sck.arrived) > 0 && 0 < size < old(contentLengthOrChunk) ==> lenRead > 0
      ensures size < old(contentLengthOrChunk) ==> sck.wanted == size
      ensures contentLengthOrChunk == old(contentLengthOrChunk) - lenRead
      ensures sck.Here() >= old(sck.Here()) && (old(sck.AllHere()) ==> sck.AllHere())
      ensures size >= old(contentLengthOrChunk) ==>
                lenRead == 0 && sck.arrived == old(sck.arrived)
      ensures delivered == old(delivered) + data[..lenRead]
      ensures data[lenRead..] == old(data[lenRead..])
    {
      lenRead := 0;
      if size < contentLengthOrChunk {
        lenRead := TakeData(data, 0, size);
      }
    }

    lemma Extend(before: seq<byte>, after: seq<byte>, from: nat, mid: nat, to: nat)
      requires from <= mid <= to <= |before| == |after|
      requires before[..mid] == after[..mid]
      ensures after[from..to] == before[from..mid] + after[mid..to]
      ensures before[..from] == after[..from]
    {
      assert before[from..mid] == before[..mid][from..];
    }

    /** What one round brings, if all is here. */
    lemma Onward(all: seq<byte>, before: seq<byte>, left: nat, room: nat, k: nat, now: nat)
      requires before <= all && Run(origin, before).left == left && (left > 0 ==> Run(origin, before).phase.Data?)
      requires k <= left && k <= room && |before| + k <= |all|
      requires now == if k < left then |before| + k else LineStop(origin, all, |before| + k)
      ensures now <= |all|
      ensures k > 0 ==> ReadTo(origin, all, |before|, room) == ReadTo(origin, all, now, room - k)
      ensures k == 0 && (left == 0 || room == 0 || before == all) ==> ReadTo(origin, all, |before|, room) == now
      ensures now == |all| ==> ReadTo(origin, all, now, room - k) == now
    {
      hide Run;
      assert all[..|before|] == before;
      if k > 0 {
        hide ReadTo, LineStop;
        ReadToFrom(origin, all, |before|, room, k);
      }
    }

    lemma InData()
      requires Valid() && state == ReadingBody
      ensures Run(origin, sck.consumed).left == contentLengthOrChunk
      ensures contentLengthOrChunk > 0 ==> Run(origin, sck.consumed).phase.Data?
    {
      hide Run, Output;
    }

    /** One round of the loop in read_big_chunk: read_body and check_chunk_line. */
    method Round(data: array<byte>, size: nat, lenRead: nat) returns (lenRead': nat, tmpLenRead: nat)
      requires Valid() && state == ReadingBody && lenRead <= size <= data.Length
      modifies this, sck, data
      ensures Valid() && lenRead' == lenRead + tmpLenRead <= size && !state.ConnIdle? && origin == old(origin)
      ensures sck.consumed + sck.pending == old(sck.consumed + sck.pending)
      ensures old(sck.consumed) <= sck.consumed && |sck.consumed| >= |old(sck.consumed)| + tmpLenRead
      ensures old(contentLengthOrChunk > 0 && sck.arrived > 0) && lenRead < size ==> tmpLenRead > 0
      ensures sck.Here() >= old(sck.Here()) && (old(sck.AllHere()) ==> sck.AllHere())
      ensures tmpLenRead <= old(contentLengthOrChunk)
      ensures tmpLenRead < old(contentLengthOrChunk) ==>
                && |sck.consumed| == |old(sck.consumed)| + tmpLenRead && state == ReadingBody
                && contentLengthOrChunk == old(contentLengthOrChunk) - tmpLenRead
      ensures old(sck.AllHere()) ==>
                var goal := ReadTo(origin, sck.consumed + sck.pending, |old(sck.consumed)|, size - lenRead);
                if tmpLenRead == 0 || state != ReadingBody then goal == |sck.consumed|
                else goal == ReadTo(origin, sck.consumed + sck.pending, |sck.consumed|, size - lenRead')
      ensures delivered == old(delivered) + data[lenRead..lenRead']
      ensures data[..lenRead] == old(data[..lenRead])
      ensures data[lenRead'..] == old(data[lenRead'..])
      ensures old(contentLengthOrChunk) == 0 ==> tmpLenRead == 0 && delivered == old(delivered)
      ensures if bodyReadDone == old(bodyReadDone) then endFrom == old(endFrom) && endTo == old(endTo)
              else bodyReadDone && EndLine(origin, sck.consumed, endFrom, endTo) && endTo == |sck.consumed|
    {
      hide Run, Output, WithinLine, LineEndsAt, EndLine, LineStop, ReadTo, HttpClient.Tracks;
      ghost var all, before, left := sck.consumed + sck.pending, sck.consumed, contentLengthOrChunk;
      InData();
      lenRead', tmpLenRead := ReadBodyPart(data, size, lenRead);
      assert tmpLenRead == 0 ==> delivered == old(delivered) + [] == old(delivered);
      ReadChunkLine();
      if old(sck.AllHere()) {
        Onward(all, before, left, size - lenRead, tmpLenRead, |sck.consumed|);
      }
    }

    /** The end of the body has been seen in this call. */
    ghost predicate Ended()
      reads this, sck
    {
      && EndSeen(origin, sck.consumed, endFrom, endTo, delivered)
      && (Run(origin, sck.consumed[..endTo]).left == 0 ==> contentLengthOrChunk == 0)
    }

    /** Where the reader is after a line with the last chunk's zero. */
    lemma EndedNow()
      requires Valid() && !state.ConnIdle? && endTo == |sck.consumed|
      requires EndLine(origin, sck.consumed, endFrom, endTo)
      ensures Ended()
    {
      assert sck.consumed[..endTo] == sck.consumed;
    }

    /** What follows that line is no data to it, if the line announced none. */
    lemma EndSeenLater(s: seq<byte>, t: seq<byte>, given: seq<byte>, given': seq<byte>)
      requires s <= t && EndSeen(origin, s, endFrom, endTo, given)
      requires Run(origin, s[..endTo]).left == 0 ==> given == given'
      ensures EndSeen(origin, t, endFrom, endTo, given') && s[..endTo] == t[..endTo]
    {
      hide Run, Output, WithinLine;
      EndLineGrows(origin, s, t, endFrom, endTo);
    }

    /** read_big_chunk, with the check_chunk_line it calls after every read. */
    method ReadBigChunk(data: array<byte>, size: nat, lenRead: nat) returns (lenRead': nat)
      requires Valid() && state == ReadingBody && lenRead <= size <= data.Length
      modifies this, sck, data
      ensures Valid() && lenRead <= lenRead' <= size && !state.ConnIdle? && origin == old(origin)
      ensures sck.consumed + sck.pending == old(sck.consumed + sck.pending)
      ensures old(sck.consumed) <= sck.consumed
      ensures old(0 < contentLengthOrChunk <= size && sck.arrived > 0) && lenRead < size ==>
                |sck.consumed| > |old(sck.consumed)|
      ensures sck.Here() >= old(sck.Here()) && (old(sck.AllHere()) ==> sck.AllHere())
      ensures old(contentLengthOrChunk) <= size ==>
                lenRead' - lenRead >= Least(Least(old(contentLengthOrChunk), size - lenRead), old(sck.arrived))
      ensures old(contentLengthOrChunk) > size ==> lenRead' == lenRead && sck.consumed == old(sck.consumed)
      ensures old(sck.AllHere()) && old(contentLengthOrChunk) <= size ==>
                |sck.consumed| == ReadTo(origin, sck.consumed + sck.pending, |old(sck.consumed)|, size - lenRead)
      ensures delivered == old(delivered) + data[lenRead..lenRead']
      ensures data[..lenRead] == old(data[..lenRead])
      ensures data[lenRead'..] == old(data[lenRead'..])
      ensures old(bodyReadDone) ==> bodyReadDone && endFrom == old(endFrom) && endTo == old(endTo)
      ensures old(bodyReadDone && contentLengthOrChunk == 0) ==> delivered == old(delivered)
      ensures !old(bodyReadDone) && bodyReadDone ==> EndSeen(origin, sck.consumed, endFrom, endTo, delivered)
    {
      hide Run, Output, EndLine, EndSeen, HttpClient.Tracks, ReadTo, LineStop;
      lenRead' := lenRead;
      ghost var all, goal, room := sck.consumed + sck.pending, |sck.consumed|, size - lenRead;
      ghost var least := Least(Least(contentLengthOrChunk, room), sck.arrived);
      if size >= contentLengthOrChunk {
        goal := ReadTo(origin, all, goal, room);
        while lenRead' <= size
          invariant Valid() && state == ReadingBody && origin == old(origin)
          invariant lenRead <= lenRead' <= size
          invariant sck.consumed + sck.pending == old(sck.consumed + sck.pending)
          invariant old(sck.consumed) <= sck.consumed
          invariant (lenRead' == lenRead && contentLengthOrChunk == old(contentLengthOrChunk)
                     && sck.arrived == old(sck.arrived)) || |sck.consumed| > |old(sck.consumed)|
          invariant delivered == old(delivered) + data[lenRead..lenRead']
          invariant data[..lenRead] == old(data[..lenRead])
          invariant data[lenRead'..] == old(data[lenRead'..])
          invariant old(bodyReadDone) ==> bodyReadDone && endFrom == old(endFrom) && endTo == old(endTo)
          invariant old(bodyReadDone && contentLengthOrChunk == 0) ==>
                      contentLengthOrChunk == 0 && delivered == old(delivered)
          invariant !old(bodyReadDone) && bodyReadDone ==> Ended()
          invariant sck.Here() >= old(sck.Here()) && (old(sck.AllHere()) ==> sck.AllHere())
          invariant lenRead' - lenRead >= least ||
                    (contentLengthOrChunk == old(contentLengthOrChunk) - (lenRead' - lenRead)
                     && |sck.consumed| == |old(sck.consumed)| + (lenRead' - lenRead))
          invariant old(sck.AllHere()) ==> goal == ReadTo(origin, all, |sck.consumed|, size - lenRead')
          decreases size - lenRead'
        {
          ghost var before, given, wasDone := data[..], delivered, bodyReadDone;
          ghost var consumed := sck.consumed;
          var next, tmpLenRead := Round(data, size, lenRead');
          Extend(before, data[..], lenRead, lenRead', next);
          lenRead' := next;
          if wasDone && !old(bodyReadDone) {
            EndSeenLater(consumed, sck.consumed, given, delivered);
          } else if bodyReadDone && !old(bodyReadDone) {
            EndedNow();
          }
          if state != ReadingBody || tmpLenRead == 0 {
            return;
          }
        }
      }
    }

    lemma FirstPart(before: seq<byte>, pending: seq<byte>, size: nat, k: nat, now: nat)
      requires var left := Run(origin, before).left;
        && k <= size && k <= |pending| && (left <= size ==> k == 0) && (left > size > 0 && pending != [] ==> k > 0)
        && now == if left <= size + k then ReadTo(origin, before + pending, |before| + k, size - k) else |before| + k
      ensures StopsAt(origin, before + pending, |before|, size, now)
    {
      hide Run, ReadTo;
      assert (before + pending)[..|before|] == before;
      assert now == AfterFirst(origin, before + pending, |before|, size, k);
    }

    /** The part of read_chunked_data after the line. */
    method ReadData(data: array<byte>, size: nat) returns (lenRead: nat)
      requires Valid() && state == ReadingBody && size <= data.Length
      modifies this, sck, data
      ensures Valid() && lenRead <= size && origin == old(origin) && !state.ConnIdle?
      ensures old(sck.AllHere()) ==> sck.AllHere()
      ensures sck.consumed + sck.pending == old(sck.consumed + sck.pending)
      ensures old(sck.consumed) <= sck.consumed
      ensures size > 0 && old(contentLengthOrChunk > 0 && sck.arrived > 0) ==> |sck.consumed| > |old(sck.consumed)|
      ensures var left := old(contentLengthOrChunk);
        lenRead >= if left <= size then Least(left, old(sck.arrived))
                   else if size > 0 then Least(1, old(sck.arrived)) else 0
      ensures old(sck.AllHere()) ==>
                StopsAt(origin, sck.consumed + sck.pending, |old(sck.consumed)|, size, |sck.consumed|)
      ensures delivered == old(delivered) + data[..lenRead]
      ensures data[lenRead..] == old(data[lenRead..])
      ensures old(bodyReadDone) ==> bodyReadDone && endFrom == old(endFrom) && endTo == old(endTo)
      ensures old(bodyReadDone && contentLengthOrChunk == 0) ==> delivered == old(delivered)
      ensures !old(bodyReadDone) && bodyReadDone ==> EndSeen(origin, sck.consumed, endFrom, endTo, delivered)
    {
      hide Run, Output, EndSeen, HttpClient.Tracks, ReadTo;
      InData();
      lenRead := ReadSmallChunk(data, size);
      ghost var before := data[..];
      assert old(delivered) + [] == old(delivered);
      var more := ReadBigChunk(data, size, lenRead);
      Extend(before, data[..], 0, lenRead, more);
      if old(sck.AllHere()) {
        FirstPart(old(sck.consumed), old(sck.pending), size, lenRead, |sck.consumed|);
      }
      lenRead := more;
    }

    /** A call has begun with part of a line, or a whole one if everything was here, and taken
        some of the data that it announced. */
    ghost predicate LineFirst(from: nat, lineTo: nat, ready: bool, size: nat)
      reads this, sck
    {
      && from <= lineTo <= |sck.consumed| && WithinLine(origin, sck.consumed, from, lineTo)
      && (ready && lineTo < |sck.consumed + sck.pending| ==>
            && from < lineTo && LineEndsAt(origin, sck.consumed, lineTo)
            && (size > 0 && Run(origin, sck.consumed[..lineTo]).left > 0 ==> lineTo < |sck.consumed|))
    }

    lemma Tracking()
      requires Valid()
      ensures delivered == Output(origin, sck.consumed) && bodyReadDone == Run(origin, sck.consumed).done
      ensures !state.ConnIdle? ==> contentLengthOrChunk == Run(origin, sck.consumed).left
    {
    }

    lemma LineFirstNow(from: nat, s: seq<byte>, ready: bool, size: nat)
      requires s <= sck.consumed && from <= |s| && WithinLine(origin, s, from, |s|)
      requires ready && |s| < |sck.consumed + sck.pending| ==>
        && from < |s| && LineEndsAt(origin, s, |s|)
        && (size > 0 && Run(origin, s).left > 0 ==> |s| < |sck.consumed|)
      ensures LineFirst(from, |s|, ready, size)
    {
      hide Run, WithinLine, LineEndsAt;
      WithinLineGrows(origin, s, sck.consumed, from, |s|);
      assert sck.consumed[..|s|] == s;
      if s != [] {
        LineEndsGrows(origin, s, sck.consumed, |s|);
      }
    }

    lemma StopsAtEnd(s: seq<byte>, size: nat)
      ensures StopsAt(origin, s + [], |s|, size, |s|)
    {
      hide Run;
      assert s + [] == s;
      assert AfterFirst(origin, s, |s|, size, 0) == |s|;
    }

    /** What is given out after the line: the rest of the chunk, or all that had arrived; at least
        one byte, if one had, when the chunk does not fit. */
    ghost predicate Given(lineTo: nat, size: nat, given: nat, here: nat)
      reads this, sck
    {
      && lineTo <= |sck.consumed|
      && var left := Run(origin, sck.consumed[..lineTo]).left;
      if left <= size then given >= left || lineTo + given >= here
      else size > 0 ==> given > 0 || lineTo >= here
    }

    lemma GivenNow(s: seq<byte>, size: nat, given: nat, here: nat)
      requires s <= sck.consumed
      requires var left := Run(origin, s).left;
        if left <= size then given >= left || |s| + given >= here else size > 0 ==> given > 0 || |s| >= here
      ensures Given(|s|, size, given, here)
    {
      hide Run;
      assert sck.consumed[..|s|] == s;
    }

    /** read_chunked_data */
    method ReadChunkedData(data: array<byte>, size: nat) returns (lenRead: nat, ghost lineTo: nat)
      requires Valid() && size <= data.Length
      modifies this, sck, data
      ensures Valid() && lenRead <= size && origin == old(origin)
      ensures state.ConnIdle? <==> old(state).ConnIdle?
      ensures sck.consumed + sck.pending == old(sck.consumed + sck.pending)
      ensures old(sck.consumed) <= sck.consumed
      ensures size > 0 && old(!state.ConnIdle? && sck.arrived > 0) ==> |sck.consumed| > |old(sck.consumed)|
      ensures old(state).ConnIdle? ==> sck.consumed == old(sck.consumed)
      ensures delivered == old(delivered) + data[..lenRead]
      ensures data[lenRead..] == old(data[lenRead..])
      ensures old(bodyReadDone) ==> bodyReadDone
      ensures !old(bodyReadDone) && bodyReadDone ==> EndSeen(origin, sck.consumed, endFrom, endTo, delivered)
      ensures LineFirst(|old(sck.consumed)|, lineTo, old(sck.AllHere() && ReadsLine()), size)
      ensures old(sck.AllHere()) ==> sck.AllHere()
      ensures old(!state.ConnIdle?) ==> Given(lineTo, size, lenRead, old(sck.Here()))
      ensures old(!state.ConnIdle? && sck.AllHere()) ==>
                var all, from := sck.consumed + sck.pending, |old(sck.consumed)|;
                && lineTo == (if old(ReadsLine()) then LineStop(origin, all, from) else from)
                && StopsAt(origin, all, lineTo, size, |sck.consumed|)
    {
      hide Run, Output, WithinLine, LineEndsAt, EndLine, EndSeen, HttpClient.Tracks, HttpClient.LineFirst;
      hide StopsAt, LineStop, HttpClient.Given;
      ghost var from, ready := |sck.consumed|, sck.AllHere() && ReadsLine();
      ReadChunkLine();
      ghost var consumed, given, seen := sck.consumed, delivered, bodyReadDone && !old(bodyReadDone);
      if seen && !state.ConnIdle? {
        EndedNow();
      }
      lineTo, lenRead := |consumed|, 0;
      if state != ReadingBody {
        LineFirstNow(from, consumed, ready, size);
        if !state.ConnIdle? {
          GivenNow(consumed, size, 0, old(sck.Here()));
          if sck.pending == [] {
            StopsAtEnd(consumed, size);
          }
        }
        return;
      }
      Tracking();
      lenRead := ReadData(data, size);
      GivenNow(consumed, size, lenRead, old(sck.Here()));
      if seen {
        EndSeenLater(consumed, sck.consumed, given, delivered);
      }
      LineFirstNow(from, consumed, ready, size);
    }

    /**
     * pico_http_client_read_body, for a chunked response. The flag the caller passes in
     * is only ever set.
     */
    method ReadBody(data: array<byte>, size: nat, seen: bool) returns (bytesRead: nat, done: bool, ghost lineTo: nat)
      requires Valid() && size < 0x1_0000 && size <= data.Length
      modifies this, sck, data
      ensures Valid() && bytesRead <= size && origin == old(origin)
      ensures delivered == old(delivered) + data[..bytesRead]
      ensures data[bytesRead..] == old(data[bytesRead..])
      ensures old(sck.consumed) <= sck.consumed
      ensures sck.consumed + sck.pending == old(sck.consumed + sck.pending)
      ensures done <==> seen || bodyReadDone
      ensures state.ConnIdle? <==> bodyReadDone || old(state).ConnIdle?
      ensures old(state).ConnIdle? ==> sck.consumed == old(sck.consumed)
      ensures size > 0 && old(!state.ConnIdle? && sck.arrived > 0) ==> |sck.consumed| > |old(sck.consumed)|
      ensures old(bodyReadDone) ==> bodyReadDone
      ensures !old(bodyReadDone) && bodyReadDone ==> EndSeen(origin, sck.consumed, endFrom, endTo, delivered)
      ensures LineFirst(|old(sck.consumed)|, lineTo, old(sck.AllHere() && ReadsLine()), size)
      ensures old(sck.AllHere()) ==> sck.AllHere()
      ensures old(!state.ConnIdle?) ==> Given(lineTo, size, bytesRead, old(sck.Here()))
      ensures old(!state.ConnIdle? && sck.AllHere()) ==>
                var all, from := sck.consumed + sck.pending, |old(sck.consumed)|;
                && lineTo == (if old(ReadsLine()) then LineStop(origin, all, from) else from)
                && StopsAt(origin, all, lineTo, size, |sck.consumed|)
    {
      hide Run, Output, EndSeen, WithinLine, LineEndsAt, StopsAt, LineStop;
      done := seen;
      bytesRead, lineTo := ReadChunkedData(data, size);
      if bodyReadDone {
        state := ConnIdle;
        done := true;
      }
    }
  }
}
