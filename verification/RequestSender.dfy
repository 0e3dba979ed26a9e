/**
 * How libhttp/pico_http_client.c writes a request: a list of parts, each with a count of
 * what the socket has taken, resumed at every write event.
 */
module RequestSender {
  import opened Bytes
  import opened Sockets

  /** struct request_part */
  class RequestPart {
    const buf: seq<byte>
    const copied: bool     // HTTP_COPY_TO_HEAP
    const userMem: bool    // HTTP_USER_MEM
    var bufLenDone: nat

    constructor (buf: seq<byte>, copied: bool, userMem: bool)
      ensures this.buf == buf && this.copied == copied && this.userMem == userMem && bufLenDone == 0
    {
      this.buf, this.copied, this.userMem, bufLenDone := buf, copied, userMem, 0;
    }
  }

  datatype SendState = ConnIdle | WritingRequest | StartReadingHeader
  datatype Event = WriteSuccess | WriteProgressMade
  datatype LongPolling = NoLongPolling | PollClose | PollKeepAlive

  lemma AddMod(a: nat, b: nat)
    ensures (a % WORD + b) % WORD == (a + b) % WORD
  {
    assert a == a / WORD * WORD + a % WORD;
    assert (a + b) / WORD * WORD + (a + b) % WORD == a + b;
  }

  function Bufs(parts: seq<RequestPart>): (bufs: seq<seq<byte>>)
    ensures |bufs| == |parts|
  {
    seq(|parts|, i requires 0 <= i < |parts| => parts[i].buf)
  }

  /** The buffers that request_parts_destroy frees. */
  function ToFree(parts: seq<RequestPart>): seq<seq<byte>> {
    if parts == [] then []
    else
      var last := parts[|parts| - 1];
      ToFree(parts[..|parts| - 1]) + if last.copied || !last.userMem then [last.buf] else []
  }

  /** The buffers that are left alone. */
  function Kept(parts: seq<RequestPart>): seq<seq<byte>> {
    if parts == [] then []
    else
      var last := parts[|parts| - 1];
      Kept(parts[..|parts| - 1]) + if last.userMem && !last.copied then [last.buf] else []
  }

  /** The places of the parts whose buffers are given back. */
  function FreedPlaces(parts: seq<RequestPart>): seq<nat> {
    if parts == [] then []
    else
      var n := |parts| - 1;
      FreedPlaces(parts[..n]) + if parts[n].copied || !parts[n].userMem then [n] else []
  }

  lemma {:induction false} PlacesInOrder(parts: seq<RequestPart>)
    ensures var places := FreedPlaces(parts);
      && (forall i :: i in places <==> 0 <= i < |parts| && (parts[i].userMem ==> parts[i].copied))
      && (forall j, k :: 0 <= j < k < |places| ==> places[j] < places[k])
  {
    if parts != [] {
      var front := FreedPlaces(parts[..|parts| - 1]);
      PlacesInOrder(parts[..|parts| - 1]);
      assert forall k :: 0 <= k < |front| ==> front[k] in front;
    }
  }

  /** A buffer is given back, once, exactly if it was copied or did not come from the user. */
  lemma {:induction false} FreedExactly(parts: seq<RequestPart>)
    ensures var places := FreedPlaces(parts);
      && (forall i :: i in places <==> 0 <= i < |parts| && (parts[i].userMem ==> parts[i].copied))
      && (forall j, k :: 0 <= j < k < |places| ==> places[j] < places[k])
      && |ToFree(parts)| == |places|
      && forall k :: 0 <= k < |places| ==> places[k] < |parts| && ToFree(parts)[k] == parts[places[k]].buf
  {
    PlacesInOrder(parts);
    if parts != [] {
      FreedExactly(parts[..|parts| - 1]);
    }
  }

  /** What is known of the parts in terms of `done`, the first part that is not finished. */
  ghost predicate InOrder(parts: seq<RequestPart>, done: nat)
    reads parts
  {
    && done <= |parts|
    && (forall i :: 0 <= i < done ==> parts[i].bufLenDone == |parts[i].buf|)
    && (done < |parts| ==> parts[done].bufLenDone <= |parts[done].buf|)
    && (forall i :: done < i < |parts| ==> parts[i].bufLenDone == 0)
    && (forall i, j :: 0 <= i < j < |parts| ==> parts[i] != parts[j])
  }

  /** The sum of the counts. */
  ghost function TotalDone(parts: seq<RequestPart>): nat
    reads parts
  {
    if parts == [] then 0 else TotalDone(parts[..|parts| - 1]) + parts[|parts| - 1].bufLenDone
  }

  lemma {:induction false} ConcatSplit(bufs: seq<seq<byte>>, n: nat)
    requires n <= |bufs|
    ensures Concat(bufs) == Concat(bufs[..n]) + Concat(bufs[n..])
  {
    if n == 0 {
      assert bufs[..0] == [] && bufs[0..] == bufs;
    } else {
      ConcatSplit(bufs[1..], n - 1);
      assert bufs[..n][1..] == bufs[1..][..n - 1] && bufs[n..] == bufs[1..][n - 1..];
    }
  }

  /** All of the first n parts, and then k bytes of the next. */
  function Position(bufs: seq<seq<byte>>, n: nat, k: nat): nat
    requires n <= |bufs|
  {
    |Concat(bufs[..n])| + k
  }

  lemma ConcatFrom(bufs: seq<seq<byte>>, n: nat)
    requires n < |bufs|
    ensures Concat(bufs[n..]) == bufs[n] + Concat(bufs[n + 1..])
  {
    assert bufs[n..][1..] == bufs[n + 1..];
  }

  lemma Tail(front: seq<byte>, mid: seq<byte>, rest: seq<byte>, k: nat)
    requires k <= |mid|
    ensures (front + (mid + rest))[|front| + k..] == mid[k..] + rest
  {
  }

  lemma PositionInside(bufs: seq<seq<byte>>, n: nat, k: nat)
    requires n < |bufs| && k <= |bufs[n]|
    ensures Position(bufs, n, k) + |bufs[n]| - k <= |Concat(bufs)|
    ensures bufs[n][k..] <= Concat(bufs)[Position(bufs, n, k)..]
    ensures k == |bufs[n]| ==> Position(bufs, n, k) == Position(bufs, n + 1, 0)
  {
    ConcatSplit(bufs, n);
    ConcatFrom(bufs, n);
    assert bufs[..n + 1] == bufs[..n] + [bufs[n]];
    ConcatSnoc(bufs[..n], bufs[n]);
    hide Concat;
    Tail(Concat(bufs[..n]), bufs[n], Concat(bufs[n + 1..]), k);
  }

  lemma PartWithin(parts: seq<RequestPart>, i: nat)
    requires i < |parts|
    ensures |parts[i].buf| <= |Concat(Bufs(parts))|
  {
    PositionInside(Bufs(parts), i, 0);
  }

  lemma PrefixOfTail<T>(all: seq<T>, p: nat, tail: seq<T>, j: nat)
    requires p <= |all| && tail <= all[p..] && j <= |tail|
    ensures p + j <= |all| && all[..p] + tail[..j] == all[..p + j]
  {
  }

  lemma {:induction false} TotalDoneIs(parts: seq<RequestPart>, done: nat)
    requires InOrder(parts, done)
    ensures TotalDone(parts) == Position(Bufs(parts), done, if done < |parts| then parts[done].bufLenDone else 0)
  {
    var bufs := Bufs(parts);
    if parts == [] {
      assert bufs[..0] == [];
    } else {
      var front, last := parts[..|parts| - 1], |parts| - 1;
      if done <= last {
        TotalDoneIs(front, done);
        assert Bufs(front)[..done] == bufs[..done];
      } else {
        TotalDoneIs(front, last);
        assert Bufs(front)[..last] == bufs[..last];
        assert bufs[..done] == bufs[..last] + [bufs[last]];
        ConcatSnoc(bufs[..last], bufs[last]);
      }
    }
  }

  lemma SumsSnoc(parts: seq<RequestPart>, i: nat)
    requires i < |parts|
    ensures TotalDone(parts[..i + 1]) == TotalDone(parts[..i]) + parts[i].bufLenDone
    ensures |Concat(Bufs(parts)[..i + 1])| == |Concat(Bufs(parts)[..i])| + |parts[i].buf|
  {
    var bufs := Bufs(parts);
    assert parts[..i + 1][..i] == parts[..i];
    assert bufs[..i + 1] == bufs[..i] + [bufs[i]];
    ConcatSnoc(bufs[..i], bufs[i]);
  }

  /** The summing loop of pico_http_client_get_write_progress, in 32-bit counters. */
  method Sums(parts: seq<RequestPart>) returns (written: nat, total: nat)
    ensures written == TotalDone(parts) % WORD && total == |Concat(Bufs(parts))| % WORD
  {
    ghost var bufs := Bufs(parts);
    written, total := 0, 0;
    var i := 0;
    while i < |parts|
      invariant 0 <= i <= |parts|
      invariant written == TotalDone(parts[..i]) % WORD
      invariant total == |Concat(bufs[..i])| % WORD
    {
      SumsSnoc(parts, i);
      AddMod(TotalDone(parts[..i]), parts[i].bufLenDone);
      AddMod(|Concat(bufs[..i])|, |bufs[i]|);
      written := (written + parts[i].bufLenDone) % WORD;
      total := (total + |parts[i].buf|) % WORD;
      i := i + 1;
    }
    assert parts[..i] == parts && bufs[..i] == bufs;
  }

  class Sender {
    var state: SendState
    var requestParts: seq<RequestPart>
    var hasParts: bool              // request_parts is not NULL
    var requestPartsLenDone: nat
    var longPolling: LongPolling
    var waitingForNewConn: bool
    const sck: OutSocket
    var events: seq<Event>
    ghost var sent: seq<byte>       // what the socket has taken of this request
    ghost var freed: seq<seq<byte>> // buffers given back

    /** The bytes of the request. */
    ghost function Request(): seq<byte>
      reads this
    {
      Concat(Bufs(requestParts))
    }

    /** How many bytes have been accepted: the whole parts and the one in progress. */
    ghost function Accepted(): nat
      requires InOrder(requestParts, requestPartsLenDone)
      reads this, requestParts
      ensures Accepted() <= |Request()|
    {
      var n := requestPartsLenDone;
      if n < |requestParts| then
        PositionInside(Bufs(requestParts), n, requestParts[n].bufLenDone);
        Position(Bufs(requestParts), n, requestParts[n].bufLenDone)
      else
        assert Bufs(requestParts)[..n] == Bufs(requestParts);
        Position(Bufs(requestParts), n, 0)
    }

    ghost predicate Valid()
      reads this, requestParts
    {
      && InOrder(requestParts, requestPartsLenDone)
      && (!hasParts ==> requestParts == [])
      && sent == Request()[..Accepted()]
    }

    constructor (sck: OutSocket, parts: seq<RequestPart>, longPolling: LongPolling)
      requires forall i :: 0 <= i < |parts| ==> parts[i].bufLenDone == 0
      requires forall i, j :: 0 <= i < j < |parts| ==> parts[i] != parts[j]
      ensures Valid() && this.sck == sck && requestParts == parts && hasParts && sent == []
      ensures requestPartsLenDone == 0
      ensures this.longPolling == longPolling && events == [] && freed == []
    {
      this.sck, requestParts, this.longPolling := sck, parts, longPolling;
      state, hasParts, requestPartsLenDone, waitingForNewConn := ConnIdle, true, 0, false;
      events, sent, freed := [], [], [];
      new;
      assert Bufs(parts)[..0] == [];
    }

    /** request_parts_destroy */
    method DestroyParts()
      modifies this`requestParts, this`hasParts, this`requestPartsLenDone, this`freed
      ensures requestParts == [] && !hasParts && requestPartsLenDone == 0
      ensures freed == old(freed) + ToFree(old(requestParts))
    {
      var i := 0;
      while i < |requestParts|
        invariant 0 <= i <= |requestParts| && requestParts == old(requestParts)
        invariant freed == old(freed) + ToFree(requestParts[..i])
      {
        assert requestParts[..i + 1][..i] == requestParts[..i];
        if requestParts[i].copied || !requestParts[i].userMem {
          freed := freed + [requestParts[i].buf];
        }
        i := i + 1;
      }
      assert requestParts[..i] == requestParts;
      requestParts, hasParts, requestPartsLenDone := [], false, 0;
    }

    /** One round of the loop below: what is left of one part goes to the socket. */
    method WritePart(part: RequestPart) returns (bytesWritten: nat, bytesToWrite: nat)
      requires Valid() && requestPartsLenDone < |requestParts| && part == requestParts[requestPartsLenDone]
      modifies part, sck, this`sent
      ensures Valid() && bytesToWrite == |part.buf| - old(part.bufLenDone)
      ensures bytesWritten == Least(bytesToWrite, sck.plan(old(sck.writes))) && sck.writes == old(sck.writes) + 1
      ensures part.bufLenDone == old(part.bufLenDone) + bytesWritten
      ensures Accepted() == old(Accepted()) + bytesWritten
      ensures sent == old(sent) + part.buf[old(part.bufLenDone)..][..bytesWritten]
      ensures sck.wire == old(sck.wire) + part.buf[old(part.bufLenDone)..][..bytesWritten]
    {
      ghost var bufs, n, k := Bufs(requestParts), requestPartsLenDone, part.bufLenDone;
      PositionInside(bufs, n, k);
      bytesToWrite := |part.buf| - part.bufLenDone;
      bytesWritten := sck.Write(part.buf[part.bufLenDone..]);
      part.bufLenDone := part.bufLenDone + bytesWritten;
      PositionInside(bufs, n, part.bufLenDone);
      PrefixOfTail(Concat(bufs), Position(bufs, n, k), bufs[n][k..], bytesWritten);
      sent := sent + part.buf[k..][..bytesWritten];
    }

    /** How much of part i had been taken before. */
    twostate function Before(i: nat): nat
      requires old(requestPartsLenDone < |requestParts|)
    {
      if i == old(requestPartsLenDone) then old(requestParts[requestPartsLenDone].bufLenDone) else 0
    }

    /** The last write of an event went to this part, the last-th of all. */
    twostate predicate LastWrite(new part: RequestPart, last: nat, bytesWritten: nat)
      requires old(requestPartsLenDone < |requestParts|)
      reads sck
    {
      && last >= old(requestPartsLenDone) && Before(last) <= |part.buf|
      && sck.writes == old(sck.writes) + last - old(requestPartsLenDone) + 1
      && bytesWritten == Least(|part.buf| - Before(last), sck.plan(sck.writes - 1))
    }

    /** A part has been written in full. */
    method NextPart()
      requires Valid() && requestPartsLenDone < |requestParts|
      requires var part := requestParts[requestPartsLenDone]; part.bufLenDone == |part.buf|
      modifies this`requestPartsLenDone
      ensures Valid() && requestPartsLenDone == old(requestPartsLenDone) + 1
      ensures requestPartsLenDone == |requestParts| ==> sent == Request()
    {
      ghost var bufs, n := Bufs(requestParts), requestPartsLenDone;
      PositionInside(bufs, n, |bufs[n]|);
      requestPartsLenDone := requestPartsLenDone + 1;
      if requestPartsLenDone == |requestParts| {
        assert bufs[..n + 1] == bufs;
      }
    }

    /** While a part is unfinished the request is. */
    lemma NotAll(n: nat)
      requires Valid() && n == requestPartsLenDone < |requestParts|
      requires requestParts[n].bufLenDone < |requestParts[n].buf|
      ensures sent != Request()
    {
      PositionInside(Bufs(requestParts), n, requestParts[n].bufLenDone);
      assert |sent| == Accepted() < |Request()|;
    }

    /** One round of the loop: a part is written, and counted if that finishes it. */
    method WriteCurrent() returns (bytesWritten: nat, finished: bool, ghost bytes: seq<byte>)
      requires Valid() && requestPartsLenDone < |requestParts|
      modifies this`requestPartsLenDone, this`sent, requestParts, sck
      ensures Valid() && sent == old(sent) + bytes && sck.wire == old(sck.wire) + bytes && |bytes| == bytesWritten
      ensures requestPartsLenDone == old(requestPartsLenDone) + if finished then 1 else 0
      ensures var left := old(|requestParts[requestPartsLenDone].buf| - requestParts[requestPartsLenDone].bufLenDone);
        left >= 0 && bytesWritten == Least(left, sck.plan(old(sck.writes))) && (finished <==> bytesWritten == left)
      ensures sck.writes == old(sck.writes) + 1 && requestPartsLenDone <= |requestParts|
      ensures var n := old(requestPartsLenDone);
        && requestParts[n].bufLenDone == old(requestParts[requestPartsLenDone].bufLenDone) + bytesWritten
        && (finished ==> requestParts[n].bufLenDone == |requestParts[n].buf|)
        && (finished && n + 1 < |requestParts| ==> requestParts[n + 1].bufLenDone == 0)
      ensures !finished ==> sent != Request()
      ensures requestPartsLenDone == |requestParts| ==> sent == Request()
    {
      hide Concat, Position;
      ghost var n := requestPartsLenDone;
      var part := requestParts[requestPartsLenDone];
      ghost var k := part.bufLenDone;
      var bytesToWrite;
      bytesWritten, bytesToWrite := WritePart(part);
      bytes := part.buf[k..][..bytesWritten];
      finished := bytesWritten == bytesToWrite;
      if finished {
        assert n + 1 < |requestParts| ==> requestParts[n + 1].bufLenDone == 0;
        NextPart();
      } else {
        NotAll(n);
      }
    }

    /**
     * The loop over the parts: one write each, until all of them are written or one is cut
     * short. The count returned is that of the last write.
     */
    method WriteLoop() returns (complete: bool, bytesWritten: nat, ghost more: seq<byte>)
      requires Valid() && requestPartsLenDone < |requestParts|
      modifies this`requestPartsLenDone, this`sent, requestParts, sck
      ensures requestPartsLenDone <= |requestParts|
      ensures Valid() && sent == old(sent) + more && sck.wire == old(sck.wire) + more && |more| >= bytesWritten
      ensures complete == (sent == Request()) && complete == (requestPartsLenDone == |requestParts|)
      ensures requestPartsLenDone >= old(requestPartsLenDone)
      ensures var last := if complete then |requestParts| - 1 else requestPartsLenDone;
        && LastWrite(requestParts[last], last, bytesWritten)
        && requestParts[last].bufLenDone == Before(last) + bytesWritten
        && (if complete then requestParts[last].bufLenDone == |requestParts[last].buf|
            else requestParts[last].bufLenDone < |requestParts[last].buf|)
    {
      hide Concat, Position, InOrder, Sender.Valid, Sender.Request;
      ghost var n, begun := requestPartsLenDone, requestParts[requestPartsLenDone].bufLenDone;
      complete, bytesWritten, more := false, 0, [];
      var i := requestPartsLenDone;
      while i < |requestParts|
        invariant i == requestPartsLenDone && i < |requestParts| && !complete
        invariant Valid() && n <= i
        invariant requestParts[i].bufLenDone == if i == n then begun else 0
        invariant sent == old(sent) + more && sck.wire == old(sck.wire) + more
        invariant sck.writes == old(sck.writes) + i - n
        decreases |requestParts| - i
      {
        var finished; ghost var bytes;
        bytesWritten, finished, bytes := WriteCurrent();
        more := more + bytes;
        if !finished {
          return;
        }
        if requestPartsLenDone == |requestParts| {
          return true, bytesWritten, more;
        }
        i := i + 1;
      }
    }

    /** The loop of socket_write_request_parts, and the state it sets first. */
    method WriteParts() returns (complete: bool, bytesWritten: nat, ghost more: seq<byte>)
      requires Valid() && requestPartsLenDone < |requestParts|
      modifies this`state, this`requestPartsLenDone, this`sent, requestParts, sck
      ensures state == WritingRequest && requestPartsLenDone <= |requestParts|
      ensures Valid() && sent == old(sent) + more && sck.wire == old(sck.wire) + more && |more| >= bytesWritten
      ensures complete == (sent == Request()) && complete == (requestPartsLenDone == |requestParts|)
      ensures requestPartsLenDone >= old(requestPartsLenDone)
      ensures var last := if complete then |requestParts| - 1 else requestPartsLenDone;
        && LastWrite(requestParts[last], last, bytesWritten)
        && requestParts[last].bufLenDone == Before(last) + bytesWritten
        && (if complete then requestParts[last].bufLenDone == |requestParts[last].buf|
            else requestParts[last].bufLenDone < |requestParts[last].buf|)
    {
      hide Concat, Position;
      state := WritingRequest;
      complete, bytesWritten, more := WriteLoop();
    }

    /** The last part has been written. */
    method Completed()
      modifies this
      ensures Valid() && requestParts == [] && !hasParts && requestPartsLenDone == 0
      ensures state == StartReadingHeader && events == old(events) + [WriteSuccess]
      ensures freed == old(freed) + ToFree(old(requestParts)) && longPolling == old(longPolling)
      ensures waitingForNewConn == (old(waitingForNewConn) || longPolling == PollClose)
    {
      DestroyParts();
      sent := [];
      state := StartReadingHeader;
      if longPolling == PollClose {
        waitingForNewConn := true;
      }
      events := events + [WriteSuccess];
    }

    /**
     * socket_write_request_parts. The socket takes the next bytes of the request, and
     * EV_HTTP_WRITE_SUCCESS fires when and only when that completes it. The count
     * returned is that of the last write alone, into the last part it got to.
     */
    method SocketWriteRequestParts() returns (bytesWritten: nat, ghost more: seq<byte>)
      requires Valid() && requestPartsLenDone < |requestParts|
      modifies this, requestParts, sck
      ensures Valid()
      ensures sck.wire == old(sck.wire) + more && old(sent) + more <= old(Request()) && |more| >= bytesWritten
      ensures longPolling == old(longPolling)
      ensures old(sent) + more == old(Request()) ==>
                && requestParts == [] && !hasParts && state == StartReadingHeader
                && events == old(events) + [WriteSuccess]
                && freed == old(freed) + ToFree(old(requestParts))
                && var last := |old(requestParts)| - 1;
                && LastWrite(old(requestParts)[last], last, bytesWritten)
                && Before(last) + bytesWritten == |old(requestParts)[last].buf|
      ensures old(sent) + more != old(Request()) ==>
                && requestParts == old(requestParts) && hasParts == old(hasParts)
                && state == WritingRequest && events == old(events) && freed == old(freed)
                && sent == old(sent) + more && requestPartsLenDone < |requestParts|
                && requestPartsLenDone >= old(requestPartsLenDone)
                && var part := requestParts[requestPartsLenDone];
                && LastWrite(part, requestPartsLenDone, bytesWritten)
                && Before(requestPartsLenDone) + bytesWritten == part.bufLenDone < |part.buf|
    {
      hide Concat, Position, InOrder, Sender.LastWrite, Sender.Before;
      var complete;
      complete, bytesWritten, more := WriteParts();
      if complete {
        Completed();
      }
    }

    /** How much has been sent, when k bytes of the part in progress have. */
    lemma SamePart(before: nat, k: nat)
      requires Valid() && requestPartsLenDone < |requestParts|
      requires before == Position(Bufs(requestParts), requestPartsLenDone, k)
      ensures |sent| == before + requestParts[requestPartsLenDone].bufLenDone - k
    {
    }

    /**
     * treat_write_event. Success is reported exactly when the request completes. Progress is
     * reported exactly when the last write of the event, to the last part it got to, took
     * something, whatever the writes before it did.
     */
    method TreatWriteEvent() returns (ghost more: seq<byte>, ghost lastWrite: nat)
      requires Valid()
      modifies this, requestParts, sck
      ensures Valid() && sck.wire == old(sck.wire) + more && old(sent) + more <= old(Request())
      ensures longPolling == old(longPolling)
      ensures old(requestPartsLenDone == |requestParts|) ==> more == [] && events == old(events)
      ensures old(requestPartsLenDone == |requestParts|) ==>
                requestParts == old(requestParts) && hasParts == old(hasParts) && state == old(state)
                && requestPartsLenDone == old(requestPartsLenDone) && sck.writes == old(sck.writes)
                && freed == old(freed)
      ensures old(requestPartsLenDone < |requestParts|) ==>
                events == old(events)
                  + (if old(sent) + more == old(Request()) then [WriteSuccess] else [])
                  + (if lastWrite != 0 && longPolling == NoLongPolling then [WriteProgressMade] else [])
      ensures old(requestPartsLenDone < |requestParts|) && old(sent) + more == old(Request()) ==>
                && requestParts == [] && !hasParts && state == StartReadingHeader
                && freed == old(freed) + ToFree(old(requestParts))
                && var last := |old(requestParts)| - 1;
                && LastWrite(old(requestParts)[last], last, lastWrite)
                && Before(last) + lastWrite == |old(requestParts)[last].buf|
      ensures old(requestPartsLenDone < |requestParts|) && old(sent) + more != old(Request()) ==>
                && requestParts == old(requestParts) && hasParts == old(hasParts) && state == WritingRequest
                && sent == old(sent) + more && requestPartsLenDone < |requestParts| && freed == old(freed)
                && requestPartsLenDone >= old(requestPartsLenDone)
                && var part := requestParts[requestPartsLenDone];
                && LastWrite(part, requestPartsLenDone, lastWrite)
                && Before(requestPartsLenDone) + lastWrite == part.bufLenDone < |part.buf| && |more| >= lastWrite
                && (requestPartsLenDone == old(requestPartsLenDone) ==> |more| == lastWrite)
    {
      hide Concat, Position, Sender.LastWrite;
      more, lastWrite := [], 0;
      if requestPartsLenDone != |requestParts| {
        var bytesWritten;
        bytesWritten, more := SocketWriteRequestParts();
        lastWrite := bytesWritten;
        if requestPartsLenDone < |requestParts| && requestPartsLenDone == old(requestPartsLenDone) {
          SamePart(old(|sent|), old(requestParts[requestPartsLenDone].bufLenDone));
        }
        if bytesWritten != 0 && longPolling == NoLongPolling {
          events := events + [WriteProgressMade];
        }
      }
    }

    /** pico_http_client_get_write_progress, with both pointers given. */
    method GetWriteProgress() returns (ok: bool, written: nat, total: nat)
      requires Valid()
      ensures ok == hasParts
      ensures ok ==> written == Accepted() % WORD && total == |Request()| % WORD
    {
      if !hasParts {
        return false, 0, 0;
      }
      TotalDoneIs(requestParts, requestPartsLenDone);
      hide InOrder, Concat;
      written, total := Sums(requestParts);
      ok := true;
    }
  }

  lemma TwoParts(first: RequestPart, second: RequestPart)
    ensures Concat(Bufs([first, second])) == first.buf + second.buf
  {
    var bufs := Bufs([first, second]);
    assert bufs == [first.buf, second.buf];
    var rest := bufs[1..];
    assert rest == [second.buf] && rest[1..] == [];
    assert Concat(bufs) == first.buf + (second.buf + Concat(rest[1..]));
  }

  lemma FirstPart(sender: Sender)
    requires sender.Valid() && |sender.requestParts| == 2 && sender.requestPartsLenDone == 1
    requires sender.requestParts[1].bufLenDone == 0 && sender.requestParts[0].buf == [1]
    ensures sender.sent == [1]
  {
    var bufs := Bufs(sender.requestParts);
    TwoParts(sender.requestParts[0], sender.requestParts[1]);
    assert sender.requestParts == [sender.requestParts[0], sender.requestParts[1]];
    var one := bufs[..1];
    assert one == [[1]] && one[1..] == [];
    assert Concat(one) == [1] + Concat(one[1..]);
  }

  /** An event in which bytes are taken and no progress is reported: the first of two parts
      goes out, and then the socket takes nothing of the second. */
  method SilentProgress() returns (sender: Sender)
    ensures sender.Valid() && sender.sck.wire == [1] && sender.events == []
  {
    hide Concat, Position;
    var out := new OutSocket(i => if i == 0 then 1 else 0);
    var first := new RequestPart([1], false, true);
    var second := new RequestPart([2], false, true);
    sender := new Sender(out, [first, second], NoLongPolling);
    assert sender.Request() == [1, 2] by { TwoParts(first, second); }
    ghost var more, lastWrite := sender.TreatWriteEvent();
    assert lastWrite == 0;
    FirstPart(sender);
  }

  function Successes(events: seq<Event>): nat {
    multiset(events)[WriteSuccess]
  }

  lemma SuccessesSum(events: seq<Event>, more: seq<Event>)
    ensures Successes(events + more) == Successes(events) + Successes(more)
  {
  }

  lemma SuccessesReported(events: seq<Event>, complete: bool, progress: bool)
    ensures Successes(events + (if complete then [WriteSuccess] else [])
                             + (if progress then [WriteProgressMade] else []))
         == Successes(events) + if complete then 1 else 0
  {
    SuccessesSum(events, if complete then [WriteSuccess] else []);
    SuccessesSum(events + (if complete then [WriteSuccess] else []), if progress then [WriteProgressMade] else []);
  }

  /** A write that did not take all it was given took at least as much as any write does. */
  lemma WriteCutShort(from: nat, writes: nat, plan: nat -> nat, least: nat, left: nat, taken: nat)
    requires TakesAtLeast(from, plan, least) && from < writes
    requires taken == Least(left, plan(writes - 1)) && taken < left
    ensures taken >= least && TakesAtLeast(writes, plan, least)
  {
  }

  /** One write event while part of the request is left. */
  method OneEvent(sender: Sender, ghost least: nat) returns (ghost bytes: seq<byte>)
    requires sender.Valid() && sender.requestPartsLenDone < |sender.requestParts|
    modifies sender, sender.requestParts, sender.sck
    ensures sender.Valid() && sender.sck.wire == old(sender.sck.wire) + bytes
    ensures old(sender.sent) + bytes <= old(sender.Request())
    ensures Successes(sender.events) == old(Successes(sender.events))
              + if old(sender.sent) + bytes == old(sender.Request()) then 1 else 0
    ensures old(sender.sent) + bytes == old(sender.Request()) ==>
              sender.requestParts == [] && sender.requestPartsLenDone == 0 && !sender.hasParts
    ensures old(sender.sent) + bytes != old(sender.Request()) ==>
              && sender.requestParts == old(sender.requestParts) && sender.hasParts == old(sender.hasParts)
              && sender.sent == old(sender.sent) + bytes && sender.requestPartsLenDone < |sender.requestParts|
              && (old(TakesAtLeast(sender.sck.writes, sender.sck.plan, least)) ==>
                    |bytes| >= least && TakesAtLeast(sender.sck.writes, sender.sck.plan, least))
  {
    hide Concat, Successes, TakesAtLeast, ToFree;
    ghost var complete, before, from := false, sender.events, sender.sck.writes;
    ghost var steady := TakesAtLeast(sender.sck.writes, sender.sck.plan, least);
    ghost var lastWrite;
    bytes, lastWrite := sender.TreatWriteEvent();
    complete := old(sender.sent) + bytes == old(sender.Request());
    SuccessesReported(before, complete, lastWrite != 0 && sender.longPolling == NoLongPolling);
    if steady && !complete {
      var part := sender.requestParts[sender.requestPartsLenDone];
      var left := |part.buf| - (part.bufLenDone - lastWrite);
      WriteCutShort(from, sender.sck.writes, sender.sck.plan, least, left, lastWrite);
    }
  }

  /**
   * Any number of write events, with whatever the socket takes at each: what it has taken
   * is a prefix of the request, and success has been reported once if that is all of the
   * request, and else not at all. It is all of it after as many events as it takes if each
   * brought `least` bytes, the least that any of the writes takes.
   */
  method AnyWriteEvents(sender: Sender, n: nat, ghost least: nat) returns (ghost more: seq<byte>)
    requires sender.Valid() && sender.requestPartsLenDone < |sender.requestParts|
    modifies sender, sender.requestParts, sender.sck
    ensures old(TakesAtLeast(sender.sck.writes, sender.sck.plan, least))
            && n * least >= old(|sender.Request()| - |sender.sent|) ==>
              old(sender.sent) + more == old(sender.Request())
    ensures sender.Valid() && sender.sck.wire == old(sender.sck.wire) + more
    ensures old(sender.sent) + more <= old(sender.Request())
    ensures n > 0 ==>
              Successes(sender.events) == old(Successes(sender.events))
                + if old(sender.sent) + more == old(sender.Request()) then 1 else 0
    ensures n > 0 ==>
              sender.hasParts == (old(sender.hasParts) && old(sender.sent) + more != old(sender.Request()))
  {
    hide Concat, Successes, TakesAtLeast, ToFree;
    ghost var request, parts, now := sender.Request(), sender.requestParts, sender.sent;
    ghost var complete, atLeast := false, 0;
    ghost var steady := TakesAtLeast(sender.sck.writes, sender.sck.plan, least);
    more := [];
    assert now + more == now;
    for i := 0 to n
      invariant sender.Valid() && sender.sck.wire == old(sender.sck.wire) + more
      invariant now == old(sender.sent) + more && now <= request
      invariant !complete ==> sender.requestParts == parts && sender.sent == now
      invariant !complete ==> sender.requestPartsLenDone < |parts| && sender.hasParts == old(sender.hasParts)
      invariant complete ==> sender.requestParts == [] && sender.requestPartsLenDone == 0 && !sender.hasParts
      invariant i > 0 ==> complete == (now == request)
      invariant complete ==> i > 0
      invariant steady && !complete ==> |more| >= atLeast && TakesAtLeast(sender.sck.writes, sender.sck.plan, least)
      invariant atLeast == i * least
      invariant Successes(sender.events) == old(Successes(sender.events)) + if complete then 1 else 0
    {
      ghost var bytes, lastWrite;
      if sender.requestPartsLenDone == |sender.requestParts| {
        bytes, lastWrite := sender.TreatWriteEvent();
      } else {
        bytes := OneEvent(sender, least);
        complete := now + bytes == request;
      }
      atLeast := atLeast + least;
      Together(old(sender.sent), more, bytes, []);
      Together(old(sender.sck.wire), more, bytes, []);
      now, more := now + bytes, more + bytes;
    }
  }

  /** A request is sent as far as the socket takes it, and the rest at the write events. */
  method SendAll(sender: Sender, n: nat, ghost least: nat) returns (ghost more: seq<byte>)
    requires sender.Valid() && sender.requestParts != [] && sender.requestPartsLenDone == 0 && sender.sent == []
    modifies sender, sender.requestParts, sender.sck
    ensures sender.Valid() && sender.sck.wire == old(sender.sck.wire) + more && more <= old(sender.Request())
    ensures Successes(sender.events) == old(Successes(sender.events))
              + if more == old(sender.Request()) then 1 else 0
    ensures old(TakesAtLeast(sender.sck.writes, sender.sck.plan, least))
            && (n + 1) * least >= old(|sender.Request()|) ==>
              more == old(sender.Request())
  {
    hide Concat, Successes, Position;
    ghost var first;
    var written;
    written, first := sender.SocketWriteRequestParts();
    more := first;
    ghost var complete := first == old(sender.Request());
    SuccessesReported(old(sender.events), complete, false);
    assert sender.events == old(sender.events) + (if complete then [WriteSuccess] else []) + [];
    if sender.requestPartsLenDone != |sender.requestParts| && n > 0 {
      ghost var rest := AnyWriteEvents(sender, n, least);
      Together(old(sender.sck.wire), first, rest, []);
      more := first + rest;
    }
  }
}
