/**
 * What the client makes of a body some of whose control writes were cut short: for which
 * counts taken it is right whatever the data, in terms of lengths and counts alone.
 */
module CutWrites {
  import opened Bytes
  import opened HttpUtil
  import opened ChunkedCoding
  import opened HttpServer

  /** Other data of the same lengths. */
  predicate SameLengths(chunks: seq<Chunk>, others: seq<Chunk>) {
    Plain(others) && |others| == |chunks| && forall i :: 0 <= i < |chunks| ==> |others[i].data| == |chunks[i].data|
  }

  /** What is on the wire once the last chunk has been written. */
  function CutBody(chunks: seq<Chunk>, taken: seq<Taken>, last: nat): seq<byte>
    requires |chunks| == |taken|
  {
    WireFrames(chunks, taken) + Cut(LastChunk([]), last)
  }

  /** At every cut the client has handed out part of the payload, and all of it if it reports
      the end or has read everything. */
  ghost predicate Right(chunks: seq<Chunk>, taken: seq<Taken>, last: nat)
    requires |chunks| == |taken|
  {
    var body := CutBody(chunks, taken, last);
    && Output(START, body) == Payload(chunks)
    && forall p :: p <= body ==>
      Output(START, p) <= Payload(chunks) && (Run(START, p).done ==> Output(START, p) == Payload(chunks))
  }

  /** The size line was taken in full. */
  predicate LineWhole(c: Chunk, k: Taken) {
    |SizeLine(|c.data|, [])| <= k.line
  }

  /** The i-th chunk's size line was taken in full, and its line end not cut, unless it is that
      of the last chunk. A line end of which nothing was taken does no harm. */
  predicate Harmless(chunks: seq<Chunk>, taken: seq<Taken>, i: nat)
    requires i < |chunks| == |taken|
  {
    LineWhole(chunks[i], taken[i]) && (taken[i].end == 1 ==> i == |chunks| - 1)
  }

  ghost predicate AllHarmless(chunks: seq<Chunk>, taken: seq<Taken>)
    requires |chunks| == |taken|
  {
    forall i :: 0 <= i < |chunks| ==> Harmless(chunks, taken, i)
  }

  /** The line end of the last chunk was not cut in half. */
  predicate LastEndWhole(taken: seq<Taken>) {
    taken != [] ==> taken[|taken| - 1].end != 1
  }

  /** Half a line end: the rest of a line is skipped. */
  const HALF := Decoder(ChunkTrail, 0, false)

  // ----- where it is right -----

  lemma RunEnd(k: nat)
    ensures Output(START, Cut(CRLF, k)) == [] && Run(START, Cut(CRLF, k)) == if k == 1 then HALF else START
  {
    RunDataEnd(Cut(CRLF, k));
    if k == 0 {
      RunEmpty(START);
    } else if k == 1 {
      assert [] + [CR] == Cut(CRLF, k);
      RunSnoc(START, [], CR);
    }
  }

  /** A chunk whose size line is whole. */
  lemma RunWireFrame(c: Chunk, k: Taken)
    requires 0 < |c.data| < WORD && LineWhole(c, k)
    ensures Output(START, WireFrame(c, k)) == c.data
    ensures Run(START, WireFrame(c, k)) == if k.end == 1 then HALF else START
  {
    hide Run, Output, SizeLine, Cut;
    var line := SizeLine(|c.data|, []);
    CutExact(line, k.line);
    RunSizeLine(|c.data|, [], line);
    RunLineAndData(line, c.data, c.data);
    RunEnd(k.end);
    RunConcat(START, line + c.data, Cut(CRLF, k.end));
  }

  /** All but the last of harmless chunks. */
  lemma FrontHarmless(chunks: seq<Chunk>, taken: seq<Taken>)
    requires |chunks| == |taken| && chunks != [] && AllHarmless(chunks, taken)
    ensures var n := |chunks| - 1;
      && AllHarmless(chunks[..n], taken[..n]) && LastEndWhole(taken[..n])
      && LineWhole(chunks[n], taken[n]) && (LastEndWhole(taken) <==> taken[n].end != 1)
  {
    hide LineWhole;
    var n := |chunks| - 1;
    forall i | 0 <= i < n ensures Harmless(chunks[..n], taken[..n], i) && taken[i].end != 1 {
      assert Harmless(chunks, taken, i);
    }
    assert Harmless(chunks, taken, n);
  }

  lemma NoChunks()
    ensures Payload([]) == [] && LastEndWhole([])
  {
  }

  /** Chunks of which only the last may have half a line end. */
  lemma {:induction false} RunWireFrames(chunks: seq<Chunk>, taken: seq<Taken>)
    requires Plain(chunks) && |chunks| == |taken| && AllHarmless(chunks, taken)
    ensures Output(START, WireFrames(chunks, taken)) == Payload(chunks)
    ensures Run(START, WireFrames(chunks, taken)) == if LastEndWhole(taken) then START else HALF
    decreases |chunks|
  {
    hide Run, Output, LineWhole, Payload, WireFrame, AllHarmless, LastEndWhole;
    if chunks == [] {
      RunEmpty(START);
      NoChunks();
    } else {
      var n := |chunks| - 1;
      FrontHarmless(chunks, taken);
      RunWireFrames(chunks[..n], taken[..n]);
      RunWireFrame(chunks[n], taken[n]);
      RunConcat(START, WireFrames(chunks[..n], taken[..n]), WireFrame(chunks[n], taken[n]));
      assert chunks == chunks[..n] + [chunks[n]];
      FramesSnoc(chunks[..n], chunks[n]);
    }
  }

  /** After half a line end the last chunk is read past. */
  lemma LastSkipped()
    ensures Output(HALF, LastChunk([])) == [] && !Run(HALF, LastChunk([])).done
  {
    hide Run, Output;
    LastChunkText();
    var s: seq<byte> := LastChunk([]);
    assert s[..0] == [] && s[..5] == s;
    RunEmpty(HALF);
    RunNextByte(HALF, s, 0);
    RunNextByte(HALF, s, 1);
    RunNextByte(HALF, s, 2);
    RunNextByte(HALF, s, 3);
    RunNextByte(HALF, s, 4);
  }

  /** The last chunk, and any part of it. */
  lemma RunCutLast(d: Decoder, last: nat)
    requires d == START || d == HALF
    ensures var s := Cut(LastChunk([]), last);
      Output(d, s) == [] && (Run(d, s).done <==> d == START && last > 0)
  {
    hide Run, Output;
    var s := Cut(LastChunk([]), last);
    LastChunkText();
    if d == START {
      RunLastChunk([], s);
    } else {
      LastSkipped();
      RunMonotone(d, s, LastChunk([]));
    }
  }

  lemma HarmlessIsRight(chunks: seq<Chunk>, taken: seq<Taken>, last: nat)
    requires Plain(chunks) && |chunks| == |taken| && AllHarmless(chunks, taken)
    ensures Right(chunks, taken, last)
    ensures Run(START, CutBody(chunks, taken, last)).done <==> last > 0 && LastEndWhole(taken)
  {
    hide Run, Output, Payload, AllHarmless, WireFrames, LastChunk, Cut;
    var frames, end := WireFrames(chunks, taken), Cut(LastChunk([]), last);
    RunWireFrames(chunks, taken);
    RunConcat(START, frames, end);
    RunCutLast(Run(START, frames), last);
    forall p | p <= frames + end
      ensures Output(START, p) <= Payload(chunks)
      ensures Run(START, p).done ==> Output(START, p) == Payload(chunks)
    {
      RunMonotone(START, p, frames + end);
      if |p| <= |frames| {
        RunMonotone(START, p, frames);
      } else {
        RunMonotone(START, frames, p);
      }
    }
  }

  // ----- where it is not -----

  const LETTER: byte := 65   // no digit of the server's, no delimiter

  /** Outside chunk data, letters leave no trace. */
  lemma {:induction false} RunLetters(d: Decoder, s: seq<byte>)
    requires !d.phase.Data? && forall i :: 0 <= i < |s| ==> s[i] == LETTER
    ensures Run(d, s) == d && Output(d, s) == []
  {
    if s != [] {
      RunLetters(d, s[..|s| - 1]);
    }
  }

  /** What is handed out was read. */
  lemma {:induction false} NothingMadeUp(d: Decoder, s: seq<byte>, c: byte)
    requires c !in s
    ensures c !in Output(d, s)
  {
    if s != [] {
      NothingMadeUp(d, s[..|s| - 1], c);
    }
  }

  lemma LineHasNone(size: nat)
    ensures LETTER !in SizeLine(size, [])
  {
    NumeralSound(size, 16);
    var digits := Numeral(size, 16);
    assert forall i :: 0 <= i < |digits| ==> 0 <= DigitValue(digits[i]);
  }

  lemma CutHasNone(s: seq<byte>, k: nat)
    requires LETTER !in s
    ensures LETTER !in Cut(s, k)
  {
  }

  lemma FrameHasNone(c: Chunk, k: Taken)
    requires LETTER !in c.data
    ensures LETTER !in WireFrame(c, k)
  {
    hide SizeLine, Cut;
    LineHasNone(|c.data|);
    CutHasNone(SizeLine(|c.data|, []), k.line);
    CutHasNone(CRLF, k.end);
  }

  /** The first chunks have no letter, the m-th only has, and the rest of them have none. */
  ghost predicate LettersAt(chunks: seq<Chunk>, m: nat) {
    && m < |chunks|
    && (forall i :: 0 <= i < |chunks| && i != m ==> LETTER !in chunks[i].data)
    && chunks[m].data != [] && forall j :: 0 <= j < |chunks[m].data| ==> chunks[m].data[j] == LETTER
  }

  lemma {:induction false} FirstHaveNone(chunks: seq<Chunk>, taken: seq<Taken>, m: nat, n: nat)
    requires |chunks| == |taken| && LettersAt(chunks, m) && n <= m
    ensures LETTER !in WireFrames(chunks[..n], taken[..n])
  {
    hide WireFrame;
    if n > 0 {
      FirstHaveNone(chunks, taken, m, n - 1);
      FrameHasNone(chunks[n - 1], taken[n - 1]);
      assert chunks[..n] == chunks[..n - 1] + [chunks[n - 1]] && taken[..n] == taken[..n - 1] + [taken[n - 1]];
      WireFramesSnoc(chunks[..n - 1], taken[..n - 1], chunks[n - 1], taken[n - 1]);
    }
  }

  /** What is on the wire up to the data of the m-th chunk. */
  function UpTo(chunks: seq<Chunk>, taken: seq<Taken>, m: nat): seq<byte>
    requires m < |chunks| == |taken|
  {
    WireFrames(chunks[..m], taken[..m]) + Cut(SizeLine(|chunks[m].data|, []), taken[m].line)
  }

  /** What follows those data has no letter. */
  lemma {:induction false} RestHasNone(chunks: seq<Chunk>, taken: seq<Taken>, m: nat, n: nat) returns (rest: seq<byte>)
    requires |chunks| == |taken| && LettersAt(chunks, m) && m < n <= |chunks|
    ensures WireFrames(chunks[..n], taken[..n]) == UpTo(chunks, taken, m) + chunks[m].data + rest
    ensures LETTER !in rest
  {
    hide SizeLine, Cut;
    var i := n - 1;
    assert chunks[..n] == chunks[..i] + [chunks[i]] && taken[..n] == taken[..i] + [taken[i]];
    WireFramesSnoc(chunks[..i], taken[..i], chunks[i], taken[i]);
    if i == m {
      rest := Cut(CRLF, taken[m].end);
      CutHasNone(CRLF, taken[m].end);
    } else {
      var before := RestHasNone(chunks, taken, m, i);
      FrameHasNone(chunks[i], taken[i]);
      rest := before + WireFrame(chunks[i], taken[i]);
    }
  }

  lemma {:induction false} PayloadHas(chunks: seq<Chunk>, m: nat)
    requires m < |chunks| && chunks[m].data != []
    ensures chunks[m].data[0] in Payload(chunks)
  {
    if m > 0 {
      PayloadHas(chunks[1..], m - 1);
    }
  }

  /** If the reader is not in chunk data where they begin, the letters are lost. */
  lemma LettersLost(chunks: seq<Chunk>, taken: seq<Taken>, last: nat, m: nat)
    requires |chunks| == |taken| && LettersAt(chunks, m)
    requires !Run(START, UpTo(chunks, taken, m)).phase.Data?
    ensures !Right(chunks, taken, last)
  {
    hide Run, Output, Payload, WireFrames, SizeLine, Cut;
    var front, letters, end := UpTo(chunks, taken, m), chunks[m].data, Cut(LastChunk([]), last);
    var rest := RestHasNone(chunks, taken, m, |chunks|);
    assert chunks[..|chunks|] == chunks && taken[..|taken|] == taken;
    LastChunkText();
    CutHasNone(LastChunk([]), last);
    FirstHaveNone(chunks, taken, m, m);
    LineHasNone(|letters|);
    CutHasNone(SizeLine(|letters|, []), taken[m].line);
    NothingMadeUp(START, front, LETTER);
    RunConcat(START, front, letters);
    RunLetters(Run(START, front), letters);
    RunConcat(START, front + letters, rest + end);
    NothingMadeUp(Run(START, front + letters), rest + end, LETTER);
    assert front + letters + rest + end == front + letters + (rest + end);
    PayloadHas(chunks, m);
  }

  /** Within a size line nothing is taken for data. */
  lemma WithinSizeLine(size: nat, k: nat)
    requires 0 < size < WORD && k < |SizeLine(size, [])|
    ensures !Run(START, Cut(SizeLine(size, []), k)).phase.Data?
  {
    hide Run, Output, SizeLine;
    var line := SizeLine(size, []);
    RunNextByte(START, line, k);
    RunSizeLine(size, [], line[..k + 1]);
  }

  /** Nor after half a line end. */
  lemma SizeLineSkipped(size: nat, k: nat)
    ensures !Run(HALF, Cut(SizeLine(size, []), k)).phase.Data?
  {
    hide Run, Output;
    var digits := Numeral(size, 16);
    NumeralSound(size, 16);
    var line := digits + [CR];
    assert LF !in line;
    assert SizeLine(size, []) == line + [LF];
    if k <= |line| {
      assert Cut(line + [LF], k) == line[..k];
      RunSkip(HALF, line[..k]);
    } else {
      CutExact(line + [LF], k);
      RunSkip(HALF, line);
      RunSnoc(HALF, line, LF);
    }
  }

  /** Data of these lengths, letters for the m-th chunk and noughts for the others. */
  function Marked(chunks: seq<Chunk>, m: nat): seq<Chunk> {
    seq(|chunks|, i requires 0 <= i < |chunks| =>
      Chunk([], seq(|chunks[i].data|, _ => if i == m then LETTER else ZERO)))
  }

  lemma MarkedIs(chunks: seq<Chunk>, m: nat)
    requires Plain(chunks) && m < |chunks|
    ensures SameLengths(chunks, Marked(chunks, m)) && LettersAt(Marked(chunks, m), m)
  {
  }

  lemma {:induction false} FirstHarm(chunks: seq<Chunk>, taken: seq<Taken>, n: nat) returns (i: nat)
    requires |chunks| == |taken| && n <= |chunks|
    requires forall j :: 0 <= j < n ==> Harmless(chunks, taken, j)
    requires !AllHarmless(chunks, taken)
    ensures i < |chunks| && !Harmless(chunks, taken, i) && forall j :: 0 <= j < i ==> Harmless(chunks, taken, j)
    decreases |chunks| - n
  {
    i := n;
    if Harmless(chunks, taken, n) {
      i := FirstHarm(chunks, taken, n + 1);
    }
  }

  /** After chunks that do no harm, a size line that is cut. */
  lemma LineCut(chunks: seq<Chunk>, taken: seq<Taken>, i: nat)
    requires |chunks| == |taken| && i < |chunks| && !LineWhole(chunks[i], taken[i]) && 0 < |chunks[i].data| < WORD
    requires Run(START, WireFrames(chunks[..i], taken[..i])) == START
    ensures !Run(START, UpTo(chunks, taken, i)).phase.Data?
  {
    hide Run, Output, SizeLine, WireFrames;
    var size := |chunks[i].data|;
    WithinSizeLine(size, taken[i].line);
    RunConcat(START, WireFrames(chunks[..i], taken[..i]), Cut(SizeLine(size, []), taken[i].line));
  }

  /** Or a line end that is. */
  lemma EndCut(chunks: seq<Chunk>, taken: seq<Taken>, i: nat)
    requires |chunks| == |taken| && i + 1 < |chunks| && taken[i].end == 1
    requires LineWhole(chunks[i], taken[i]) && 0 < |chunks[i].data| < WORD
    requires Run(START, WireFrames(chunks[..i], taken[..i])) == START
    ensures !Run(START, UpTo(chunks, taken, i + 1)).phase.Data?
  {
    hide Run, Output, SizeLine, WireFrames, WireFrame, Cut, LineWhole;
    var before, size, m := WireFrames(chunks[..i], taken[..i]), |chunks[i + 1].data|, i + 1;
    assert chunks[..m] == chunks[..i] + [chunks[i]] && taken[..m] == taken[..i] + [taken[i]];
    WireFramesSnoc(chunks[..i], taken[..i], chunks[i], taken[i]);
    RunWireFrame(chunks[i], taken[i]);
    RunConcat(START, before, WireFrame(chunks[i], taken[i]));
    SizeLineSkipped(size, taken[m].line);
    RunConcat(START, WireFrames(chunks[..m], taken[..m]), Cut(SizeLine(size, []), taken[m].line));
  }

  /** Whatever does harm first, there are data for which the client is wrong. */
  lemma HarmDone(chunks: seq<Chunk>, taken: seq<Taken>, last: nat) returns (others: seq<Chunk>)
    requires Plain(chunks) && |chunks| == |taken| && !AllHarmless(chunks, taken)
    ensures SameLengths(chunks, others) && !Right(others, taken, last)
  {
    hide Run, Output, Payload, WireFrames, SizeLine, UpTo, Right;
    var i := FirstHarm(chunks, taken, 0);
    var m := if LineWhole(chunks[i], taken[i]) then i + 1 else i;
    others := Marked(chunks, m);
    MarkedIs(chunks, m);
    forall j | 0 <= j < i ensures Harmless(others[..i], taken[..i], j) {
      assert Harmless(chunks, taken, j);
    }
    RunWireFrames(others[..i], taken[..i]);
    assert i > 0 ==> Harmless(chunks, taken, i - 1);
    if m == i {
      LineCut(others, taken, i);
    } else {
      EndCut(others, taken, i);
    }
    LettersLost(others, taken, last, m);
  }

  // ----- exactly where -----

  /** The client is right about these lengths and counts, whatever the data. */
  ghost predicate AlwaysRight(chunks: seq<Chunk>, taken: seq<Taken>, last: nat)
    requires |chunks| == |taken|
  {
    forall others :: SameLengths(chunks, others) ==> Right(others, taken, last)
  }

  /** And reports the end. */
  ghost predicate AlwaysEnds(chunks: seq<Chunk>, taken: seq<Taken>, last: nat)
    requires |chunks| == |taken|
  {
    forall others :: SameLengths(chunks, others) ==> Run(START, CutBody(others, taken, last)).done
  }

  lemma SameHarm(chunks: seq<Chunk>, others: seq<Chunk>, taken: seq<Taken>)
    requires SameLengths(chunks, others) && |chunks| == |taken| && AllHarmless(chunks, taken)
    ensures AllHarmless(others, taken)
  {
    hide SizeLine;
    forall i | 0 <= i < |others| ensures Harmless(others, taken, i) {
      assert Harmless(chunks, taken, i);
    }
  }

  /**
   * Of a body whose control writes were cut to these counts, the client is right at every cut
   * and for all data of these lengths exactly when every size line was taken in full and no line
   * end but the last chunk's was cut in half. It reports the end of them as well exactly when
   * that one was not either, and something was taken of the chunk that ends the body.
   */
  lemma RightExactly(chunks: seq<Chunk>, taken: seq<Taken>, last: nat)
    requires Plain(chunks) && |chunks| == |taken|
    ensures AlwaysRight(chunks, taken, last) <==> AllHarmless(chunks, taken)
    ensures AlwaysRight(chunks, taken, last) && AlwaysEnds(chunks, taken, last) <==>
              AllHarmless(chunks, taken) && last > 0 && LastEndWhole(taken)
  {
    hide AllHarmless, Harmless, Right, CutBody, Run;
    if AllHarmless(chunks, taken) {
      forall others | SameLengths(chunks, others)
        ensures Right(others, taken, last)
        ensures Run(START, CutBody(others, taken, last)).done <==> last > 0 && LastEndWhole(taken)
      {
        SameHarm(chunks, others, taken);
        HarmlessIsRight(others, taken, last);
      }
      assert SameLengths(chunks, chunks);
    } else {
      var others := HarmDone(chunks, taken, last);
      assert !Right(others, taken, last);
    }
  }

  // ----- on a connection -----

  /** How much the socket has taken does no harm to what has been submitted so far. */
  ghost predicate Unharmed(t: Transcript) {
    |t.submitted| == |t.taken| && AllHarmless(t.submitted, t.taken)
  }

  lemma PartOf<T>(front: seq<T>, line: seq<T>, data: seq<T>, end: seq<T>, sent: nat)
    requires sent <= |data|
    ensures front + line + data[..sent] <= front + (line + data + end)
  {
  }

  /** Part of the data of a chunk, and what is on the wire before them. */
  lemma DataInFrames(chunks: seq<Chunk>, taken: seq<Taken>, sent: nat)
    requires |chunks| == |taken| && chunks != [] && sent <= |chunks[|chunks| - 1].data|
    ensures var n := |chunks| - 1;
      UpTo(chunks, taken, n) + chunks[n].data[..sent] <= WireFrames(chunks, taken)
  {
    hide WireFrames, SizeLine, Cut;
    var n := |chunks| - 1;
    var c, k := chunks[n], taken[n];
    assert chunks == chunks[..n] + [c] && taken == taken[..n] + [k];
    WireFramesSnoc(chunks[..n], taken[..n], c, k);
    var front, line := WireFrames(chunks[..n], taken[..n]), Cut(SizeLine(|c.data|, []), k.line);
    PartOf(front, line, c.data, Cut(CRLF, k.end), sent);
  }

  /** What is on the wire is this body, or as much of it as has gone out. */
  lemma ServerCuts(t: Transcript, s: ServerState, sent: nat)
    requires t.Consistent(s, sent)
    ensures Plain(t.submitted) && |t.submitted| == |t.taken|
    ensures t.body <= CutBody(t.submitted, t.taken, if t.finished then t.last else 0)
    ensures t.finished ==> t.body == CutBody(t.submitted, t.taken, t.last)
  {
    hide Frames, LastChunk, SizeLine, WireFrames;
    if Sending(s) {
      DataInFrames(t.submitted, t.taken, sent);
    }
  }

  lemma WholeIsUnharmed(t: Transcript, s: ServerState)
    requires t.FramesWhole(s)
    ensures Unharmed(t) && (!Sending(s) ==> LastEndWhole(t.taken))
  {
    hide SizeLine;
  }
}
