/**
 * The chunked transfer coding, twice over: the byte automaton that the client's reader
 * amounts to, and the form of section 3.6.1 of RFC 2616 that the server writes: sizes in
 * lower-case digits without leading zeros, a single zero for the last chunk, no trailer.
 * The main result, `DecodeExact`, says what the automaton has handed out after any number
 * of bytes of any stream of that form; what it makes of the other forms is in ChunkSizes.
 */
module ChunkedCoding {
  import opened Bytes
  import opened HttpUtil

  const SEMICOLON: byte := 59
  const ZERO: byte := 48

  // ----- the automaton -----

  datatype Phase = ChunkValue | ChunkTrail | Data

  /** What the reader knows between two bytes. `Data` always has bytes left to read. */
  datatype Decoder = Decoder(phase: Phase, left: nat, done: bool)

  const START := Decoder(ChunkValue, 0, false)

  /** A size line or a data byte just ended: look for a size line when nothing is left. */
  function Settled(left: nat, done: bool): Decoder {
    Decoder(if left == 0 then ChunkValue else Data, left, done)
  }

  /** A byte of a size line that does not end the size. */
  function SizeByte(d: Decoder, c: byte): Decoder {
    var v := DigitValue(c);
    var left := if v >= 0 then d.left * 16 % WORD + v else d.left;
    Decoder(ChunkValue, left, d.done || (c == ZERO && left == 0))
  }

  function Step(d: Decoder, c: byte): Decoder {
    match d.phase
    case ChunkValue =>
      if c == CR || c == SEMICOLON then d.(phase := ChunkTrail) else SizeByte(d, c)
    case ChunkTrail => if c == LF then Settled(d.left, d.done) else d
    case Data => if d.left == 0 then d else Settled(d.left - 1, d.done)
  }

  function Run(d: Decoder, s: seq<byte>): Decoder {
    if s == [] then d else Step(Run(d, s[..|s| - 1]), s[|s| - 1])
  }

  /** The bytes handed to the user while s is read. */
  function Output(d: Decoder, s: seq<byte>): seq<byte> {
    if s == [] then []
    else
      var front := s[..|s| - 1];
      Output(d, front) + if Run(d, front).phase.Data? then [s[|s| - 1]] else []
  }

  lemma RunEmpty(d: Decoder)
    ensures Run(d, []) == d && Output(d, []) == []
  {
  }

  lemma RunSnoc(d: Decoder, s: seq<byte>, c: byte)
    ensures Run(d, s + [c]) == Step(Run(d, s), c)
    ensures Output(d, s + [c]) == Output(d, s) + if Run(d, s).phase.Data? then [c] else []
  {
    assert (s + [c])[..|s|] == s;
  }

  /** One byte more of s. */
  lemma RunNextByte(d: Decoder, s: seq<byte>, n: nat)
    requires n < |s|
    ensures Run(d, s[..n + 1]) == Step(Run(d, s[..n]), s[n])
    ensures Output(d, s[..n + 1]) == Output(d, s[..n]) + if Run(d, s[..n]).phase.Data? then [s[n]] else []
  {
    assert s[..n + 1] == s[..n] + [s[n]];
    RunSnoc(d, s[..n], s[n]);
  }

  /** Where a prefix of s + t ends. */
  lemma SplitPrefix<T>(s: seq<T>, t: seq<T>, p: seq<T>)
    requires p <= s + t
    ensures |p| <= |s| ==> p <= s
    ensures |p| >= |s| ==> p == s + p[|s|..] && p[|s|..] <= t
  {
  }

  lemma {:induction false} RunConcat(d: Decoder, s: seq<byte>, t: seq<byte>)
    ensures Run(d, s + t) == Run(Run(d, s), t)
    ensures Output(d, s + t) == Output(d, s) + Output(Run(d, s), t)
  {
    if t == [] {
      assert s + t == s;
    } else {
      var front, c := t[..|t| - 1], t[|t| - 1];
      assert s + t == (s + front) + [c] && t == front + [c];
      RunConcat(d, s, front);
      RunSnoc(d, s + front, c);
      RunSnoc(Run(d, s), front, c);
    }
  }

  /** Inside chunk data the automaton copies. */
  lemma {:induction false} RunData(d: Decoder, s: seq<byte>)
    requires d == Settled(d.left, d.done) && |s| <= d.left
    ensures Run(d, s) == Settled(d.left - |s|, d.done)
    ensures Output(d, s) == s
  {
    if s != [] {
      RunData(d, s[..|s| - 1]);
      assert s == s[..|s| - 1] + [s[|s| - 1]];
    }
  }

  /** The end of the body makes no difference to anything else. */
  lemma {:induction false} RunDone(d: Decoder, s: seq<byte>)
    ensures Run(d.(done := true), s) == Run(d, s).(done := true)
    ensures Output(d.(done := true), s) == Output(d, s)
  {
    if s != [] {
      RunDone(d, s[..|s| - 1]);
    }
  }

  lemma {:induction false} DoneStays(d: Decoder, s: seq<byte>)
    ensures d.done ==> Run(d, s).done
  {
    if s != [] {
      DoneStays(d, s[..|s| - 1]);
    }
  }

  /** Reading on never takes back the end of the body or bytes handed out. */
  lemma RunMonotone(d: Decoder, s: seq<byte>, t: seq<byte>)
    requires s <= t
    ensures Output(d, s) <= Output(d, t)
    ensures Run(d, s).done ==> Run(d, t).done
  {
    assert t == s + t[|s|..];
    RunConcat(d, s, t[|s|..]);
    DoneStays(Run(d, s), t[|s|..]);
  }

  // ----- lines as the automaton makes them out -----

  /** The n-th byte of s ends a line. */
  predicate LineEndsAt(d: Decoder, s: seq<byte>, n: nat)
    requires 0 < n <= |s|
  {
    s[n - 1] == LF && Run(d, s[..n - 1]).phase.ChunkTrail?
  }

  /** No line ends between the two places. */
  ghost predicate WithinLine(d: Decoder, s: seq<byte>, from: nat, to: nat) {
    to <= |s| + 1 && forall n :: from < n < to ==> !LineEndsAt(d, s, n)
  }

  lemma WithinLineLess(d: Decoder, s: seq<byte>, from: nat, to: nat, less: nat)
    requires less <= |s| + 1 && (less <= from + 1 || (less <= to && WithinLine(d, s, from, to)))
    ensures WithinLine(d, s, from, less)
  {
    hide Run;
  }

  lemma LineEndsGrows(d: Decoder, s: seq<byte>, t: seq<byte>, n: nat)
    requires s <= t && 0 < n <= |s|
    ensures LineEndsAt(d, s, n) == LineEndsAt(d, t, n)
  {
    hide Run;
    assert s[..n - 1] == t[..n - 1];
  }

  lemma WithinLineGrows(d: Decoder, s: seq<byte>, t: seq<byte>, from: nat, to: nat)
    requires s <= t && to <= |s| + 1
    ensures WithinLine(d, s, from, to) <==> WithinLine(d, t, from, to)
  {
    hide LineEndsAt;
    forall n | from < n < to ensures LineEndsAt(d, s, n) == LineEndsAt(d, t, n) {
      LineEndsGrows(d, s, t, n);
    }
  }

  lemma WithinLineSnoc(d: Decoder, s: seq<byte>, c: byte, from: nat)
    requires WithinLine(d, s, from, |s| + 1)
    ensures WithinLine(d, s + [c], from, |s| + 1)
    ensures !(c == LF && Run(d, s).phase.ChunkTrail?) ==> WithinLine(d, s + [c], from, |s| + 2)
    ensures LineEndsAt(d, s + [c], |s| + 1) <==> c == LF && Run(d, s).phase.ChunkTrail?
  {
    hide Run;
    WithinLineGrows(d, s, s + [c], from, |s| + 1);
    assert (s + [c])[..|s|] == s;
  }

  lemma WithinLineJoin(d: Decoder, s: seq<byte>, t: seq<byte>, from: nat, to: nat)
    requires s <= t && WithinLine(d, s, from, |s| + 1) && WithinLine(d, t, |s|, to)
    ensures WithinLine(d, t, from, to)
  {
    hide LineEndsAt;
    WithinLineGrows(d, s, t, from, |s| + 1);
  }

  /** The line from one place to the other has brought the end of the body. */
  ghost predicate EndLine(d: Decoder, s: seq<byte>, from: nat, to: nat) {
    && from <= to <= |s| && WithinLine(d, s, from, to)
    && !Run(d, s[..from]).done && Run(d, s[..to]).done
  }

  lemma EndLineGrows(d: Decoder, s: seq<byte>, t: seq<byte>, from: nat, to: nat)
    requires s <= t && EndLine(d, s, from, to)
    ensures EndLine(d, t, from, to) && s[..to] == t[..to]
  {
    hide Run;
    assert s[..from] == t[..from] && s[..to] == t[..to];
    WithinLineGrows(d, s, t, from, to);
  }

  /** And if that line announced nothing more, what has been handed out is the output up to
      there. */
  ghost predicate EndSeen(d: Decoder, s: seq<byte>, from: nat, to: nat, delivered: seq<byte>) {
    && EndLine(d, s, from, to)
    && (Run(d, s[..to]).left == 0 ==> delivered == Output(d, s[..to]))
  }

  // ----- the grammar -----

  datatype Chunk = Chunk(extension: seq<byte>, data: seq<byte>)

  /** A chunk extension: absent, or anything on the rest of the line after a semicolon. */
  predicate IsExtension(e: seq<byte>) {
    e == [] || (e[0] == SEMICOLON && LF !in e)
  }

  predicate WellFormed(chunks: seq<Chunk>) {
    forall i :: 0 <= i < |chunks| ==>
      IsExtension(chunks[i].extension) && 0 < |chunks[i].data| < WORD
  }

  /** The chunks that a server writes. */
  predicate Plain(chunks: seq<Chunk>) {
    WellFormed(chunks) && forall i :: 0 <= i < |chunks| ==> chunks[i].extension == []
  }

  function SizeLine(size: nat, extension: seq<byte>): seq<byte> {
    Numeral(size, 16) + extension + CRLF
  }

  function Frame(c: Chunk): seq<byte> {
    SizeLine(|c.data|, c.extension) + c.data + CRLF
  }

  function Frames(chunks: seq<Chunk>): seq<byte> {
    if chunks == [] then [] else Frame(chunks[0]) + Frames(chunks[1..])
  }

  function LastChunk(extension: seq<byte>): seq<byte> {
    [ZERO] + extension + CRLF + CRLF
  }

  function Body(chunks: seq<Chunk>, lastExtension: seq<byte>): seq<byte> {
    Frames(chunks) + LastChunk(lastExtension)
  }

  function Payload(chunks: seq<Chunk>): seq<byte> {
    if chunks == [] then [] else chunks[0].data + Payload(chunks[1..])
  }

  /** The chunk data among the first n bytes of a frame, by position alone. */
  function DataWithin(header: nat, data: seq<byte>, n: nat): seq<byte> {
    if n <= header then []
    else if n <= header + |data| then data[..n - header]
    else data
  }

  /** The chunk data among the first n bytes of a body. */
  function PayloadWithin(chunks: seq<Chunk>, n: nat): seq<byte> {
    if chunks == [] then []
    else if n <= |Frame(chunks[0])| then
      DataWithin(|SizeLine(|chunks[0].data|, chunks[0].extension)|, chunks[0].data, n)
    else chunks[0].data + PayloadWithin(chunks[1..], n - |Frame(chunks[0])|)
  }

  lemma {:induction false} PayloadWithinIsPrefix(chunks: seq<Chunk>, n: nat)
    ensures PayloadWithin(chunks, n) <= Payload(chunks)
    ensures n >= |Frames(chunks)| ==> PayloadWithin(chunks, n) == Payload(chunks)
  {
    if chunks != [] && n > |Frame(chunks[0])| {
      PayloadWithinIsPrefix(chunks[1..], n - |Frame(chunks[0])|);
    } else if |chunks| > 1 {
      assert |Frames(chunks[1..])| >= |Frame(chunks[1..][0])| > 0;
    }
  }

  // ----- the automaton reads the grammar -----

  lemma RunSizeDigit(front: seq<byte>, high: nat, digit: nat)
    requires digit < 16 && 0 < high * 16 + digit < WORD
    requires Run(START, front) == Decoder(ChunkValue, high, false) && Output(START, front) == []
    ensures Run(START, front + [DigitChar(digit)]) == Decoder(ChunkValue, high * 16 + digit, false)
    ensures Output(START, front + [DigitChar(digit)]) == []
  {
    assert DigitValue(DigitChar(digit)) == digit;
    RunSnoc(START, front, DigitChar(digit));
  }

  /** Part of a size: nothing is handed out, and the body does not end here. */
  lemma {:induction false} RunSize(size: nat, p: seq<byte>)
    requires 0 < size < WORD
    requires p <= Numeral(size, 16)
    ensures Output(START, p) == [] && !Run(START, p).done
    ensures |p| == |Numeral(size, 16)| ==> Run(START, p) == Decoder(ChunkValue, size, false)
  {
    var high, front := size / 16, Numeral(size / 16, 16);
    SplitPrefix(front, [DigitChar(size % 16)], p);
    if high > 0 {
      RunSize(high, if |p| <= |front| then p else front);
    }
    if |p| > |front| {
      RunSizeDigit(front, high, size % 16);
    }
  }

  /** From a size's terminator on, the rest of the line is skipped. */
  lemma {:induction false} RunSkip(d: Decoder, s: seq<byte>)
    requires d.phase.ChunkTrail? && LF !in s
    ensures Run(d, s) == d && Output(d, s) == []
  {
    if s != [] {
      RunSkip(d, s[..|s| - 1]);
    }
  }

  /** The byte that ends the size, and what follows it on the line. */
  lemma RunTerminator(d: Decoder, s: seq<byte>)
    requires d.phase.ChunkValue? && s != [] && LF !in s
    requires s[0] == CR || s[0] == SEMICOLON
    ensures Run(d, s) == d.(phase := ChunkTrail) && Output(d, s) == []
  {
    RunSnoc(d, [], s[0]);
    assert s == [s[0]] + s[1..] && [] + [s[0]] == [s[0]];
    RunConcat(d, [s[0]], s[1..]);
    RunSkip(d.(phase := ChunkTrail), s[1..]);
  }

  /** The bytes of a line after the size, but for its line feed. */
  lemma LineTail(extension: seq<byte>, p: seq<byte>)
    requires IsExtension(extension) && p <= extension + [CR]
    ensures LF !in p && (p != [] ==> p[0] == CR || p[0] == SEMICOLON)
    ensures extension + CRLF == extension + [CR] + [LF]
  {
  }

  /** The rest of a line after the size, and any part of it. */
  lemma RunLineEnd(d: Decoder, extension: seq<byte>, p: seq<byte>)
    requires d.phase.ChunkValue? && IsExtension(extension)
    requires p <= extension + CRLF
    ensures Output(d, p) == [] && Run(d, p).done == d.done && Run(d, p).left == d.left
    ensures p == extension + CRLF ==> Run(d, p) == Settled(d.left, d.done)
    ensures p == extension + [CR] ==> Run(d, p).phase.ChunkTrail?
  {
    hide Run, Output;
    var line := extension + [CR];
    LineTail(extension, line);
    RunTerminator(d, line);
    if |p| > |line| {
      assert p == line + [LF];
      RunSnoc(d, line, LF);
    } else if p != [] {
      assert p <= line;
      LineTail(extension, p);
      RunTerminator(d, p);
    } else {
      RunEmpty(d);
    }
  }

  /** A whole size line, and any part of it. */
  lemma RunSizeLine(size: nat, extension: seq<byte>, p: seq<byte>)
    requires 0 < size < WORD && IsExtension(extension)
    requires p <= SizeLine(size, extension)
    ensures Output(START, p) == [] && !Run(START, p).done
    ensures p == SizeLine(size, extension) ==> Run(START, p) == Settled(size, false)
  {
    var digits := Numeral(size, 16);
    var rest := extension + CRLF;
    assert SizeLine(size, extension) == digits + rest;
    if |p| <= |digits| {
      assert p <= digits;
      RunSize(size, p);
      NumeralSound(size, 16);
    } else {
      RunSize(size, digits);
      var tail := p[|digits|..];
      assert p == digits + tail && tail <= rest;
      RunLineEnd(Run(START, digits), extension, tail);
      RunConcat(START, digits, tail);
    }
  }

  /** The CRLF after chunk data reads as an empty size line. */
  lemma RunDataEnd(p: seq<byte>)
    requires p <= CRLF
    ensures Output(START, p) == [] && !Run(START, p).done
    ensures p == CRLF ==> Run(START, p) == START
  {
    assert [] + CRLF == CRLF;
    RunLineEnd(START, [], p);
  }

  /** After a size line, the chunk data and any part of it. */
  lemma RunLineAndData(line: seq<byte>, data: seq<byte>, part: seq<byte>)
    requires Run(START, line) == Settled(|data|, false) && Output(START, line) == []
    requires part <= data
    ensures Output(START, line + part) == part
    ensures Run(START, line + part) == Settled(|data| - |part|, false)
  {
    RunConcat(START, line, part);
    RunData(Settled(|data|, false), part);
  }

  /** After chunk data, the CRLF and any part of it. */
  lemma RunToFrameEnd(most: seq<byte>, end: seq<byte>)
    requires Run(START, most) == START
    requires end <= CRLF
    ensures Output(START, most + end) == Output(START, most) && !Run(START, most + end).done
    ensures end == CRLF ==> Run(START, most + end) == START
  {
    RunConcat(START, most, end);
    RunDataEnd(end);
  }

  /** After a size line, all that follows it in the frame and any part of that. */
  lemma RunAfterSizeLine(line: seq<byte>, data: seq<byte>, p: seq<byte>)
    requires data != [] && |line| < |p| && p <= line + data + CRLF
    requires Run(START, line) == Settled(|data|, false) && Output(START, line) == []
    ensures Output(START, p) == if |p| <= |line + data| then data[..|p| - |line|] else data
    ensures !Run(START, p).done
    ensures |p| == |line + data| + 2 ==> Run(START, p) == START
  {
    SplitPrefix(line + data, CRLF, p);
    if |p| <= |line + data| {
      SplitPrefix(line, data, p);
      RunLineAndData(line, data, p[|line|..]);
    } else {
      RunLineAndData(line, data, data);
      RunToFrameEnd(line + data, p[|line + data|..]);
    }
  }

  /** One frame, and any part of it. */
  lemma RunFrame(c: Chunk, p: seq<byte>)
    requires IsExtension(c.extension) && 0 < |c.data| < WORD
    requires p <= Frame(c)
    ensures Output(START, p) == DataWithin(|SizeLine(|c.data|, c.extension)|, c.data, |p|) && !Run(START, p).done
    ensures p == Frame(c) ==> Run(START, p) == START && Output(START, p) == c.data
  {
    hide Run, Output, SizeLine;
    var line := SizeLine(|c.data|, c.extension);
    if |p| <= |line| {
      assert Frame(c) == line + (c.data + CRLF);
      SplitPrefix(line, c.data + CRLF, p);
      RunSizeLine(|c.data|, c.extension, p);
    } else {
      RunSizeLine(|c.data|, c.extension, line);
      RunAfterSizeLine(line, c.data, p);
    }
  }

  /** After a whole frame the automaton is back where it started. */
  lemma RunNext(frame: seq<byte>, rest: seq<byte>)
    requires Run(START, frame) == START
    ensures Output(START, frame + rest) == Output(START, frame) + Output(START, rest)
    ensures Run(START, frame + rest) == Run(START, rest)
  {
    RunConcat(START, frame, rest);
  }

  /** The line of the last chunk and the empty line after it. */
  lemma RunLastLine(d: Decoder, extension: seq<byte>, p: seq<byte>)
    requires d == Decoder(ChunkValue, 0, true) && IsExtension(extension)
    requires p <= extension + CRLF + CRLF
    ensures Output(d, p) == [] && Run(d, p).done
  {
    var line := extension + CRLF;
    SplitPrefix(line, CRLF, p);
    if |p| <= |line| {
      RunLineEnd(d, extension, p);
    } else {
      RunLineEnd(d, extension, line);
      assert [] + CRLF == CRLF;
      RunLineEnd(d, [], p[|line|..]);
      RunConcat(d, line, p[|line|..]);
    }
  }

  /** The last chunk: its first byte ends the body, and nothing is handed out. */
  lemma RunLastChunk(extension: seq<byte>, p: seq<byte>)
    requires IsExtension(extension)
    requires p <= LastChunk(extension)
    ensures Output(START, p) == [] && (Run(START, p).done <==> p != [])
  {
    if p != [] {
      var zero: seq<byte> := [ZERO];
      var finished := Decoder(ChunkValue, 0, true);
      RunSnoc(START, [], ZERO);
      assert [] + zero == zero;
      var line := extension + CRLF;
      assert LastChunk(extension) == zero + (line + CRLF);
      SplitPrefix(zero, line + CRLF, p);
      RunLastLine(finished, extension, p[1..]);
      RunConcat(START, zero, p[1..]);
    }
  }

  /**
   * Cut anywhere, a well-formed body has yielded exactly the chunk data that lies
   * before the cut, and the end of the body is reported from the last chunk on.
   */
  lemma {:induction false} DecodeExact(chunks: seq<Chunk>, lastExtension: seq<byte>, p: seq<byte>)
    requires WellFormed(chunks) && IsExtension(lastExtension)
    requires p <= Body(chunks, lastExtension)
    ensures Output(START, p) == PayloadWithin(chunks, |p|)
    ensures Run(START, p).done <==> |p| > |Frames(chunks)|
    decreases |chunks|
  {
    hide Frame, LastChunk, DataWithin, Run, Output;
    if chunks == [] {
      assert Body(chunks, lastExtension) == LastChunk(lastExtension);
      RunLastChunk(lastExtension, p);
    } else {
      var frame, others := Frame(chunks[0]), Body(chunks[1..], lastExtension);
      assert Body(chunks, lastExtension) == frame + others;
      SplitPrefix(frame, others, p);
      if |p| <= |frame| {
        RunFrame(chunks[0], p);
      } else {
        var rest := p[|frame|..];
        DecodeExact(chunks[1..], lastExtension, rest);
        RunFrame(chunks[0], frame);
        RunNext(frame, rest);
      }
    }
  }

  /** What a user sees: always a prefix of the payload, all of it once done. */
  lemma DecodeSafe(chunks: seq<Chunk>, lastExtension: seq<byte>, p: seq<byte>)
    requires WellFormed(chunks) && IsExtension(lastExtension)
    requires p <= Body(chunks, lastExtension)
    ensures Output(START, p) <= Payload(chunks)
    ensures Run(START, p).done ==> Output(START, p) == Payload(chunks)
  {
    DecodeExact(chunks, lastExtension, p);
    PayloadWithinIsPrefix(chunks, |p|);
  }
}
