/**
 * The reader against all of the bodies that section 3.6.1 of RFC 2616 allows: digits in either
 * case, leading zeros, several zeros in the last chunk, extensions with a line feed in a
 * quoted string, and trailers. The main result, `DecodedExactly`, says which bodies it
 * decodes; `ReadableExactly` says it in terms of sizes and extensions.
 */
module ChunkSizes {
  import opened Bytes
  import opened HttpUtil
  import opened ChunkedCoding

  function HexDigit(c: byte): int {
    if 65 <= c <= 70 then c - 65 + 10 else DigitValue(c)
  }

  predicate IsHex(s: seq<byte>) {
    s != [] && forall k :: 0 <= k < |s| ==> HexDigit(s[k]) >= 0
  }

  /** The number that a chunk-size denotes. */
  ghost function HexValue(s: seq<byte>): nat
    requires forall k :: 0 <= k < |s| ==> HexDigit(s[k]) >= 0
  {
    if s == [] then 0 else HexValue(s[..|s| - 1]) * 16 + HexDigit(s[|s| - 1])
  }

  predicate HasUpper(s: seq<byte>) {
    exists k :: 0 <= k < |s| && 65 <= s[k] <= 70
  }

  /** No upper-case digit, no leading zero, and not beyond 32 bits. */
  ghost predicate Readable(s: seq<byte>) {
    IsHex(s) && !HasUpper(s) && s[0] != ZERO && HexValue(s) < WORD
  }

  // ----- sizes -----

  lemma {:induction false} LowerValue(s: seq<byte>)
    requires !HasUpper(s) && forall k :: 0 <= k < |s| ==> HexDigit(s[k]) >= 0
    ensures IsNumeral(s, 16) && HexValue(s) == Value(s, 16)
  {
    if s != [] {
      LowerValue(s[..|s| - 1]);
    }
  }

  lemma {:induction false} ValueAtLeast(s: seq<byte>)
    requires IsHex(s) && s[0] != ZERO
    ensures HexValue(s) >= Pow(16, |s| - 1) > 0
  {
    if |s| > 1 {
      ValueAtLeast(s[..|s| - 1]);
    } else {
      assert HexValue(s) == HexValue([]) * 16 + HexDigit(s[0]) && s[..0] == [];
    }
  }

  lemma NextSize(left: nat, digit: nat, p: nat)
    requires digit < 16 && left < p
    ensures left * 16 % WORD + digit < WORD && left * 16 % WORD + digit < 16 * p
  {
    var q := left * 16 / WORD;
    assert left * 16 % WORD == 16 * (left - q * (WORD / 16));
    assert left * 16 % WORD < WORD;
  }

  lemma PowSplit(n: nat)
    requires n > 0
    ensures Pow(16, n) == 16 * Pow(16, n - 1)
  {
  }

  lemma SmallerSize(front: seq<byte>, c: byte)
    requires HexDigit(c) >= 0
    requires var d := Run(START, front);
      && d.phase == ChunkValue && d.left < WORD && d.left < Pow(16, |front|)
      && (HasUpper(front) ==> d.left < Pow(16, |front| - 1))
    ensures var d := Step(Run(START, front), c);
      && d.phase == ChunkValue && d.left < WORD && d.left < Pow(16, |front| + 1)
      && (HasUpper(front + [c]) ==> d.left < Pow(16, |front|))
  {
    hide Run, Pow;
    var s, d, digit := front + [c], Run(START, front), DigitValue(c);
    PowSplit(|front| + 1);
    if digit >= 0 {
      NextSize(d.left, digit, Pow(16, |front|));
    }
    if HasUpper(s) && digit >= 0 {
      var k :| 0 <= k < |s| && 65 <= s[k] <= 70;
      assert front[k] == s[k];
      PowSplit(|front|);
      NextSize(d.left, digit, Pow(16, |front| - 1));
    }
  }

  /** The reader ignores upper-case digits, so it makes less of a size that has one. */
  lemma {:induction false} RunHex(s: seq<byte>)
    requires forall k :: 0 <= k < |s| ==> HexDigit(s[k]) >= 0
    ensures var d := Run(START, s);
      && d.phase == ChunkValue && Output(START, s) == []
      && d.left < WORD && d.left < Pow(16, |s|) && (HasUpper(s) ==> d.left < Pow(16, |s| - 1))
    ensures s != [] && s[0] == ZERO ==> Run(START, s).done
  {
    hide Run, Output;
    RunEmpty(START);
    if s != [] {
      var front, c := s[..|s| - 1], s[|s| - 1];
      RunHex(front);
      assert s == front + [c] && (front != [] ==> front[0] == s[0]);
      RunSnoc(START, front, c);
      SmallerSize(front, c);
    }
  }

  /** The reader takes a size for the number it denotes exactly when it is readable. */
  lemma SizeReadIff(s: seq<byte>)
    requires IsHex(s) && HexValue(s) > 0
    ensures Run(START, s) == Decoder(ChunkValue, HexValue(s), false) <==> Readable(s)
    ensures !Readable(s) ==> Run(START, s).done || Run(START, s).left < HexValue(s)
  {
    hide Run;
    RunHex(s);
    if s[0] != ZERO {
      ValueAtLeast(s);
      if !HasUpper(s) {
        LowerValue(s);
        NumeralUnique(s, 16);
        if HexValue(s) < WORD {
          RunSize(HexValue(s), s);
        }
      }
    }
  }

  /** An upper-case size is passed over, and a leading zero ends the body. */
  lemma TwoSizes()
    ensures IsHex([65]) && HexValue([65]) == 10 && Run(START, [65]) == START
    ensures IsHex([48, 52]) && HexValue([48, 52]) == 4 && Run(START, [48, 52]).done
  {
    assert [65][..0] == [] && HexValue([65]) == HexValue([]) * 16 + 10;
    RunSnoc(START, [], 65);
    assert [] + [65] == [65];
    assert [48, 52][..1] == [48] && [48][..0] == [];
    assert HexValue([48]) == HexValue([]) * 16 + 0;
    assert HexValue([48, 52]) == HexValue([48]) * 16 + 4;
    RunHex([48, 52]);
  }

  // ----- lines -----

  /** Where the reader takes the size to end: at the first CR or semicolon. */
  function SizeEnd(t: seq<byte>): (n: nat)
    ensures n <= |t| && (n < |t| ==> t[n] == CR || t[n] == SEMICOLON)
    ensures CR !in t[..n] && SEMICOLON !in t[..n]
  {
    if t == [] || t[0] == CR || t[0] == SEMICOLON then 0 else 1 + SizeEnd(t[1..])
  }

  function FirstLineFeed(t: seq<byte>): (n: nat)
    ensures n <= |t| && LF !in t[..n] && (n < |t| ==> t[n] == LF)
  {
    if t == [] || t[0] == LF then 0 else 1 + FirstLineFeed(t[1..])
  }

  /** Where it takes the line to end: at the first line feed after that. */
  function LineEnd(t: seq<byte>): (n: nat)
    ensures SizeEnd(t) <= n <= |t| && (n < |t| ==> t[n] == LF) && LF !in t[SizeEnd(t)..n]
    ensures SizeEnd(t) < |t| ==> SizeEnd(t) < n
  {
    var from := SizeEnd(t);
    var n := FirstLineFeed(t[from..]);
    assert t[from..][..n] == t[from..from + n];
    from + n
  }

  /** The lower-case digits in s; the reader passes over everything else. */
  function Lower(s: seq<byte>): (d: seq<byte>)
    ensures IsNumeral(d, 16)
  {
    if s == [] then []
    else Lower(s[..|s| - 1]) + if DigitValue(s[|s| - 1]) >= 0 then [s[|s| - 1]] else []
  }

  /** The 32-bit count that the digits come to. */
  ghost function Count(d: seq<byte>): nat
    requires IsNumeral(d, 16)
  {
    Value(d, 16) % WORD
  }

  /** While the digits are read the count comes to zero. */
  ghost predicate HitsZero(d: seq<byte>)
    requires IsNumeral(d, 16)
  {
    exists i :: 0 < i <= |d| && Count(d[..i]) == 0
  }

  /** A line that ends with t and a line feed announces v bytes to the reader. A line feed
      within t ends the line for it, and does no harm only if there was no digit to read. */
  ghost predicate LineRight(t: seq<byte>, v: nat)
    decreases |t|
  {
    var d := Lower(t[..SizeEnd(t)]);
    if LineEnd(t) == |t| then d != [] && !HitsZero(d) && Count(d) == v
    else d == [] && LineRight(t[LineEnd(t) + 1..], v)
  }

  lemma RemainderIs(a: nat, q: nat, r: nat)
    requires a == q * WORD + r && r < WORD
    ensures a % WORD == r
  {
  }

  /** Shifting 32 bits and adding a digit. */
  lemma ShiftWrapped(value: nat, digit: nat)
    requires digit < 16
    ensures value % WORD * 16 % WORD + digit == (value * 16 + digit) % WORD
    ensures (value * 16 + digit) % WORD == 0 ==> digit == 0
  {
    var q, r := value / WORD, value % WORD;
    var high, low := r / 0x1000_0000, r % 0x1000_0000;
    assert value == q * WORD + r && r == high * 0x1000_0000 + low;
    RemainderIs(r * 16, high, low * 16);
    RemainderIs(value * 16 + digit, q * 16 + high, low * 16 + digit);
  }

  lemma NextCount(d: seq<byte>, c: byte)
    requires IsNumeral(d, 16) && DigitValue(c) >= 0
    ensures IsNumeral(d + [c], 16)
    ensures Count(d) * 16 % WORD + DigitValue(c) == Count(d + [c])
    ensures Count(d + [c]) == 0 ==> c == ZERO
  {
    assert (d + [c])[..|d|] == d;
    ShiftWrapped(Value(d, 16), DigitValue(c));
  }

  lemma HitsZeroSnoc(d: seq<byte>, c: byte)
    requires IsNumeral(d, 16) && 0 <= DigitValue(c) < 16
    ensures IsNumeral(d + [c], 16)
    ensures HitsZero(d + [c]) <==> HitsZero(d) || Count(d + [c]) == 0
  {
    hide Count;
    var e := d + [c];
    assert IsNumeral(e, 16);
    assert forall i :: 0 <= i <= |d| ==> e[..i] == d[..i];
    assert e[..|e|] == e;
  }

  lemma NothingRead()
    ensures Run(START, []) == START && Output(START, []) == [] && Count([]) == 0 && !HitsZero([])
  {
  }

  /** What is read of a size, whatever else is on the line before its end. */
  lemma {:induction false} RunDigits(s: seq<byte>)
    requires CR !in s && SEMICOLON !in s
    ensures Run(START, s) == Decoder(ChunkValue, Count(Lower(s)), HitsZero(Lower(s)))
    ensures Output(START, s) == []
  {
    hide Run, Output, HitsZero, Count;
    if s != [] {
      var front, c := s[..|s| - 1], s[|s| - 1];
      RunDigits(front);
      assert s == front + [c];
      RunSnoc(START, front, c);
      if DigitValue(c) >= 0 {
        assert Lower(s) == Lower(front) + [c];
        HitsZeroSnoc(Lower(front), c);
        NextCount(Lower(front), c);
      } else {
        assert Lower(s) == Lower(front);
      }
    } else {
      NothingRead();
    }
  }

  lemma LineParts(t: seq<byte>, n: nat, e: nat)
    requires n <= e <= |t| && (e < |t| ==> t[e] == LF)
    ensures (t + [LF])[..e + 1] == t[..n] + t[n..e] + [LF]
  {
    assert t[..n] + t[n..e] == t[..e];
  }

  /** The first of the lines that the reader makes out. */
  lemma RunFirstLine(t: seq<byte>)
    requires t != [] && t[|t| - 1] == CR
    ensures var d, line := Lower(t[..SizeEnd(t)]), (t + [LF])[..LineEnd(t) + 1];
      Output(START, line) == [] && Run(START, line) == Settled(Count(d), HitsZero(d))
  {
    hide Run, Output, HitsZero, Count, Lower;
    var n, e := SizeEnd(t), LineEnd(t);
    var s, rest := t[..n], t[n..e];
    LineParts(t, n, e);
    RunDigits(s);
    RunTerminator(Run(START, s), rest);
    RunConcat(START, s, rest);
    RunSnoc(START, s + rest, LF);
  }

  /** After an inner line feed. */
  lemma SplitLine(t: seq<byte>)
    requires t != [] && t[|t| - 1] == CR && LineEnd(t) < |t|
    ensures var first, rest := t[..LineEnd(t) + 1], t[LineEnd(t) + 1..];
      && t + [LF] == first + (rest + [LF]) && rest != [] && rest[|rest| - 1] == CR
      && (t + [LF])[..LineEnd(t) + 1] == first
  {
  }

  lemma {:induction false} LineReads(t: seq<byte>, v: nat)
    requires t != [] && t[|t| - 1] == CR && LineRight(t, v)
    ensures Output(START, t + [LF]) == [] && Run(START, t + [LF]) == Settled(v, false)
    decreases |t|
  {
    hide Run, Output, HitsZero, Count, Lower, SizeEnd, LineEnd;
    RunFirstLine(t);
    NothingRead();
    if LineEnd(t) < |t| {
      SplitLine(t);
      var rest := t[LineEnd(t) + 1..];
      LineReads(rest, v);
      RunNext(t[..LineEnd(t) + 1], rest + [LF]);
    } else {
      assert (t + [LF])[..LineEnd(t) + 1] == t + [LF];
    }
  }

  /** The bytes p of a frame with this header are taken for something else. */
  ghost predicate Misread(header: nat, data: seq<byte>, p: seq<byte>) {
    Run(START, p).done || Output(START, p) != DataWithin(header, data, |p|)
  }

  /** Less announced than there is, or more. */
  lemma WrongCount(line: seq<byte>, data: seq<byte>, left: nat) returns (p: seq<byte>)
    requires data != [] && left != |data|
    requires Output(START, line) == [] && Run(START, line) == Settled(left, false)
    ensures p <= line + data + CRLF && Misread(|line|, data, p)
  {
    hide Run, Output;
    if left < |data| {
      var some, next := data[..left], data[left];
      p := line + some + [next];
      RunData(Settled(left, false), some);
      RunConcat(START, line, some);
      RunSnoc(START, line + some, next);
      assert line + data + CRLF == p + (data[left + 1..] + CRLF);
      assert |Output(START, p)| == left;
    } else {
      p := line + (data + [CR]);
      RunData(Settled(left, false), data + [CR]);
      RunConcat(START, line, data + [CR]);
      assert line + data + CRLF == p + [LF];
      assert |Output(START, p)| == |data| + 1;
    }
  }

  lemma CountLeft(d: seq<byte>)
    requires IsNumeral(d, 16) && d != [] && !HitsZero(d)
    ensures Count(d) != 0
  {
    assert d[..|d|] == d;
  }

  lemma NextByte(line: seq<byte>, rest: seq<byte>, more: seq<byte>)
    requires rest != []
    ensures line + [rest[0]] <= line + (rest + more)
  {
  }

  /** Bytes after an inner line feed are taken for data. */
  lemma GivenOut(line: seq<byte>, rest: seq<byte>, data: seq<byte>, left: nat)
    requires rest != [] && left > 0
    requires Output(START, line) == [] && Run(START, line) == Settled(left, false)
    ensures Misread(|line| + |rest| + 1, data, line + [rest[0]])
  {
    hide Run, Output;
    RunSnoc(START, line, rest[0]);
    assert |Output(START, line + [rest[0]])| == 1;
  }

  /** A line of which nothing was read changes nothing. */
  lemma LaterLine(line: seq<byte>, rest: seq<byte>, data: seq<byte>, q: seq<byte>)
    requires Run(START, line) == START && Output(START, line) == []
    requires Misread(|rest| + 1, data, q)
    ensures Misread(|line| + |rest| + 1, data, line + q)
  {
    hide Run, Output;
    RunNext(line, q);
  }

  /** A line that is not right: some cut inside the frame is wrong. */
  lemma {:induction false} WrongCut(t: seq<byte>, data: seq<byte>) returns (p: seq<byte>)
    requires t != [] && t[|t| - 1] == CR && data != [] && !LineRight(t, |data|)
    ensures p <= t + [LF] + data + CRLF && Misread(|t| + 1, data, p)
    decreases |t|
  {
    hide Run, Output, HitsZero, Count, Lower, SizeEnd, LineEnd, DataWithin;
    RunFirstLine(t);
    var d, line := Lower(t[..SizeEnd(t)]), (t + [LF])[..LineEnd(t) + 1];
    if HitsZero(d) {
      p := line;
    } else if LineEnd(t) == |t| {
      assert line == t + [LF];
      if d == [] {
        NothingRead();
      }
      p := WrongCount(line, data, Count(d));
    } else {
      SplitLine(t);
      var rest := t[LineEnd(t) + 1..];
      assert t + [LF] + data + CRLF == line + (rest + [LF] + data + CRLF);
      if d == [] {
        var q := WrongCut(rest, data);
        NothingRead();
        LaterLine(line, rest, data, q);
        p := line + q;
      } else {
        CountLeft(d);
        GivenOut(line, rest, data, Count(d));
        NextByte(line, rest, [LF] + data + CRLF);
        assert rest + ([LF] + data + CRLF) == rest + [LF] + data + CRLF;
        p := line + [rest[0]];
      }
    }
  }

  // ----- chunks -----

  datatype HexChunk = HexChunk(size: seq<byte>, extension: seq<byte>, data: seq<byte>)

  /** The size is that of the data, and an extension begins with a semicolon. */
  ghost predicate Allowed(c: HexChunk) {
    && IsHex(c.size) && HexValue(c.size) == |c.data| > 0
    && (c.extension == [] || c.extension[0] == SEMICOLON)
  }

  /** A size line, but for its line feed. */
  function Text(c: HexChunk): (t: seq<byte>)
    ensures t != [] && t[|t| - 1] == CR
  {
    c.size + c.extension + [CR]
  }

  function HexFrame(c: HexChunk): seq<byte> {
    Text(c) + [LF] + c.data + CRLF
  }

  function HexFrames(chunks: seq<HexChunk>): seq<byte> {
    if chunks == [] then [] else HexFrame(chunks[0]) + HexFrames(chunks[1..])
  }

  ghost predicate ChunkRight(c: HexChunk) {
    LineRight(Text(c), |c.data|)
  }

  lemma SizeEndsLine(c: HexChunk)
    requires Allowed(c)
    ensures SizeEnd(Text(c)) == |c.size| && Text(c)[..SizeEnd(Text(c))] == c.size
    ensures LineEnd(Text(c)) < |Text(c)| <==> LF in c.extension
  {
    hide HexValue;
    var t, n := Text(c), |c.size|;
    assert forall k :: 0 <= k < n ==> t[k] == c.size[k] && HexDigit(t[k]) >= 0;
    assert t[n] == CR || t[n] == SEMICOLON;
    assert t[n..] == c.extension + [CR];
    var e := FirstLineFeed(t[n..]);
    if LF in c.extension {
      var k :| 0 <= k < |c.extension| && c.extension[k] == LF;
      assert t[n..][k] == LF;
      assert e <= k;
    }
  }

  lemma HexHasNoEnd(s: seq<byte>)
    requires IsHex(s)
    ensures CR !in s && SEMICOLON !in s
  {
  }

  /** Where the reader sees one line, it announces the size exactly when that is readable. */
  lemma OneLineRight(c: HexChunk)
    requires Allowed(c) && LF !in c.extension
    ensures ChunkRight(c) <==> Readable(c.size)
  {
    hide Run, HitsZero, HexValue;
    SizeEndsLine(c);
    HexHasNoEnd(c.size);
    RunDigits(c.size);
    SizeReadIff(c.size);
  }

  /** An inner line feed is fatal, unless the size has no digit that the reader takes. */
  lemma ChunkRightIff(c: HexChunk)
    requires Allowed(c) && (LF in c.extension ==> Lower(c.size) != [])
    ensures ChunkRight(c) <==> Readable(c.size) && LF !in c.extension
  {
    hide HitsZero;
    SizeEndsLine(c);
    if LF !in c.extension {
      OneLineRight(c);
    }
  }

  /** What follows a line feed in an extension is given out as data. */
  lemma FoldedExtension(front: seq<byte>, x: byte)
    requires front != [] && front[0] == SEMICOLON && LF !in front
    ensures Output(START, [49] + (front + [LF]) + [x]) == [x]
  {
    hide Run, Output;
    var s: seq<byte> := [49];
    NothingRead();
    assert [] + s == s;
    RunSnoc(START, [], 49);
    RunTerminator(Run(START, s), front);
    RunConcat(START, s, front);
    RunSnoc(START, s + front, LF);
    assert s + (front + [LF]) == s + front + [LF];
    RunSnoc(START, s + front + [LF], x);
  }

  lemma {:induction false} FirstIs(t: seq<byte>, n: nat)
    requires n < |t| && t[n] == LF && LF !in t[..n]
    ensures FirstLineFeed(t) == n
  {
    if n > 0 {
      assert t[..n][0] == t[0] && t[1..][..n - 1] == t[..n][1..];
      FirstIs(t[1..], n - 1);
    }
  }

  lemma ChanceDigits()
    ensures Lower([97, 34]) == [97] && Count([97]) == 10 && !HitsZero([97])
  {
    var s: seq<byte> := [97, 34];
    assert s[..1] == [97] && [97][..0] == [] && [97][..1] == [97];
    assert Lower([97]) == [97] && Value([97], 16) == 10;
  }

  lemma ChanceLine()
    ensures LineRight([97, 34, 13], 10)
  {
    hide Lower, Count, HitsZero;
    ChanceDigits();
    var t: seq<byte> := [97, 34, 13];
    assert t[1..] == [34, 13] && t[1..][1..] == [13];
    assert SizeEnd([13]) == 0 && SizeEnd(t) == 2;
    assert t[2..] == [13] && FirstLineFeed([13]) == 1;
    assert t[..2] == [97, 34];
  }

  /** An extension, the value of which is a backslash, a line feed and the letter a. */
  const FOLDED: seq<byte> := [59, 120, 61, 34, 92, 10, 97, 34]

  /** The size is passed over, and the same number found in the extension by chance. */
  lemma RightByChance(data: seq<byte>)
    requires |data| == 10
    ensures var c := HexChunk([65], FOLDED, data); Allowed(c) && LF in c.extension && ChunkRight(c)
  {
    var c := HexChunk([65], FOLDED, data);
    TwoSizes();
    assert FOLDED[5] == LF;
    SizeEndsLine(c);
    assert [65][..0] == [] && Lower([65]) == [];
    var t, rest := Text(c), [97, 34, 13];
    assert t[1..] == FOLDED + [CR];
    assert FirstLineFeed(t[1..]) == 5 by {
      FirstIs(t[1..], 5);
    }
    assert t[LineEnd(t) + 1..] == rest;
    ChanceLine();
  }

  lemma FrameRight(c: HexChunk, p: seq<byte>)
    requires c.data != [] && ChunkRight(c) && p <= HexFrame(c)
    ensures Output(START, p) == DataWithin(|Text(c)| + 1, c.data, |p|) && !Run(START, p).done
    ensures p == HexFrame(c) ==> Run(START, p) == START && Output(START, p) == c.data
  {
    hide Run, Output, LineRight, Text;
    var line := Text(c) + [LF];
    LineReads(Text(c), |c.data|);
    if |p| <= |line| {
      SplitPrefix(line, c.data + CRLF, p);
      assert HexFrame(c) == line + (c.data + CRLF);
      RunMonotone(START, p, line);
    } else {
      RunAfterSizeLine(line, c.data, p);
    }
  }

  // ----- bodies -----

  function ZeroDigits(n: nat): (zeros: seq<byte>)
    ensures |zeros| == n
  {
    seq(n, _ => ZERO)
  }

  /** What may follow the last chunk's zeros, but for the line end and the empty line in the
      end: an extension, and lines of a trailer. */
  predicate IsTail(tail: seq<byte>) {
    tail == [] || tail[0] == SEMICOLON || tail[0] == CR
  }

  /** The last chunk, of one or more zeros, what follows it, and the end of the body. */
  function HexLast(zeros: nat, tail: seq<byte>): seq<byte> {
    ZeroDigits(zeros) + tail + [CR] + [LF] + CRLF
  }

  function HexBody(chunks: seq<HexChunk>, zeros: nat, tail: seq<byte>): seq<byte> {
    HexFrames(chunks) + HexLast(zeros, tail)
  }

  /** No line of t, as the reader makes them out, announces anything. */
  ghost predicate NothingAnnounced(t: seq<byte>)
    decreases |t|
  {
    Count(Lower(t[..SizeEnd(t)])) == 0 && (LineEnd(t) < |t| ==> NothingAnnounced(t[LineEnd(t) + 1..]))
  }

  ghost predicate LastRight(zeros: nat, tail: seq<byte>) {
    NothingAnnounced(ZeroDigits(zeros) + tail + [CR])
  }

  function HexPayload(chunks: seq<HexChunk>): seq<byte> {
    if chunks == [] then [] else chunks[0].data + HexPayload(chunks[1..])
  }

  function HexPayloadWithin(chunks: seq<HexChunk>, n: nat): seq<byte> {
    if chunks == [] then []
    else if n <= |HexFrame(chunks[0])| then DataWithin(|Text(chunks[0])| + 1, chunks[0].data, n)
    else chunks[0].data + HexPayloadWithin(chunks[1..], n - |HexFrame(chunks[0])|)
  }

  /** After the bytes p of the body: what should have been given out, and reported. */
  ghost predicate Right(chunks: seq<HexChunk>, p: seq<byte>) {
    && Output(START, p) == HexPayloadWithin(chunks, |p|)
    && (Run(START, p).done <==> |p| > |HexFrames(chunks)|)
  }

  lemma NoFramesLeft(chunks: seq<HexChunk>)
    requires HexFrames(chunks) == []
    ensures chunks == []
  {
  }

  lemma WholeFrame(c: HexChunk)
    ensures DataWithin(|Text(c)| + 1, c.data, |HexFrame(c)|) == c.data
  {
  }

  lemma {:induction false} AllWithin(chunks: seq<HexChunk>, n: nat)
    requires n >= |HexFrames(chunks)|
    ensures HexPayloadWithin(chunks, n) == HexPayload(chunks)
  {
    hide HexFrame, DataWithin;
    if chunks != [] {
      if n == |HexFrame(chunks[0])| {
        NoFramesLeft(chunks[1..]);
        WholeFrame(chunks[0]);
      } else {
        AllWithin(chunks[1..], n - |HexFrame(chunks[0])|);
      }
    }
  }

  lemma {:induction false} RunHexFrames(chunks: seq<HexChunk>)
    requires forall i :: 0 <= i < |chunks| ==> chunks[i].data != [] && ChunkRight(chunks[i])
    ensures Run(START, HexFrames(chunks)) == START && Output(START, HexFrames(chunks)) == HexPayload(chunks)
  {
    hide HexFrame, Run, Output, ChunkRight;
    if chunks == [] {
      RunEmpty(START);
    } else {
      RunHexFrames(chunks[1..]);
      FrameRight(chunks[0], HexFrame(chunks[0]));
      RunNext(HexFrame(chunks[0]), HexFrames(chunks[1..]));
    }
  }

  lemma {:induction false} RunZeroDigits(n: nat)
    requires n > 0
    ensures Run(START, ZeroDigits(n)) == Decoder(ChunkValue, 0, true) && Output(START, ZeroDigits(n)) == []
  {
    if n == 1 {
      assert ZeroDigits(1) == [] + [ZERO];
      RunSnoc(START, [], ZERO);
    } else {
      RunZeroDigits(n - 1);
      assert ZeroDigits(n) == ZeroDigits(n - 1) + [ZERO];
      RunSnoc(START, ZeroDigits(n - 1), ZERO);
    }
  }

  /** Lines that announce nothing: nothing is handed out, and a chunk is looked for again. */
  lemma {:induction false} RunNothing(t: seq<byte>)
    requires t != [] && t[|t| - 1] == CR && NothingAnnounced(t)
    ensures Output(START, t + [LF]) == [] && Run(START, t + [LF]).(done := true) == START.(done := true)
    decreases |t|
  {
    hide Run, Output, HitsZero, Count, Lower, SizeEnd, LineEnd;
    RunFirstLine(t);
    if LineEnd(t) < |t| {
      SplitLine(t);
      var line, rest := t[..LineEnd(t) + 1], t[LineEnd(t) + 1..];
      RunNothing(rest);
      RunConcat(START, line, rest + [LF]);
      RunDone(START, rest + [LF]);
    } else {
      assert (t + [LF])[..LineEnd(t) + 1] == t + [LF];
    }
  }

  /** A line that announces something: some byte after it is handed out. */
  lemma {:induction false} SomethingGiven(t: seq<byte>, more: seq<byte>) returns (p: seq<byte>)
    requires t != [] && t[|t| - 1] == CR && !NothingAnnounced(t) && more != []
    ensures p <= t + [LF] + more && Output(START, p) != []
    decreases |t|
  {
    hide Run, Output, HitsZero, Count, Lower, SizeEnd, LineEnd;
    RunFirstLine(t);
    var line := (t + [LF])[..LineEnd(t) + 1];
    if LineEnd(t) == |t| {
      assert line == t + [LF];
      NextByte(line, more, []);
      p := line + [more[0]];
      assert more + [] == more;
      RunSnoc(START, line, more[0]);
    } else {
      SplitLine(t);
      var rest := t[LineEnd(t) + 1..];
      assert t + [LF] + more == line + (rest + [LF] + more);
      if Count(Lower(t[..SizeEnd(t)])) == 0 {
        var q := SomethingGiven(rest, more);
        RunConcat(START, line, q);
        RunDone(START, q);
        p := line + q;
      } else {
        NextByte(line, rest, [LF] + more);
        assert rest + ([LF] + more) == rest + [LF] + more;
        p := line + [rest[0]];
        RunSnoc(START, line, rest[0]);
      }
    }
  }

  lemma FirstZero(p: seq<byte>)
    requires p != [] && p[0] == ZERO
    ensures Run(START, p[..1]).done
  {
    assert p[..1] == [] + [ZERO];
    RunSnoc(START, [], ZERO);
  }

  /** The last chunk and what follows it, and any part of that. */
  lemma RunHexLast(zeros: nat, tail: seq<byte>, p: seq<byte>)
    requires zeros > 0 && LastRight(zeros, tail) && p <= HexLast(zeros, tail)
    ensures Output(START, p) == [] && (Run(START, p).done <==> p != [])
  {
    hide Run, Output, NothingAnnounced;
    var t := ZeroDigits(zeros) + tail + [CR];
    var s := t + [LF];
    RunNothing(t);
    RunConcat(START, s, CRLF);
    RunDone(START, CRLF);
    RunDataEnd(CRLF);
    RunMonotone(START, p, s + CRLF);
    if p == [] {
      RunEmpty(START);
    } else {
      FirstZero(p);
      RunMonotone(START, p[..1], p);
    }
  }

  /** Every line right: every cut is right. */
  lemma {:induction false} EveryCutRight(chunks: seq<HexChunk>, zeros: nat, tail: seq<byte>, p: seq<byte>)
    requires forall i :: 0 <= i < |chunks| ==> chunks[i].data != [] && ChunkRight(chunks[i])
    requires zeros > 0 && LastRight(zeros, tail) && p <= HexBody(chunks, zeros, tail)
    ensures Right(chunks, p)
    decreases |chunks|
  {
    hide HexFrame, HexLast, DataWithin, Run, Output, ChunkRight, LastRight;
    if chunks == [] {
      assert HexBody(chunks, zeros, tail) == HexLast(zeros, tail);
      RunHexLast(zeros, tail, p);
    } else {
      var c, frame, others := chunks[0], HexFrame(chunks[0]), HexBody(chunks[1..], zeros, tail);
      assert HexBody(chunks, zeros, tail) == frame + others;
      SplitPrefix(frame, others, p);
      FrameRight(c, if |p| <= |frame| then p else frame);
      if |p| > |frame| {
        EveryCutRight(chunks[1..], zeros, tail, p[|frame|..]);
        FrameRight(c, frame);
        RunNext(frame, p[|frame|..]);
      }
    }
  }

  lemma AtStart(chunks: seq<HexChunk>)
    ensures HexPayloadWithin(chunks, 0) == [] && Output(START, []) == [] && !Run(START, []).done
  {
  }

  /** A cut after the first frame is as wrong as it is without that frame. */
  lemma LaterCut(chunks: seq<HexChunk>, q: seq<byte>)
    requires chunks != [] && !Right(chunks[1..], q)
    requires var frame := HexFrame(chunks[0]);
      && Output(START, frame + q) == chunks[0].data + Output(START, q)
      && Run(START, frame + q) == Run(START, q) && Output(START, frame) == chunks[0].data
    ensures !Right(chunks, HexFrame(chunks[0]) + q)
  {
    hide Run, HexFrame, DataWithin;
    var data := chunks[0].data;
    AtStart(chunks[1..]);
    if q != [] {
      assert forall a, b :: data + a == data + b ==> a == (data + a)[|data|..] == (data + b)[|data|..] == b;
    }
  }

  lemma {:induction false} SomeCutWrong(chunks: seq<HexChunk>, zeros: nat, tail: seq<byte>) returns (p: seq<byte>)
    requires forall i :: 0 <= i < |chunks| ==> chunks[i].data != []
    requires exists i :: 0 <= i < |chunks| && !ChunkRight(chunks[i])
    ensures p <= HexBody(chunks, zeros, tail) && !Right(chunks, p)
    decreases |chunks|
  {
    hide HexLast, DataWithin, Run, Output, Text, LineRight;
    var c, frame, rest, others := chunks[0], HexFrame(chunks[0]), chunks[1..], HexBody(chunks[1..], zeros, tail);
    assert HexBody(chunks, zeros, tail) == frame + others;
    if ChunkRight(c) {
      var i :| 0 <= i < |chunks| && !ChunkRight(chunks[i]);
      assert rest[i - 1] == chunks[i];
      var q := SomeCutWrong(rest, zeros, tail);
      FrameRight(c, frame);
      RunNext(frame, q);
      p := frame + q;
      LaterCut(chunks, q);
    } else {
      p := WrongCut(Text(c), c.data);
      assert p <= frame + others;
    }
  }

  /** Something handed out after the last chunk is too much. */
  lemma LastCutWrong(chunks: seq<HexChunk>, zeros: nat, tail: seq<byte>) returns (p: seq<byte>)
    requires forall i :: 0 <= i < |chunks| ==> chunks[i].data != [] && ChunkRight(chunks[i])
    requires !LastRight(zeros, tail)
    ensures p <= HexBody(chunks, zeros, tail) && !Right(chunks, p)
  {
    hide Run, Output, ChunkRight, NothingAnnounced, HexFrames, HexPayload, HexPayloadWithin;
    var f := HexFrames(chunks);
    var q := SomethingGiven(ZeroDigits(zeros) + tail + [CR], CRLF);
    RunHexFrames(chunks);
    RunNext(f, q);
    p := f + q;
    AllWithin(chunks, |p|);
    assert |Output(START, p)| > |HexPayload(chunks)|;
  }

  /**
   * Of all the bodies that the section allows, with extensions and trailers of all kinds, the
   * reader gives out the right data and reports the end at the right place, at every cut,
   * exactly when every size line is right and no line after the last chunk's zeros announces
   * anything.
   */
  lemma DecodedExactly(chunks: seq<HexChunk>, zeros: nat, tail: seq<byte>)
    requires forall i :: 0 <= i < |chunks| ==> Allowed(chunks[i])
    requires zeros > 0 && IsTail(tail)
    ensures (forall p :: p <= HexBody(chunks, zeros, tail) ==> Right(chunks, p))
       <==> (forall i :: 0 <= i < |chunks| ==> ChunkRight(chunks[i])) && LastRight(zeros, tail)
  {
    hide ChunkRight, HexBody, Right, LastRight;
    if exists i :: 0 <= i < |chunks| && !ChunkRight(chunks[i]) {
      var p := SomeCutWrong(chunks, zeros, tail);
    } else if LastRight(zeros, tail) {
      forall p | p <= HexBody(chunks, zeros, tail) ensures Right(chunks, p) {
        EveryCutRight(chunks, zeros, tail, p);
      }
    } else {
      var p := LastCutWrong(chunks, zeros, tail);
    }
  }

  lemma {:induction false} ZeroValue(n: nat)
    ensures Lower(ZeroDigits(n)) == ZeroDigits(n) && Value(ZeroDigits(n), 16) == 0
  {
    if n > 0 {
      ZeroValue(n - 1);
      assert ZeroDigits(n)[..n - 1] == ZeroDigits(n - 1);
    }
  }

  lemma {:induction false} SizeEndIs(t: seq<byte>, n: nat)
    requires n < |t| && (t[n] == CR || t[n] == SEMICOLON) && CR !in t[..n] && SEMICOLON !in t[..n]
    ensures SizeEnd(t) == n
  {
    if n > 0 {
      assert t[..n][0] == t[0] && t[1..][..n - 1] == t[..n][1..];
      SizeEndIs(t[1..], n - 1);
    }
  }

  /** No line feed, no trailer: nothing is announced. */
  lemma OneLastLine(zeros: nat, extension: seq<byte>)
    requires IsExtension(extension)
    ensures LastRight(zeros, extension)
  {
    hide Value, Lower;
    var z, t := ZeroDigits(zeros), ZeroDigits(zeros) + extension + [CR];
    assert t[..zeros] == z && t[zeros..] == extension + [CR];
    SizeEndIs(t, zeros);
    ZeroValue(zeros);
    var e := FirstLineFeed(t[zeros..]);
    assert LF !in t[zeros..];
  }

  /** The same in terms of sizes and extensions, without a trailer, and but for line feeds
      after a size of which no digit is taken; there `RightByChance` shows what can happen. */
  lemma ReadableExactly(chunks: seq<HexChunk>, zeros: nat, extension: seq<byte>)
    requires forall i :: 0 <= i < |chunks| ==>
      Allowed(chunks[i]) && (LF in chunks[i].extension ==> Lower(chunks[i].size) != [])
    requires zeros > 0 && IsExtension(extension)
    ensures (forall p :: p <= HexBody(chunks, zeros, extension) ==> Right(chunks, p))
       <==> (forall i :: 0 <= i < |chunks| ==> Readable(chunks[i].size) && LF !in chunks[i].extension)
  {
    hide ChunkRight, HexBody, Right, Readable, LastRight;
    OneLastLine(zeros, extension);
    DecodedExactly(chunks, zeros, extension);
    forall i | 0 <= i < |chunks|
      ensures ChunkRight(chunks[i]) <==> Readable(chunks[i].size) && LF !in chunks[i].extension
    {
      ChunkRightIff(chunks[i]);
    }
  }

  // ----- whatever follows the last chunk -----

  /** What ends the last chunk's line, but for the line feed: the first one there is. */
  predicate IsLineTail(e: seq<byte>) {
    e != [] && (e[0] == CR || e[0] == SEMICOLON) && LF !in e
  }

  function LastLine(zeros: nat, e: seq<byte>): seq<byte> {
    ZeroDigits(zeros) + (e + [LF])
  }

  /** The last line and any part of it. */
  lemma RunOnLastLine(zeros: nat, e: seq<byte>, q: seq<byte>)
    requires zeros > 0 && IsLineTail(e) && q != [] && q <= LastLine(zeros, e)
    ensures Output(START, q) == [] && Run(START, q).done && Run(START, q).left == 0
    ensures |q| == |LastLine(zeros, e)| - 1 ==> Run(START, q).phase.ChunkTrail?
    ensures |q| == |LastLine(zeros, e)| ==> Run(START, q) == START.(done := true)
  {
    hide Run, Output;
    var z, d := ZeroDigits(zeros), START.(done := true);
    SplitPrefix(z, e + [LF], q);
    if |q| <= zeros {
      assert q == ZeroDigits(|q|);
      RunZeroDigits(|q|);
    } else {
      var p := q[zeros..];
      var most := if |p| <= |e| then p else e;
      RunZeroDigits(zeros);
      assert most <= e && LF !in most;
      RunTerminator(d, most);
      if |p| > |e| {
        assert p == e + [LF];
        RunSnoc(d, e, LF);
      }
      RunConcat(START, z, p);
    }
  }

  /** The same after the other chunks. */
  lemma RunToLastLine(chunks: seq<HexChunk>, zeros: nat, e: seq<byte>, q: seq<byte>)
    requires forall i :: 0 <= i < |chunks| ==> chunks[i].data != [] && ChunkRight(chunks[i])
    requires zeros > 0 && IsLineTail(e) && q != [] && q <= LastLine(zeros, e)
    ensures var s := HexFrames(chunks) + q;
      && Output(START, s) == HexPayload(chunks) && Run(START, s).done && Run(START, s).left == 0
      && (|q| == |LastLine(zeros, e)| - 1 ==> Run(START, s).phase.ChunkTrail?)
      && (|q| == |LastLine(zeros, e)| ==> Run(START, s) == START.(done := true))
  {
    hide Run, Output, ChunkRight;
    RunHexFrames(chunks);
    RunOnLastLine(zeros, e, q);
    RunNext(HexFrames(chunks), q);
  }

  lemma LineShape(zeros: nat, e: seq<byte>)
    requires IsLineTail(e)
    ensures var line := LastLine(zeros, e); |line| > 1 && line[|line| - 1] == LF
  {
  }

  /** The line that brings the end of the body is the last chunk's: it starts before that
      chunk and stops within its line. */
  lemma EndLineIsLast(chunks: seq<HexChunk>, zeros: nat, e: seq<byte>, s: seq<byte>, rest: seq<byte>,
                      from: nat, to: nat)
    requires forall i :: 0 <= i < |chunks| ==> chunks[i].data != [] && ChunkRight(chunks[i])
    requires zeros > 0 && IsLineTail(e)
    requires s <= HexFrames(chunks) + LastLine(zeros, e) + rest
    requires EndLine(START, s, from, to)
    ensures |HexFrames(chunks)| < to <= |HexFrames(chunks)| + |LastLine(zeros, e)|
    ensures s[..to] == HexFrames(chunks) + LastLine(zeros, e)[..to - |HexFrames(chunks)|]
  {
    hide Run, Output, ChunkRight, LastLine, HexFrames;
    var f, line := HexFrames(chunks), LastLine(zeros, e);
    var n := |f| + |line|;
    LineShape(zeros, e);
    if to <= |f| {
      assert s[..to] <= f;
      RunMonotone(START, s[..to], f);
      RunHexFrames(chunks);
      assert false;
    }
    if from > |f| {
      assert s[..|f| + 1] == f + line[..1] && s[..|f| + 1] <= s[..from];
      RunToLastLine(chunks, zeros, e, line[..1]);
      RunMonotone(START, s[..|f| + 1], s[..from]);
      assert false;
    }
    if n <= |s| {
      assert s[..n - 1] == f + line[..|line| - 1] && s[n - 1] == LF;
      RunToLastLine(chunks, zeros, e, line[..|line| - 1]);
      assert LineEndsAt(START, s, n);
    }
  }

  lemma EndInside(s: seq<byte>, from: nat, to: nat)
    requires EndLine(START, s, from, to)
    ensures to <= |s|
  {
  }

  /**
   * A reader that takes the end of the body from the last chunk's line, and hands out nothing
   * after it, hands out the payload whatever follows that line: the rest of an extension, a
   * trailer, or another response.
   */
  lemma PayloadAtEnd(chunks: seq<HexChunk>, zeros: nat, e: seq<byte>, s: seq<byte>, rest: seq<byte>,
                     from: nat, to: nat, delivered: seq<byte>)
    requires forall i :: 0 <= i < |chunks| ==> chunks[i].data != [] && ChunkRight(chunks[i])
    requires zeros > 0 && IsLineTail(e)
    requires s <= HexFrames(chunks) + LastLine(zeros, e) + rest
    requires EndSeen(START, s, from, to, delivered)
    ensures delivered == HexPayload(chunks)
  {
    hide Run, Output, ChunkRight, LastLine, HexFrames, EndLine;
    EndLineIsLast(chunks, zeros, e, s, rest, from, to);
    assert to <= |s| by {
      EndInside(s, from, to);
    }
    RunToLastLine(chunks, zeros, e, LastLine(zeros, e)[..to - |HexFrames(chunks)|]);
  }

  /** Without a trailer, a reader that has seen the end has handed out the payload. */
  lemma PayloadWhenDone(chunks: seq<HexChunk>, zeros: nat, e: seq<byte>, s: seq<byte>)
    requires forall i :: 0 <= i < |chunks| ==> chunks[i].data != [] && ChunkRight(chunks[i])
    requires zeros > 0 && IsLineTail(e) && s <= HexFrames(chunks) + LastLine(zeros, e) + CRLF
    requires Run(START, s).done
    ensures Output(START, s) == HexPayload(chunks)
  {
    hide Run, Output, ChunkRight, HexFrames, LastLine;
    var f, line := HexFrames(chunks), LastLine(zeros, e);
    LineShape(zeros, e);
    RunToLastLine(chunks, zeros, e, line);
    SplitPrefix(f + line, CRLF, s);
    if |s| <= |f| {
      assert s <= f;
      RunHexFrames(chunks);
      RunMonotone(START, s, f);
      assert false;
    } else if |s| <= |f + line| {
      SplitPrefix(f, line, s);
      RunToLastLine(chunks, zeros, e, s[|f|..]);
    } else {
      var p := s[|f + line|..];
      RunConcat(START, f + line, p);
      RunDone(START, p);
      RunDataEnd(p);
    }
  }

  /** All of it read, the end has been seen. */
  lemma DoneAtEnd(chunks: seq<HexChunk>, zeros: nat, e: seq<byte>, rest: seq<byte>)
    requires forall i :: 0 <= i < |chunks| ==> chunks[i].data != [] && ChunkRight(chunks[i])
    requires zeros > 0 && IsLineTail(e)
    ensures Run(START, HexFrames(chunks) + LastLine(zeros, e) + rest).done
  {
    hide Run, Output, ChunkRight, HexFrames;
    var s := HexFrames(chunks) + LastLine(zeros, e);
    RunToLastLine(chunks, zeros, e, LastLine(zeros, e));
    RunMonotone(START, s, s + rest);
  }

  // ----- the server's form -----

  function AsHex(chunks: seq<Chunk>): (hex: seq<HexChunk>)
    ensures |hex| == |chunks|
  {
    if chunks == [] then []
    else
      var c := chunks[0];
      [HexChunk(Numeral(|c.data|, 16), c.extension, c.data)] + AsHex(chunks[1..])
  }

  lemma ServerChunk(c: Chunk)
    requires IsExtension(c.extension) && 0 < |c.data| < WORD
    ensures var h := HexChunk(Numeral(|c.data|, 16), c.extension, c.data); ChunkRight(h) && HexFrame(h) == Frame(c)
  {
    hide ChunkRight;
    var h := HexChunk(Numeral(|c.data|, 16), c.extension, c.data);
    NumeralSound(|c.data|, 16);
    LowerValue(h.size);
    OneLineRight(h);
    assert HexFrame(h) == Frame(c);
  }

  /** What the server writes is of the kind that is read rightly. */
  lemma {:induction false} ServerForm(chunks: seq<Chunk>)
    requires WellFormed(chunks)
    ensures var hex := AsHex(chunks);
      && HexFrames(hex) == Frames(chunks) && HexPayload(hex) == Payload(chunks)
      && forall i :: 0 <= i < |hex| ==> hex[i].data != [] && ChunkRight(hex[i])
  {
    hide HexFrame, Frame, ChunkRight;
    if chunks != [] {
      ServerChunk(chunks[0]);
      ServerForm(chunks[1..]);
    }
  }
}
