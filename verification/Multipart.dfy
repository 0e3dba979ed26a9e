/**
 * The multipart body of a POST in libhttp/pico_http_client.c, the function that counts its
 * length, and the text of that count in the header.
 */
module Multipart {
  import opened Bytes
  import opened Heap
  import opened HttpUtil
  import opened Wrappers

  /** The bytes of a C string literal. */
  function Ascii(s: string): (bytes: seq<byte>)
    ensures |bytes| == |s|
  {
    seq(|s|, i requires 0 <= i < |s| => s[i] as int % 256)
  }

  const NAME_LIMIT := 0x1_0000       // the name lengths are uint16_t
  const DATA_LIMIT := 0x1_0000_0000  // the data length is a uint32_t

  /** struct multipart_chunk, with a length beside every string. */
  datatype MultipartChunk = MultipartChunk(
    data: Option<seq<byte>>, lengthData: nat,
    name: Option<seq<byte>>, lengthName: nat,
    filename: Option<seq<byte>>, lengthFilename: nat,
    contentDisposition: Option<seq<byte>>, lengthContentDisposition: nat,
    contentType: Option<seq<byte>>, lengthContentType: nat
  )

  function StringLength(s: Option<seq<byte>>): nat {
    match s
    case None => 0
    case Some(x) => |x| % NAME_LIMIT
  }

  predicate Goes(length: nat, s: Option<seq<byte>>) {
    s.Some? ==> length == StringLength(s)
  }

  /** The length fields are those multipart_chunk_create sets; without data nothing is sent. */
  predicate Created(c: MultipartChunk) {
    && Goes(c.lengthName, c.name) && Goes(c.lengthFilename, c.filename)
    && Goes(c.lengthContentDisposition, c.contentDisposition) && Goes(c.lengthContentType, c.contentType)
    && (c.data.Some? ==> c.lengthData == |c.data.value| % DATA_LIMIT)
  }

  /** A whole chunk: every length field goes with its string. */
  function CreateChunk(data: seq<byte>, name: Option<seq<byte>>, filename: Option<seq<byte>>,
                       contentDisposition: Option<seq<byte>>, contentType: Option<seq<byte>>)
    : (c: Option<MultipartChunk>)
    ensures c.None? <==> data == []
    ensures c.Some? ==> Created(c.value) && c.value.data == Some(data)
  {
    if data == [] then None
    else Some(MultipartChunk(Some(data), |data| % DATA_LIMIT, name, StringLength(name),
                             filename, StringLength(filename),
                             contentDisposition, StringLength(contentDisposition),
                             contentType, StringLength(contentType)))
  }

  /** The whole chunk, but for strings that may be missing. */
  predicate Lacking(c: MultipartChunk, whole: MultipartChunk) {
    && c == whole.(name := c.name, filename := c.filename, contentDisposition := c.contentDisposition,
                   contentType := c.contentType)
    && (c.name.None? || c.name == whole.name) && (c.filename.None? || c.filename == whole.filename)
    && (c.contentDisposition.None? || c.contentDisposition == whole.contentDisposition)
    && (c.contentType.None? || c.contentType == whole.contentType)
  }

  /** Crash: the data is copied to where there is no block. */
  datatype Creation = NoChunk | Crash | Made(chunk: MultipartChunk)

  /** strdup, of a string that is there. */
  method Duplicate(mem: Memory, s: Option<seq<byte>>) returns (d: Option<seq<byte>>)
    modifies mem`asked, mem`refusals
    ensures d.None? || d == s
    ensures mem.refusals >= old(mem.refusals) && (d == s <==> mem.refusals == old(mem.refusals))
  {
    d := s;
    if s.Some? {
      var granted := mem.Grant();
      if !granted {
        d := None;
      }
    }
  }

  /**
   * multipart_chunk_create. None of the blocks but the first is checked for: without one for
   * the data the C copies it to nowhere, and a string for which there is none is left out,
   * with its length kept and nobody told. The chunk is whole exactly when no memory is refused.
   */
  method MultipartChunkCreate(mem: Memory, data: Option<seq<byte>>, name: Option<seq<byte>>,
                              filename: Option<seq<byte>>, contentDisposition: Option<seq<byte>>,
                              contentType: Option<seq<byte>>) returns (r: Creation)
    modifies mem`asked, mem`refusals
    ensures data.None? || data.value == [] ==> r == NoChunk && mem.asked == old(mem.asked)
    ensures data.Some? && data.value != [] ==>
              && (r == NoChunk <==> !mem.plan(old(mem.asked)))
              && (r == Crash <==> mem.plan(old(mem.asked)) && !mem.plan(old(mem.asked) + 1))
    ensures r.Made? ==>
              var whole := CreateChunk(data.value, name, filename, contentDisposition, contentType).value;
              && Created(r.chunk) && Lacking(r.chunk, whole)
              && (r.chunk == whole <==> mem.refusals == old(mem.refusals))
  {
    if data.None? || data.value == [] {
      return NoChunk;
    }
    var granted := mem.Grant();
    if !granted {
      return NoChunk;
    }
    granted := mem.Grant();
    if !granted {
      return Crash;
    }
    var theName := Duplicate(mem, name);
    var theDisposition := Duplicate(mem, contentDisposition);
    var theFilename := Duplicate(mem, filename);
    var theType := Duplicate(mem, contentType);
    r := Made(MultipartChunk(data, |data.value| % DATA_LIMIT, theName, StringLength(name),
                             theFilename, StringLength(filename),
                             theDisposition, StringLength(contentDisposition),
                             theType, StringLength(contentType)));
  }

  predicate AllCreated(chunks: seq<MultipartChunk>) {
    forall i :: 0 <= i < |chunks| ==> Created(chunks[i])
  }

  // ----- the body -----

  function Quoted(lead: string, s: Option<seq<byte>>): seq<byte> {
    match s
    case None => []
    case Some(x) => Ascii(lead) + x + Ascii("\"")
  }

  function Disposition(c: MultipartChunk): seq<byte> {
    match c.contentDisposition
    case None => []
    case Some(d) =>
      Ascii("Content-Disposition: ") + d + Quoted("; name=\"", c.name) + Quoted("; filename=\"", c.filename)
  }

  function TypeLine(c: MultipartChunk): seq<byte> {
    match c.contentType
    case None => []
    case Some(t) => Ascii("\r\n") + Ascii("Content-type: ") + t
  }

  /** What precedes the data of a chunk. */
  function Header(c: MultipartChunk, boundary: seq<byte>): seq<byte> {
    Ascii("--") + boundary + Ascii("\r\n") + Disposition(c) + TypeLine(c) + Ascii("\r\n\r\n")
  }

  /** The first length_data bytes of the data. */
  function SentData(c: MultipartChunk): seq<byte>
    requires Created(c) && c.data.Some?
  {
    c.data.value[..c.lengthData]
  }

  /** The multipart body: header, data and line end for each chunk that has data, and the
      closing boundary. */
  function MultipartBody(chunks: seq<MultipartChunk>, boundary: seq<byte>): seq<byte>
    requires AllCreated(chunks)
  {
    if chunks == [] then Ascii("--") + boundary + Ascii("--\r\n")
    else
      (if chunks[0].data.None? then []
       else Header(chunks[0], boundary) + SentData(chunks[0]) + Ascii("\r\n"))
      + MultipartBody(chunks[1..], boundary)
  }

  // ----- the count -----

  /** What one chunk adds in get_content_length. */
  function ReportedChunk(c: MultipartChunk, boundaryLength: nat): nat {
    if c.data.None? then 0
    else
      2 + boundaryLength + 2
      + (if c.contentDisposition.None? then 0
         else 21 + c.lengthContentDisposition
              + (if c.name.None? then 0 else 8 + c.lengthName + 1)
              + (if c.filename.None? then 0 else 12 + c.lengthFilename + 1))
      + (if c.contentType.None? then 0 else 2 + 14 + c.lengthContentType)
      + 4 + c.lengthData + 2
  }

  function ReportedLength(chunks: seq<MultipartChunk>, boundaryLength: nat): nat {
    if chunks == [] then 2 + boundaryLength + 4
    else ReportedChunk(chunks[0], boundaryLength) + ReportedLength(chunks[1..], boundaryLength)
  }

  lemma {:induction false} ReportedSnoc(chunks: seq<MultipartChunk>, c: MultipartChunk, boundaryLength: nat)
    ensures ReportedLength(chunks + [c], boundaryLength)
         == ReportedLength(chunks, boundaryLength) + ReportedChunk(c, boundaryLength)
  {
    if chunks == [] {
      assert (chunks + [c])[1..] == [];
    } else {
      ReportedSnoc(chunks[1..], c, boundaryLength);
      assert (chunks + [c])[1..] == chunks[1..] + [c];
    }
  }

  /** get_content_length */
  method GetContentLength(chunks: seq<MultipartChunk>, boundary: seq<byte>) returns (length: nat)
    ensures length == ReportedLength(chunks, |boundary|)
  {
    length := 0;
    var i := 0;
    while i < |chunks|
      invariant 0 <= i <= |chunks|
      invariant length + 2 + |boundary| + 4 == ReportedLength(chunks[..i], |boundary|)
    {
      ReportedSnoc(chunks[..i], chunks[i], |boundary|);
      assert chunks[..i + 1] == chunks[..i] + [chunks[i]];
      var c := chunks[i];
      if c.data.Some? {
        length := length + 2;
        length := length + |boundary|;
        length := length + 2;
        if c.contentDisposition.Some? {
          length := length + 21;
          length := length + c.lengthContentDisposition;
          if c.name.Some? {
            length := length + 8 + c.lengthName + 1;
          }
          if c.filename.Some? {
            length := length + 12 + c.lengthFilename + 1;
          }
        }
        if c.contentType.Some? {
          length := length + 2;
          length := length + 14;
          length := length + c.lengthContentType;
        }
        length := length + 4;
        length := length + c.lengthData;
        length := length + 2;
      }
      i := i + 1;
    }
    assert chunks[..i] == chunks;
    length := length + 2;
    length := length + |boundary|;
    length := length + 4;
  }

  /** The count passes through int32_t and uint32_t and is printed with %d. */
  function Printed(length: nat): int {
    var v := length % 0x1_0000_0000;
    if v < 0x8000_0000 then v else v - 0x1_0000_0000
  }

  predicate Short(s: Option<seq<byte>>) {
    s.Some? ==> |s.value| < NAME_LIMIT
  }

  /** Every string of a chunk that gets sent is short enough for its length field. */
  predicate CountedExactly(c: MultipartChunk) {
    c.data.Some? ==>
      && Short(c.contentType)
      && (c.contentDisposition.Some? ==> Short(c.contentDisposition) && Short(c.name) && Short(c.filename))
  }

  lemma StringLengthExact(s: Option<seq<byte>>)
    ensures s.Some? ==> StringLength(s) <= |s.value|
    ensures s.Some? ==> (StringLength(s) == |s.value| <==> |s.value| < NAME_LIMIT)
  {
  }

  lemma ReportedChunkExact(c: MultipartChunk, boundary: seq<byte>)
    requires Created(c) && c.data.Some?
    ensures var sent := |Header(c, boundary) + SentData(c) + Ascii("\r\n")|;
      && ReportedChunk(c, |boundary|) <= sent
      && (ReportedChunk(c, |boundary|) == sent <==> CountedExactly(c))
  {
    StringLengthExact(c.name);
    StringLengthExact(c.filename);
    StringLengthExact(c.contentDisposition);
    StringLengthExact(c.contentType);
  }

  lemma NothingSent(c: MultipartChunk, boundaryLength: nat)
    ensures c.data.None? ==> CountedExactly(c) && ReportedChunk(c, boundaryLength) == 0
  {
  }

  lemma {:induction false} ReportedLengthExact(chunks: seq<MultipartChunk>, boundary: seq<byte>)
    requires AllCreated(chunks)
    ensures ReportedLength(chunks, |boundary|) <= |MultipartBody(chunks, boundary)|
    ensures ReportedLength(chunks, |boundary|) == |MultipartBody(chunks, boundary)| <==>
              forall i :: 0 <= i < |chunks| ==> CountedExactly(chunks[i])
  {
    hide Header, SentData, ReportedChunk, CountedExactly, Ascii;
    if chunks == [] {
      assert |Ascii("--")| == 2 && |Ascii("--\r\n")| == 4;
    } else {
      ReportedLengthExact(chunks[1..], boundary);
      if chunks[0].data.Some? {
        ReportedChunkExact(chunks[0], boundary);
      }
      assert chunks[0].data.None? ==> CountedExactly(chunks[0]) && ReportedChunk(chunks[0], |boundary|) == 0 by {
        NothingSent(chunks[0], |boundary|);
      }
      if forall i :: 0 <= i < |chunks[1..]| ==> CountedExactly(chunks[1..][i]) {
        assert forall i :: 1 <= i < |chunks| ==> chunks[i] == chunks[1..][i - 1];
      } else {
        var i :| 0 <= i < |chunks[1..]| && !CountedExactly(chunks[1..][i]);
        assert !CountedExactly(chunks[i + 1]);
      }
    }
  }

  lemma PrintedExact(n: nat, length: nat)
    requires n <= length
    ensures Printed(n) == length <==> n == length && length < 0x8000_0000
  {
  }

  // ----- the text of the count -----

  const TEXT_SIZE := 6   // str_content_length

  /** What %d makes of a number. */
  function DecimalText(v: int): (text: seq<byte>)
    ensures text != []
  {
    if v == 0 then [48]
    else if v > 0 then
      NumeralSound(v, 10);
      Numeral(v, 10)
    else [45] + Numeral(-v, 10)
  }

  /** The text and its zero fit the array that is meant for them. */
  predicate TextFits(length: nat) {
    |DecimalText(Printed(length))| < TEXT_SIZE
  }

  /** sprintf into str_content_length; false where the C writes past the end of the array. */
  method PrintContentLength(length: nat) returns (fits: bool, text: array<byte>, size: nat)
    ensures fits <==> TextFits(length)
    ensures fresh(text) && text.Length == TEXT_SIZE
    ensures fits ==> size < TEXT_SIZE && text[..size] == DecimalText(Printed(length)) && text[size] == 0
  {
    text := new byte[TEXT_SIZE](_ => 0);
    var t := DecimalText(Printed(length));
    fits, size := |t| < TEXT_SIZE, |t|;
    if fits {
      forall i | 0 <= i < size {
        text[i] := t[i];
      }
    }
  }

  /** The text fits, and a reader of decimal numbers gets n out of it. */
  ghost predicate Tells(length: nat, n: nat) {
    var t := DecimalText(Printed(length));
    TextFits(length) && IsNumeral(t, 10) && Value(t, 10) == n
  }

  lemma PositiveText(v: nat)
    requires v > 0
    ensures var t := DecimalText(v);
      (|t| < TEXT_SIZE <==> v < 100000) && IsNumeral(t, 10) && Value(t, 10) == v
  {
    NumeralSound(v, 10);
    assert Pow(10, 5) == 100000;
    if v < 100000 {
      NumeralLength(v, 10, 5);
    } else {
      NumeralTooLong(v, 10, 5);
    }
  }

  lemma OtherText(v: int)
    requires v <= 0
    ensures IsNumeral(DecimalText(v), 10) ==> Value(DecimalText(v), 10) == 0
  {
    if v == 0 {
      var t: seq<byte> := [48];
      assert t[..0] == [] && Value(t, 10) == Value([], 10) * 10 + 0;
    } else {
      assert DigitValue(DecimalText(v)[0]) == -1;
    }
  }

  lemma TellsIff(length: nat, n: nat)
    requires 0 < n && length <= n
    ensures Tells(length, n) <==> length == n && n < 100000
  {
    hide DecimalText, Value, IsNumeral;
    var v := Printed(length);
    PrintedExact(length, n);
    if v > 0 {
      PositiveText(v);
    } else {
      OtherText(v);
    }
  }

  predicate AllCounted(chunks: seq<MultipartChunk>) {
    forall i :: 0 <= i < |chunks| ==> CountedExactly(chunks[i])
  }

  lemma {:induction false} BodyNotEmpty(chunks: seq<MultipartChunk>, boundary: seq<byte>)
    requires AllCreated(chunks)
    ensures |MultipartBody(chunks, boundary)| >= 6 + |boundary|
  {
    hide Header, SentData;
    if chunks != [] {
      BodyNotEmpty(chunks[1..], boundary);
    }
  }

  /**
   * The text of the count fits its array, and tells the length of the body, exactly when
   * every string fits its length field and the body is shorter than 100000 bytes.
   */
  lemma ContentLengthExact(chunks: seq<MultipartChunk>, boundary: seq<byte>)
    requires AllCreated(chunks)
    ensures Tells(ReportedLength(chunks, |boundary|), |MultipartBody(chunks, boundary)|) <==>
              AllCounted(chunks) && |MultipartBody(chunks, boundary)| < 100000
  {
    hide MultipartBody, ReportedLength, CountedExactly;
    ReportedLengthExact(chunks, boundary);
    BodyNotEmpty(chunks, boundary);
    TellsIff(ReportedLength(chunks, |boundary|), |MultipartBody(chunks, boundary)|);
  }

  lemma PrintedAsIs(n: nat)
    requires n < 0x8000_0000
    ensures Printed(n) == n
  {
  }

  lemma DecimalIs(n: nat)
    requires n > 0
    ensures DecimalText(n) == Numeral(n, 10)
  {
  }

  lemma ShortText(n: nat)
    requires 0 < n < 100000
    ensures DecimalText(Printed(n)) == Numeral(n, 10) && TextFits(n)
  {
    hide Numeral, Value, IsNumeral, DecimalText, Printed;
    PositiveText(n);
    PrintedAsIs(n);
    DecimalIs(n);
  }

  /** The text is then the number of bytes in the body. */
  lemma TextIsLength(chunks: seq<MultipartChunk>, boundary: seq<byte>)
    requires AllCreated(chunks) && AllCounted(chunks) && |MultipartBody(chunks, boundary)| < 100000
    ensures DecimalText(Printed(ReportedLength(chunks, |boundary|))) == Numeral(|MultipartBody(chunks, boundary)|, 10)
    ensures TextFits(ReportedLength(chunks, |boundary|))
  {
    hide MultipartBody, ReportedLength, CountedExactly, DecimalText, Printed, TextFits;
    ReportedLengthExact(chunks, boundary);
    BodyNotEmpty(chunks, boundary);
    ShortText(|MultipartBody(chunks, boundary)|);
  }

  lemma OneChunkBody(c: MultipartChunk, boundary: seq<byte>)
    requires Created(c) && c.data.Some?
    ensures MultipartBody([c], boundary)
         == Header(c, boundary) + SentData(c) + Ascii("\r\n") + (Ascii("--") + boundary + Ascii("--\r\n"))
  {
    var chunks := [c];
    assert chunks[1..] == [];
    assert MultipartBody(chunks[1..], boundary) == Ascii("--") + boundary + Ascii("--\r\n");
  }

  /** A body of 100000 bytes, whose length is counted right and does not fit its text. */
  lemma SixDigits(boundary: seq<byte>) returns (c: MultipartChunk)
    requires |boundary| < 40000
    ensures Created(c) && CountedExactly(c) && |MultipartBody([c], boundary)| == 100000
    ensures ReportedLength([c], |boundary|) == 100000 && !TextFits(100000)
  {
    c := CreateChunk(Zeros(100000 - 16 - 2 * |boundary|), None, None, None, None).value;
    OneChunkBody(c, boundary);
    assert |Header(c, boundary)| == 8 + |boundary| && |SentData(c)| == 100000 - 16 - 2 * |boundary|;
    assert AllCreated([c]) && AllCounted([c]);
    ReportedLengthExact([c], boundary);
    assert Pow(10, 5) == 100000;
    NumeralTooLong(100000, 10, 5);
  }
}
