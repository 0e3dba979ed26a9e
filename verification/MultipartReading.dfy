/**
 * A reader of multipart bodies written from section 5.1.1 of RFC 2046, with header fields after
 * RFC 5322 and the parameters of a disposition after RFC 2183, and what it makes of the bodies
 * that are sent. Folded header lines are not read, and neither is padding after a boundary.
 */
module MultipartReading {
  import opened Bytes
  import opened Multipart
  import opened Wrappers

  // ----- looking for a text -----

  /** Where the text p is first found. */
  function Find(s: seq<byte>, p: seq<byte>): (r: Option<nat>)
    ensures r.Some? ==> r.value + |p| <= |s| && s[r.value..r.value + |p|] == p
    decreases |s|
  {
    if p <= s then Some(0)
    else if s == [] then None
    else match Find(s[1..], p)
      case None => None
      case Some(i) => assert s[1..][i..i + |p|] == s[i + 1..i + 1 + |p|]; Some(i + 1)
  }

  /** A text that can overlap neither with itself nor with what has no CR. */
  predicate BeginsLine(p: seq<byte>) {
    p != [] && p[0] == CR && CR !in p[1..]
  }

  lemma NoOverlap(a: seq<byte>, p: seq<byte>, rest: seq<byte>)
    requires BeginsLine(p) && a != [] && p <= a + p + rest
    ensures p <= a
  {
    var s, k := a + p + rest, |a|;
    assert s[k] == p[0];
    assert forall i :: 0 <= i < |p| ==> p[i] == s[i];
    assert forall i :: 1 <= i < |p| ==> p[i] == p[1..][i - 1];
    assert |p| <= k ==> p == s[..|p|] == a[..|p|];
  }

  lemma {:induction false} FindNext(a: seq<byte>, p: seq<byte>, rest: seq<byte>)
    requires BeginsLine(p) && Find(a, p).None?
    ensures Find(a + p + rest, p) == Some(|a|)
  {
    var s := a + p + rest;
    if a == [] {
      assert s == p + rest;
    } else {
      if p <= s {
        NoOverlap(a, p, rest);
      }
      assert s[1..] == a[1..] + p + rest;
      FindNext(a[1..], p, rest);
    }
  }

  lemma StartsAlike(a: seq<byte>, p: seq<byte>, rest: seq<byte>)
    requires |p| <= |a|
    ensures p <= a + rest <==> p <= a
  {
    assert (a + rest)[..|p|] == a[..|p|];
  }

  lemma {:induction false} FindLonger(a: seq<byte>, p: seq<byte>, rest: seq<byte>)
    requires Find(a, p).Some?
    ensures Find(a + rest, p) == Find(a, p)
  {
    if !(p <= a) {
      StartsAlike(a, p, rest);
      assert (a + rest)[1..] == a[1..] + rest;
      FindLonger(a[1..], p, rest);
    }
  }

  /** It is not found earlier. */
  lemma FindBefore(s: seq<byte>, p: seq<byte>)
    requires p != [] && Find(s, p).Some?
    ensures Find(s[..Find(s, p).value], p).None?
  {
    var i := Find(s, p).value;
    assert s[..i] + s[i..] == s;
    if Find(s[..i], p).Some? {
      FindLonger(s[..i], p, s[i..]);
    }
  }

  lemma {:induction false} FindLater(s: seq<byte>, p: seq<byte>, k: nat)
    requires k <= |s| && Find(s, p).None?
    ensures Find(s[k..], p).None?
  {
    if k > 0 {
      FindLater(s[1..], p, k - 1);
      assert s[1..][k - 1..] == s[k..];
    }
  }

  /** It is not found where there is no CR, nor at a CR that begins something else. */
  lemma {:induction false} NotFoundIn(a: seq<byte>, z: seq<byte>, p: seq<byte>)
    requires BeginsLine(p) && CR !in a && Find(z, p).None?
    ensures Find(a + z, p).None?
  {
    if a == [] {
      assert a + z == z;
    } else {
      assert (a + z)[0] == a[0] && a[0] in a;
      assert (a + z)[1..] == a[1..] + z;
      NotFoundIn(a[1..], z, p);
    }
  }

  lemma StartsAfter(z: seq<byte>, p: seq<byte>)
    requires |p| > 2
    ensures p <= CRLF + z ==> p[2..] <= z
  {
    if p <= CRLF + z {
      assert p[2..] == (CRLF + z)[..|p|][2..] == z[..|p| - 2];
    }
  }

  lemma NotFoundAt(z: seq<byte>, p: seq<byte>)
    requires BeginsLine(p) && |p| > 2 && p[1] == LF && Find(z, p).None? && !(p[2..] <= z)
    ensures Find(CRLF + z, p).None?
  {
    var s := CRLF + z;
    assert s[2..] == z && s[1..][1..] == z && s[1] == LF;
    StartsAfter(z, p);
    assert Find(s[1..], p).None?;
  }

  // ----- header fields -----

  /** The lines up to an empty one, and what follows it. */
  function ReadHeaders(s: seq<byte>): Option<(seq<seq<byte>>, seq<byte>)>
    decreases |s|
  {
    if CRLF <= s then Some(([], s[2..]))
    else match Find(s, CRLF)
      case None => None
      case Some(n) =>
        if CR in s[..n] || LF in s[..n] then None
        else match ReadHeaders(s[n + 2..])
          case None => None
          case Some((lines, data)) => Some(([s[..n]] + lines, data))
  }

  function Lower(s: seq<byte>): (r: seq<byte>)
    ensures |r| == |s|
  {
    seq(|s|, i requires 0 <= i < |s| => if 65 <= s[i] <= 90 then s[i] + 32 else s[i])
  }

  predicate IsSpace(b: byte) {
    b == 32 || b == 9
  }

  function Trimmed(s: seq<byte>): seq<byte> {
    if s != [] && IsSpace(s[0]) then Trimmed(s[1..]) else s
  }

  /** The body of the first field with this name. */
  function FieldBody(lines: seq<seq<byte>>, name: seq<byte>): Option<seq<byte>> {
    if lines == [] then None
    else
      var line, n := lines[0], |name|;
      if |line| > n && Lower(line[..n]) == name && line[n] == 58 then Some(Trimmed(line[n + 1..]))
      else FieldBody(lines[1..], name)
  }

  // ----- a disposition and its parameters -----

  /** A character of a token: printable and none of ()<>@,;:\"/[]?= */
  predicate TokenChar(b: byte) {
    33 <= b <= 126 && b !in {40, 41, 60, 62, 64, 44, 59, 58, 92, 34, 47, 91, 93, 63, 61}
  }

  predicate IsToken(s: seq<byte>) {
    s != [] && forall i :: 0 <= i < |s| ==> TokenChar(s[i])
  }

  /** The token at the front, or nothing. */
  function TokenAt(s: seq<byte>): (t: seq<byte>)
    ensures t <= s && (t != [] ==> IsToken(t))
  {
    if s != [] && TokenChar(s[0]) then [s[0]] + TokenAt(s[1..]) else []
  }

  /** A quoted string behind its first quote, and what follows it. */
  function ReadQuoted(s: seq<byte>): (r: Option<(seq<byte>, seq<byte>)>)
    ensures r.Some? ==> |r.value.1| < |s| && CR !in r.value.0 && LF !in r.value.0
    decreases |s|
  {
    if s == [] || s[0] == CR || s[0] == LF then None
    else if s[0] == 34 then Some(([], s[1..]))
    else
      var escaped := s[0] == 92;
      if escaped && (|s| < 2 || s[1] == CR || s[1] == LF) then None
      else match ReadQuoted(if escaped then s[2..] else s[1..])
        case None => None
        case Some((x, rest)) => Some(([if escaped then s[1] else s[0]] + x, rest))
  }

  /** The value of a parameter, quoted or a token, and what follows it. */
  function ReadValue(s: seq<byte>): (r: Option<(seq<byte>, seq<byte>)>)
    ensures r.Some? ==> |r.value.1| < |s| && CR !in r.value.0 && LF !in r.value.0
  {
    if s != [] && s[0] == 34 then ReadQuoted(s[1..])
    else
      var t := TokenAt(s);
      if t == [] then None else Some((t, s[|t|..]))
  }

  lemma TrimmedShorter(s: seq<byte>)
    ensures |Trimmed(s)| <= |s|
  {
  }

  /** The parameters, each after a semicolon. */
  function ReadParameters(s: seq<byte>): Option<seq<(seq<byte>, seq<byte>)>>
    decreases |s|
  {
    if s == [] then Some([])
    else if s[0] != 59 then None
    else
      TrimmedShorter(s[1..]);
      var s1 := Trimmed(s[1..]);
      var a := TokenAt(s1);
      if a == [] || |s1| == |a| || s1[|a|] != 61 then None
      else match ReadValue(s1[|a| + 1..])
        case None => None
        case Some((x, rest)) =>
          match ReadParameters(rest)
          case None => None
          case Some(others) => Some([(Lower(a), x)] + others)
  }

  function Parameter(list: seq<(seq<byte>, seq<byte>)>, name: seq<byte>): Option<seq<byte>> {
    if list == [] then None
    else if list[0].0 == name then Some(list[0].1)
    else Parameter(list[1..], name)
  }

  // ----- a body -----

  datatype FormPart = FormPart(disposition: Option<seq<byte>>, name: Option<seq<byte>>, filename: Option<seq<byte>>,
                               contentType: Option<seq<byte>>, data: seq<byte>)

  function ReadPart(s: seq<byte>): Option<FormPart> {
    match ReadHeaders(s)
    case None => None
    case Some((lines, data)) =>
      var contentType := FieldBody(lines, Ascii("content-type"));
      match FieldBody(lines, Ascii("content-disposition"))
      case None => Some(FormPart(None, None, None, contentType, data))
      case Some(body) =>
        var d := TokenAt(body);
        if d == [] then None
        else match ReadParameters(body[|d|..])
          case None => None
          case Some(list) =>
            var name, filename := Parameter(list, Ascii("name")), Parameter(list, Ascii("filename"));
            Some(FormPart(Some(d), name, filename, contentType, data))
  }

  /** A boundary stands at the beginning of a line. */
  function Delimiter(boundary: seq<byte>): seq<byte> {
    CRLF + [45, 45] + boundary
  }

  /** The parts behind a boundary, up to the closing one. */
  function ReadParts(s: seq<byte>, delimiter: seq<byte>): Option<seq<FormPart>>
    requires delimiter != []
    decreases |s|
  {
    if [45, 45] <= s then Some([])
    else if !(CRLF <= s) then None
    else match Find(s, delimiter)
      case None => None
      case Some(n) =>
        if n < 2 then None
        else match ReadPart(s[2..n])
          case None => None
          case Some(part) =>
            match ReadParts(s[n + |delimiter|..], delimiter)
            case None => None
            case Some(parts) => Some([part] + parts)
  }

  /** A body has at least one part; what is ahead of the first boundary is not looked at. */
  function ReadMultipart(s: seq<byte>, boundary: seq<byte>): Option<seq<FormPart>> {
    var d := Delimiter(boundary);
    match Find(CRLF + s, d)
    case None => None
    case Some(n) =>
      match ReadParts((CRLF + s)[n + |d|..], d)
      case None => None
      case Some(parts) => if parts == [] then None else Some(parts)
  }

  // ----- what can be read at all -----

  predicate OneLine(s: seq<byte>) {
    CR !in s && LF !in s
  }

  /** A field body as it is read: on one line, with no space in front. */
  predicate IsText(s: seq<byte>) {
    OneLine(s) && (s != [] ==> !IsSpace(s[0]))
  }

  /** No line of the data begins with the boundary. */
  predicate Clean(data: seq<byte>, delimiter: seq<byte>) {
    Find(CRLF + data, delimiter).None?
  }

  predicate Possible(part: FormPart, delimiter: seq<byte>) {
    && (part.disposition.Some? ==> IsToken(part.disposition.value))
    && (part.name.Some? ==> OneLine(part.name.value)) && (part.filename.Some? ==> OneLine(part.filename.value))
    && (part.contentType.Some? ==> IsText(part.contentType.value)) && Clean(part.data, delimiter)
  }

  lemma {:induction false} HeadersPossible(s: seq<byte>)
    requires ReadHeaders(s).Some?
    ensures var (lines, data) := ReadHeaders(s).value;
      && (forall i :: 0 <= i < |lines| ==> OneLine(lines[i]))
      && |data| + 2 <= |s| && s[|s| - |data| - 2..] == CRLF + data
    decreases |s|
  {
    if !(CRLF <= s) {
      var n := Find(s, CRLF).value;
      var rest := s[n + 2..];
      HeadersPossible(rest);
      var data := ReadHeaders(s).value.1;
      assert s[|s| - |data| - 2..] == rest[|rest| - |data| - 2..];
    }
  }

  lemma {:induction false} TrimmedPossible(s: seq<byte>)
    requires OneLine(s)
    ensures IsText(Trimmed(s))
  {
    if s != [] && IsSpace(s[0]) {
      TrimmedPossible(s[1..]);
    }
  }

  lemma {:induction false} FieldPossible(lines: seq<seq<byte>>, name: seq<byte>)
    requires forall i :: 0 <= i < |lines| ==> OneLine(lines[i])
    ensures FieldBody(lines, name).Some? ==> IsText(FieldBody(lines, name).value)
  {
    hide Trimmed, IsText;
    if lines != [] {
      var line, n := lines[0], |name|;
      if |line| > n {
        TrimmedPossible(line[n + 1..]);
      }
      FieldPossible(lines[1..], name);
    }
  }

  lemma {:induction false} ParametersPossible(s: seq<byte>, name: seq<byte>)
    requires ReadParameters(s).Some?
    ensures var x := Parameter(ReadParameters(s).value, name); x.Some? ==> OneLine(x.value)
    decreases |s|
  {
    hide TokenAt, ReadValue, Lower;
    if s != [] {
      TrimmedShorter(s[1..]);
      var s1 := Trimmed(s[1..]);
      var (x, rest) := ReadValue(s1[|TokenAt(s1)| + 1..]).value;
      ParametersPossible(rest, name);
      assert ReadParameters(s).value[1..] == ReadParameters(rest).value;
    }
  }

  lemma PartPossible(s: seq<byte>, delimiter: seq<byte>)
    requires Find(CRLF + s, delimiter).None? && ReadPart(s).Some?
    ensures Possible(ReadPart(s).value, delimiter)
  {
    hide Find, ReadHeaders, FieldBody, ReadParameters, IsText, OneLine;
    var (lines, data) := ReadHeaders(s).value;
    HeadersPossible(s);
    FieldPossible(lines, Ascii("content-type"));
    assert (CRLF + s)[|s| - |data|..] == s[|s| - |data| - 2..];
    FindLater(CRLF + s, delimiter, |s| - |data|);
    var field := FieldBody(lines, Ascii("content-disposition"));
    if field.Some? {
      var rest := field.value[|TokenAt(field.value)|..];
      ParametersPossible(rest, Ascii("name"));
      ParametersPossible(rest, Ascii("filename"));
    }
  }

  lemma FirstPossible(s: seq<byte>, delimiter: seq<byte>)
    requires delimiter != [] && ReadParts(s, delimiter).Some? && ReadParts(s, delimiter).value != []
    ensures Possible(ReadParts(s, delimiter).value[0], delimiter)
  {
    hide ReadPart, Possible;
    var n := Find(s, delimiter).value;
    FindBefore(s, delimiter);
    assert s[..n] == CRLF + s[2..n];
    PartPossible(s[2..n], delimiter);
  }

  // ----- quoted strings -----

  predicate Quotable(x: seq<byte>) {
    OneLine(x) && 34 !in x && 92 !in x
  }

  lemma {:induction false} QuotedReads(x: seq<byte>, rest: seq<byte>)
    requires Quotable(x)
    ensures ReadQuoted(x + [34] + rest) == Some((x, rest))
  {
    var s := x + [34] + rest;
    if x == [] {
      assert s == [34] + rest;
    } else {
      assert s[0] == x[0] && x[0] in x;
      assert s[1..] == x[1..] + [34] + rest;
      assert x == [x[0]] + x[1..];
      QuotedReads(x[1..], rest);
    }
  }

  /** A backslash stands for the next character, and so never for itself. */
  lemma {:induction false} Backslashes(m: seq<byte>, rest: seq<byte>, before: seq<byte>)
    requires before != [] && forall i :: 0 <= i < |before| ==> before[i] == 92
    ensures ReadQuoted(m + [34] + rest).Some? ==> ReadQuoted(m + [34] + rest).value.0 != before + m
    decreases |m|
  {
    var s := m + [34] + rest;
    if m != [] && ReadQuoted(s).Some? {
      var v := ReadQuoted(s).value.0;
      assert (before + m)[0] == 92 && s[0] == m[0] && s[1] == if |m| >= 2 then m[1] else 34;
      if m[0] == 92 && |m| >= 2 && m[1] == 92 {
        var more := before[1..] + [92, 92];
        Backslashes(m[2..], rest, more);
        assert s[2..] == m[2..] + [34] + rest;
        assert (before + m)[1..] == more + m[2..];
        assert v[1..] == ReadQuoted(s[2..]).value.0;
      }
    }
  }

  lemma {:induction false} QuotedReadsOnly(x: seq<byte>, rest: seq<byte>)
    requires OneLine(x) && !Quotable(x)
    ensures ReadQuoted(x + [34] + rest).Some? ==> ReadQuoted(x + [34] + rest).value.0 != x
  {
    var s := x + [34] + rest;
    assert s[0] == x[0];
    if x[0] == 92 {
      if |x| >= 2 && x[1] == 92 {
        Backslashes(x[2..], rest, [92]);
        assert s[2..] == x[2..] + [34] + rest;
        assert x[1..] == [92] + x[2..];
      }
    } else if x[0] != 34 {
      assert s[1..] == x[1..] + [34] + rest;
      QuotedReadsOnly(x[1..], rest);
    }
  }

  // ----- what is sent -----

  predicate QuotableIf(x: Option<seq<byte>>) {
    x.Some? ==> Quotable(x.value)
  }

  predicate OneLineIf(x: Option<seq<byte>>) {
    x.Some? ==> OneLine(x.value)
  }

  /**
   * What a reader needs of a chunk that is sent: data that are not cut and of which no line begins
   * with the boundary, a disposition that is a token, a name and a filename without quotes,
   * backslashes and line ends, and a type on one line that does not begin with a space.
   */
  predicate Readable(c: MultipartChunk, boundary: seq<byte>) {
    c.data.Some? ==>
      && |c.data.value| < DATA_LIMIT && Clean(c.data.value, Delimiter(boundary))
      && c.contentDisposition.Some? && IsToken(c.contentDisposition.value)
      && QuotableIf(c.name) && QuotableIf(c.filename)
      && (c.contentType.Some? ==> IsText(c.contentType.value))
  }

  /** What the chunk is meant to convey. */
  function Meant(c: MultipartChunk): FormPart
    requires c.data.Some?
  {
    FormPart(c.contentDisposition, c.name, c.filename, c.contentType, c.data.value)
  }

  function MeantParts(chunks: seq<MultipartChunk>): seq<FormPart> {
    if chunks == [] then []
    else (if chunks[0].data.None? then [] else [Meant(chunks[0])]) + MeantParts(chunks[1..])
  }

  lemma {:induction false} TokenReads(t: seq<byte>, rest: seq<byte>)
    requires forall i :: 0 <= i < |t| ==> TokenChar(t[i])
    requires rest == [] || !TokenChar(rest[0])
    ensures TokenAt(t + rest) == t
  {
    hide TokenChar;
    if t == [] {
      assert t + rest == rest;
    } else {
      assert (t + rest)[1..] == t[1..] + rest;
      TokenReads(t[1..], rest);
      assert t == [t[0]] + t[1..];
    }
  }

  /** A parameter as it is written. */
  function Written(attribute: seq<byte>, x: seq<byte>): seq<byte> {
    [59, 32] + attribute + [61, 34] + x + [34]
  }

  lemma NoTokenChars()
    ensures !TokenChar(61) && !TokenChar(59)
  {
  }

  lemma TokenNoSpace(t: seq<byte>)
    requires IsToken(t)
    ensures !IsSpace(t[0]) && OneLine(t)
  {
  }

  lemma WrittenParts(attribute: seq<byte>, x: seq<byte>, rest: seq<byte>)
    requires IsToken(attribute)
    ensures var s, s1 := Written(attribute, x) + rest, attribute + ([61, 34] + (x + [34] + rest));
      && s != [] && s[0] == 59 && Trimmed(s[1..]) == s1 && TokenAt(s1) == attribute
      && s1[|attribute|] == 61 && s1[|attribute| + 1..] == [34] + (x + [34] + rest)
  {
    hide TokenChar;
    var s, s1 := Written(attribute, x) + rest, attribute + ([61, 34] + (x + [34] + rest));
    assert s[0] == 59 && s[1..] == [32] + s1;
    TokenNoSpace(attribute);
    assert s1[0] == attribute[0] && ([32] + s1)[1..] == s1 && Trimmed(s1) == s1;
    NoTokenChars();
    TokenReads(attribute, [61, 34] + (x + [34] + rest));
  }

  lemma TokenNotEmpty(t: seq<byte>)
    requires IsToken(t)
    ensures t != []
  {
  }

  /** It is read as meant exactly when the value can be quoted as it is. */
  lemma ParameterReads(attribute: seq<byte>, x: seq<byte>, rest: seq<byte>)
    requires IsToken(attribute) && Lower(attribute) == attribute && OneLine(x)
    ensures var list := ReadParameters(Written(attribute, x) + rest);
      if Quotable(x) then
        list == match ReadParameters(rest)
                case None => None
                case Some(others) => Some([(attribute, x)] + others)
      else list.Some? ==> list.value != [] && list.value[0].0 == attribute && list.value[0].1 != x
  {
    hide ReadQuoted, IsToken, TokenAt, Trimmed, Written, Quotable, OneLine, Lower;
    WrittenParts(attribute, x, rest);
    var value := x + [34] + rest;
    assert attribute != [] by {
      TokenNotEmpty(attribute);
    }
    assert ([34] + value)[1..] == value;
    if Quotable(x) {
      QuotedReads(x, rest);
    } else {
      QuotedReadsOnly(x, rest);
    }
  }

  /** The parameters that are written. */
  function Parameters(c: MultipartChunk): seq<byte> {
    Quoted("; name=\"", c.name) + Quoted("; filename=\"", c.filename)
  }

  lemma NameText()
    ensures Ascii("name") == [110, 97, 109, 101] && Ascii("filename") == [102, 105, 108, 101, 110, 97, 109, 101]
  {
  }

  lemma LeadText()
    ensures Ascii("; name=\"") == [59, 32, 110, 97, 109, 101, 61, 34] && Ascii("\"") == [34]
    ensures Ascii("; filename=\"") == [59, 32, 102, 105, 108, 101, 110, 97, 109, 101, 61, 34]
  {
  }

  lemma Attributes()
    ensures Ascii("; name=\"") == [59, 32] + Ascii("name") + [61, 34] && Ascii("\"") == [34]
    ensures Ascii("; filename=\"") == [59, 32] + Ascii("filename") + [61, 34]
    ensures IsToken(Ascii("name")) && Lower(Ascii("name")) == Ascii("name")
    ensures IsToken(Ascii("filename")) && Lower(Ascii("filename")) == Ascii("filename")
    ensures Ascii("name") != Ascii("filename")
  {
    hide Ascii;
    NameText();
    LeadText();
  }

  lemma NoParameters()
    ensures ReadParameters([]) == Some([])
  {
  }

  lemma WrittenIs(attribute: seq<byte>, x: seq<byte>)
    ensures Written(attribute, x) == [59, 32] + attribute + [61, 34] + x + [34]
  {
  }

  /** The rest of a disposition is read as meant exactly when both values can be quoted as they are. */
  lemma ParametersRead(c: MultipartChunk)
    requires OneLineIf(c.name) && OneLineIf(c.filename)
    ensures var list := ReadParameters(Parameters(c));
      (list.Some? && Parameter(list.value, Ascii("name")) == c.name
       && Parameter(list.value, Ascii("filename")) == c.filename)
      <==> QuotableIf(c.name) && QuotableIf(c.filename)
  {
    hide Ascii, Lower, IsToken, Quotable, ReadParameters, Written;
    Attributes();
    assert ReadParameters([]) == Some([]) by {
      NoParameters();
    }
    var name, filename := Ascii("name"), Ascii("filename");
    var rest := Quoted("; filename=\"", c.filename);
    if c.filename.Some? {
      ParameterReads(filename, c.filename.value, []);
      assert rest == Written(filename, c.filename.value) + [] by {
        WrittenIs(filename, c.filename.value);
      }
    }
    if c.name.Some? {
      ParameterReads(name, c.name.value, rest);
      assert Parameters(c) == Written(name, c.name.value) + rest by {
        WrittenIs(name, c.name.value);
      }
    } else {
      assert Parameters(c) == rest;
    }
  }

  // ----- the header of a chunk -----

  lemma FieldText()
    ensures Ascii("Content-Disposition: ")
         == [67, 111, 110, 116, 101, 110, 116, 45, 68, 105, 115, 112, 111, 115, 105, 116, 105, 111, 110, 58, 32]
    ensures Ascii("Content-type: ") == [67, 111, 110, 116, 101, 110, 116, 45, 116, 121, 112, 101, 58, 32]
  {
  }

  lemma FieldNames()
    ensures Ascii("content-disposition")
         == [99, 111, 110, 116, 101, 110, 116, 45, 100, 105, 115, 112, 111, 115, 105, 116, 105, 111, 110]
    ensures Ascii("content-type") == [99, 111, 110, 116, 101, 110, 116, 45, 116, 121, 112, 101]
  {
  }

  lemma LineText()
    ensures Ascii("\r\n") == CRLF && Ascii("\r\n\r\n") == CRLF + CRLF
    ensures Ascii("--") == [45, 45] && Ascii("--\r\n") == [45, 45] + CRLF
  {
  }

  function DispositionLine(c: MultipartChunk): seq<byte>
    requires c.contentDisposition.Some?
  {
    Ascii("Content-Disposition: ") + c.contentDisposition.value + Parameters(c)
  }

  function TypeLines(c: MultipartChunk): seq<seq<byte>> {
    match c.contentType
    case None => []
    case Some(t) => [Ascii("Content-type: ") + t]
  }

  /** All that is sent between a boundary line and the next boundary. */
  function Text(c: MultipartChunk): seq<byte>
    requires Created(c) && c.data.Some?
  {
    Disposition(c) + TypeLine(c) + CRLF + CRLF + SentData(c)
  }

  lemma LineReads(line: seq<byte>, rest: seq<byte>)
    requires line != [] && OneLine(line)
    ensures ReadHeaders(line + CRLF + rest)
         == match ReadHeaders(rest)
            case None => None
            case Some((lines, data)) => Some(([line] + lines, data))
  {
    var s := line + CRLF + rest;
    assert s[0] == line[0];
    assert line + [] == line;
    NotFoundIn(line, [], CRLF);
    FindNext(line, CRLF, rest);
    assert s[..|line|] == line && s[|line| + 2..] == rest;
  }

  lemma EmptyLineReads(data: seq<byte>)
    ensures ReadHeaders(CRLF + data) == Some(([], data))
  {
    assert CRLF <= CRLF + data && (CRLF + data)[2..] == data;
  }

  lemma TypeLineIs(t: seq<byte>)
    ensures var line := Ascii("Content-type: ") + t;
      && line != [] && line[0] == 67 && (OneLine(t) ==> OneLine(line))
  {
    FieldText();
    hide Ascii;
    var line := Ascii("Content-type: ") + t;
    assert forall b :: b in line <==> b in Ascii("Content-type: ") || b in t;
  }

  lemma OneLineSum(s: seq<byte>, t: seq<byte>)
    requires OneLine(s) && OneLine(t)
    ensures OneLine(s + t)
  {
  }

  lemma PiecesOneLine()
    ensures OneLine(Ascii("; name=\"")) && OneLine(Ascii("; filename=\"")) && OneLine([34]) && OneLine([])
  {
    LeadText();
    hide Ascii;
  }

  lemma QuotedOneLine(c: MultipartChunk)
    requires OneLineIf(c.name) && OneLineIf(c.filename)
    ensures OneLine(Parameters(c))
  {
    LeadText();
    hide Ascii, OneLine;
    assert OneLine(Ascii("; name=\"")) && OneLine(Ascii("; filename=\"")) && OneLine([34]) && OneLine([]) by {
      PiecesOneLine();
    }
    if c.name.Some? {
      OneLineSum(Ascii("; name=\""), c.name.value);
      OneLineSum(Ascii("; name=\"") + c.name.value, [34]);
    }
    if c.filename.Some? {
      OneLineSum(Ascii("; filename=\""), c.filename.value);
      OneLineSum(Ascii("; filename=\"") + c.filename.value, [34]);
    }
    OneLineSum(Quoted("; name=\"", c.name), Quoted("; filename=\"", c.filename));
  }

  lemma DispositionIs(c: MultipartChunk)
    requires c.contentDisposition.Some?
    ensures Disposition(c) == Ascii("Content-Disposition: ") + c.contentDisposition.value + Parameters(c)
  {
    hide Ascii, Quoted;
    var lead, d := Ascii("Content-Disposition: "), c.contentDisposition.value;
    Together(lead + d, Quoted("; name=\"", c.name), Quoted("; filename=\"", c.filename), []);
  }

  lemma DispositionLineIs(c: MultipartChunk)
    requires c.contentDisposition.Some? && OneLine(c.contentDisposition.value)
    requires OneLineIf(c.name) && OneLineIf(c.filename)
    ensures DispositionLine(c) != [] && DispositionLine(c)[0] == 67 && OneLine(DispositionLine(c))
    ensures Disposition(c) == DispositionLine(c)
  {
    FieldText();
    QuotedOneLine(c);
    hide Ascii, Parameters;
    var lead, d := Ascii("Content-Disposition: "), c.contentDisposition.value;
    assert OneLine(lead);
    OneLineSum(lead, d);
    OneLineSum(lead + d, Parameters(c));
    assert Disposition(c) == lead + d + Parameters(c) by {
      DispositionIs(c);
    }
  }

  /** The lines of the header, and the data. */
  lemma HeadersRead(c: MultipartChunk)
    requires Created(c) && c.data.Some? && c.contentDisposition.Some? && OneLine(c.contentDisposition.value)
    requires OneLineIf(c.name) && OneLineIf(c.filename) && OneLineIf(c.contentType)
    ensures ReadHeaders(Text(c)) == Some(([DispositionLine(c)] + TypeLines(c), SentData(c)))
  {
    LineText();
    hide Ascii, ReadHeaders, OneLine, SentData, DispositionLine, Disposition;
    var data := SentData(c);
    DispositionLineIs(c);
    EmptyLineReads(data);
    match c.contentType {
      case None =>
        LineReads(DispositionLine(c), CRLF + data);
        assert Text(c) == DispositionLine(c) + CRLF + (CRLF + data);
      case Some(t) =>
        var line := Ascii("Content-type: ") + t;
        TypeLineIs(t);
        LineReads(line, CRLF + data);
        assert [line] + [] == [line] == TypeLines(c);
        assert TypeLine(c) == CRLF + line;
        LineReads(DispositionLine(c), line + CRLF + (CRLF + data));
        assert Text(c) == DispositionLine(c) + CRLF + (line + CRLF + (CRLF + data));
    }
  }

  /** The field bodies. */
  lemma TypeReads(t: seq<byte>)
    requires IsText(t)
    ensures FieldBody([Ascii("Content-type: ") + t], Ascii("content-type")) == Some(t)
  {
    FieldText();
    FieldNames();
    hide Ascii;
    var line := Ascii("Content-type: ") + t;
    assert line[..12] == Ascii("Content-type: ")[..12];
    assert Lower(line[..12]) == Ascii("content-type");
    assert line[12] == 58 && line[13..] == [32] + t;
    assert ([32] + t)[1..] == t && Trimmed([32] + t) == Trimmed(t) == t;
  }

  lemma FirstField(lines: seq<seq<byte>>, name: seq<byte>)
    requires lines != [] && |lines[0]| > |name|
    ensures FieldBody(lines, name)
         == if Lower(lines[0][..|name|]) == name && lines[0][|name|] == 58 then Some(Trimmed(lines[0][|name| + 1..]))
            else FieldBody(lines[1..], name)
  {
  }

  lemma DispositionReads(c: MultipartChunk)
    requires c.contentDisposition.Some? && IsToken(c.contentDisposition.value)
    ensures var fields := [DispositionLine(c)] + TypeLines(c);
      && FieldBody(fields, Ascii("content-disposition")) == Some(c.contentDisposition.value + Parameters(c))
      && FieldBody(fields, Ascii("content-type")) == FieldBody(TypeLines(c), Ascii("content-type"))
  {
    FieldText();
    FieldNames();
    hide Ascii, Parameters, TypeLines, FieldBody, TokenChar;
    var line, body := DispositionLine(c), c.contentDisposition.value + Parameters(c);
    var lead := Ascii("Content-Disposition: ");
    var fields := [line] + TypeLines(c);
    TokenNoSpace(c.contentDisposition.value);
    assert body[0] == c.contentDisposition.value[0] && Trimmed(body) == body;
    assert line == lead + body && fields[1..] == TypeLines(c);
    assert line[..19] == lead[..19] && Lower(line[..19]) == Ascii("content-disposition");
    assert line[19] == 58 && line[20..] == [32] + body;
    assert ([32] + body)[1..] == body && Trimmed([32] + body) == body;
    assert Lower(line[..12])[8] == 100 != Ascii("content-type")[8];
    FirstField(fields, Ascii("content-disposition"));
    FirstField(fields, Ascii("content-type"));
  }

  // ----- a chunk -----

  lemma DataCut(c: MultipartChunk, delimiter: seq<byte>)
    requires Created(c) && c.data.Some?
    ensures SentData(c) <= c.data.value && (SentData(c) == c.data.value <==> |c.data.value| < DATA_LIMIT)
    ensures |c.data.value| != |SentData(c)| + 2
    ensures Clean(c.data.value, delimiter) ==> Find(CRLF + SentData(c), delimiter).None?
  {
    var data, sent := c.data.value, SentData(c);
    assert CRLF + sent + data[|sent|..] == CRLF + data;
    if Clean(data, delimiter) && Find(CRLF + sent, delimiter).Some? {
      FindLonger(CRLF + sent, delimiter, data[|sent|..]);
    }
  }

  lemma NoFields()
    ensures FieldBody([], Ascii("content-type")) == FieldBody([], Ascii("content-disposition")) == None
  {
  }

  /** Without a disposition the rest of the header is taken for data. */
  lemma WithoutDisposition(c: MultipartChunk)
    requires Created(c) && c.data.Some? && c.contentDisposition.None?
    ensures ReadPart(Text(c)) != Some(Meant(c))
  {
    LineText();
    hide Ascii, SentData;
    DataCut(c, CRLF);
    var text := Text(c);
    var data := text[2..];
    assert CRLF <= text && text == CRLF + data;
    EmptyLineReads(data);
    NoFields();
    if c.contentType.None? {
      assert data == CRLF + SentData(c);
    }
  }

  /** What a chunk means is possible, whether or not it is read so. */
  predicate MeansPossible(c: MultipartChunk, delimiter: seq<byte>) {
    c.data.Some? ==> Possible(Meant(c), delimiter)
  }

  lemma ParametersBegin(c: MultipartChunk)
    ensures Parameters(c) == [] || !TokenChar(Parameters(c)[0])
  {
    LeadText();
    hide Ascii;
  }

  lemma PartReads(c: MultipartChunk, boundary: seq<byte>)
    requires Created(c) && c.data.Some? && MeansPossible(c, Delimiter(boundary))
    ensures ReadPart(Text(c)) == Some(Meant(c)) <==> Readable(c, boundary)
  {
    hide ReadHeaders, FieldBody, ReadParameters, Text, Quotable, TokenChar, OneLine, Find, Ascii, Lower;
    if c.contentDisposition.None? {
      WithoutDisposition(c);
    } else {
      DataCut(c, Delimiter(boundary));
      var d := c.contentDisposition.value;
      TokenNoSpace(d);
      HeadersRead(c);
      DispositionReads(c);
      if c.contentType.Some? {
        TypeReads(c.contentType.value);
      } else {
        NoFields();
      }
      assert TokenAt(d + Parameters(c)) == d by {
        ParametersBegin(c);
        TokenReads(d, Parameters(c));
      }
      assert (d + Parameters(c))[|d|..] == Parameters(c);
      ParametersRead(c);
    }
  }

  // ----- between boundaries -----

  lemma DelimiterIs(boundary: seq<byte>)
    requires CR !in boundary
    ensures var d := Delimiter(boundary);
      BeginsLine(d) && |d| > 2 && d[1] == LF && d[2..] == [45, 45] + boundary
  {
  }

  lemma NotMarked(boundary: seq<byte>, z: seq<byte>)
    requires z != [] && z[0] != 45
    ensures !(([45, 45] + boundary) <= z)
  {
    assert ([45, 45] + boundary)[0] == 45;
  }

  lemma OneLineIs(s: seq<byte>)
    requires OneLine(s)
    ensures CR !in s
  {
  }

  lemma NoDisposition(c: MultipartChunk)
    ensures c.contentDisposition.None? ==> Disposition(c) == []
  {
  }

  lemma TextIs(c: MultipartChunk)
    requires Created(c) && c.data.Some?
    ensures var rest := CRLF + (CRLF + SentData(c));
      var typed := if c.contentType.None? then rest else CRLF + (Ascii("Content-type: ") + c.contentType.value + rest);
      Text(c) == Disposition(c) + typed
  {
    LineText();
    hide Ascii, SentData, Disposition;
    var rest := CRLF + (CRLF + SentData(c));
    if c.contentType.Some? {
      var line := Ascii("Content-type: ") + c.contentType.value;
      assert TypeLine(c) == CRLF + line;
      Regroup(Disposition(c), CRLF, line, CRLF, CRLF, SentData(c), []);
      assert CRLF + line + CRLF + CRLF + SentData(c) + [] == CRLF + (line + rest);
    } else {
      assert Disposition(c) + [] == Disposition(c);
    }
  }

  /** No line of what is sent between boundaries begins with the boundary. */
  lemma TextClean(c: MultipartChunk, boundary: seq<byte>)
    requires Created(c) && c.data.Some? && CR !in boundary && MeansPossible(c, Delimiter(boundary))
    ensures Find(CRLF + Text(c), Delimiter(boundary)).None?
  {
    LineText();
    hide Ascii, Find, SentData, BeginsLine, Delimiter, OneLine, TokenChar, DispositionLine, Disposition;
    var d := Delimiter(boundary);
    DelimiterIs(boundary);
    DataCut(c, d);
    var data := CRLF + SentData(c);
    NotMarked(boundary, data);
    NotFoundAt(data, d);
    var rest := CRLF + data;
    if c.contentType.Some? {
      var line := Ascii("Content-type: ") + c.contentType.value;
      TypeLineIs(c.contentType.value);
      OneLineIs(line);
      NotFoundIn(line, rest, d);
      NotMarked(boundary, line + rest);
      NotFoundAt(line + rest, d);
      rest := CRLF + (line + rest);
    }
    if c.contentDisposition.Some? {
      TokenNoSpace(c.contentDisposition.value);
      DispositionLineIs(c);
      OneLineIs(DispositionLine(c));
      NotFoundIn(DispositionLine(c), rest, d);
      rest := DispositionLine(c) + rest;
    }
    NotMarked(boundary, rest);
    NotFoundAt(rest, d);
    assert Text(c) == rest by {
      TextIs(c);
      NoDisposition(c);
    }
  }

  // ----- a body -----

  /** What is sent behind the first boundary. */
  function Behind(chunks: seq<MultipartChunk>, boundary: seq<byte>): seq<byte>
    requires AllCreated(chunks)
  {
    if chunks == [] then [45, 45] + CRLF
    else if chunks[0].data.None? then Behind(chunks[1..], boundary)
    else CRLF + Text(chunks[0]) + Delimiter(boundary) + Behind(chunks[1..], boundary)
  }

  lemma {:induction false} BodyIsBehind(chunks: seq<MultipartChunk>, boundary: seq<byte>)
    requires AllCreated(chunks)
    ensures CRLF + MultipartBody(chunks, boundary) == Delimiter(boundary) + Behind(chunks, boundary)
  {
    LineText();
    hide Ascii, SentData, Disposition, TypeLine, Created;
    if chunks != [] {
      BodyIsBehind(chunks[1..], boundary);
      var rest := MultipartBody(chunks[1..], boundary);
      if chunks[0].data.Some? {
        var c := chunks[0];
        assert Header(c, boundary) + SentData(c) == [45, 45] + boundary + CRLF + Text(c);
        assert CRLF + ([45, 45] + boundary + CRLF + Text(c) + CRLF + rest)
            == Delimiter(boundary) + (CRLF + Text(c) + (CRLF + rest));
        assert CRLF + Text(c) + (CRLF + rest) == Behind(chunks, boundary);
      } else {
        assert [] + rest == rest;
      }
    } else {
      assert CRLF + ([45, 45] + boundary + ([45, 45] + CRLF)) == CRLF + [45, 45] + boundary + ([45, 45] + CRLF);
    }
  }

  ghost predicate AllReadable(chunks: seq<MultipartChunk>, boundary: seq<byte>) {
    forall i :: 0 <= i < |chunks| ==> Readable(chunks[i], boundary)
  }

  lemma AllReadableCons(chunks: seq<MultipartChunk>, boundary: seq<byte>)
    requires chunks != []
    ensures AllReadable(chunks, boundary) <==> Readable(chunks[0], boundary) && AllReadable(chunks[1..], boundary)
  {
    hide Readable;
    assert forall i :: 1 <= i < |chunks| ==> chunks[i] == chunks[1..][i - 1];
  }

  /** A readable chunk means something possible. */
  lemma ReadableMeans(c: MultipartChunk, boundary: seq<byte>)
    requires Readable(c, boundary)
    ensures MeansPossible(c, Delimiter(boundary))
  {
  }

  /** One part behind a boundary. */
  lemma StepReads(c: MultipartChunk, boundary: seq<byte>, rest: seq<byte>)
    requires Created(c) && c.data.Some? && CR !in boundary && MeansPossible(c, Delimiter(boundary))
    ensures ReadParts(CRLF + Text(c) + Delimiter(boundary) + rest, Delimiter(boundary))
         == match ReadPart(Text(c))
            case None => None
            case Some(part) =>
              match ReadParts(rest, Delimiter(boundary))
              case None => None
              case Some(parts) => Some([part] + parts)
  {
    hide Text, ReadPart, Find, MeansPossible, Created;
    var text, d := Text(c), Delimiter(boundary);
    var s := CRLF + text + d + rest;
    TextClean(c, boundary);
    DelimiterIs(boundary);
    FindNext(CRLF + text, d, rest);
    assert s[2..2 + |text|] == text && s[2 + |text| + |d|..] == rest;
    assert CRLF <= s;
  }

  lemma NoneReadable(boundary: seq<byte>)
    ensures AllReadable([], boundary)
  {
  }

  lemma NotSent(c: MultipartChunk, boundary: seq<byte>)
    requires c.data.None?
    ensures Readable(c, boundary)
  {
  }

  lemma MeansIs(c: MultipartChunk, delimiter: seq<byte>)
    requires c.data.Some? && Possible(Meant(c), delimiter)
    ensures MeansPossible(c, delimiter)
  {
  }

  lemma {:induction false} PartsRead(chunks: seq<MultipartChunk>, boundary: seq<byte>)
    requires AllCreated(chunks) && CR !in boundary
    ensures ReadParts(Behind(chunks, boundary), Delimiter(boundary)) == Some(MeantParts(chunks))
            <==> AllReadable(chunks, boundary)
  {
    hide Text, Meant, ReadPart, Find, MeansPossible, Possible, Created, Readable, AllReadable, Delimiter;
    var d := Delimiter(boundary);
    assert d != [] by {
      DelimiterIs(boundary);
    }
    if chunks == [] {
      NoneReadable(boundary);
      assert [45, 45] <= Behind(chunks, boundary);
    } else {
      AllReadableCons(chunks, boundary);
      PartsRead(chunks[1..], boundary);
      var c, rest := chunks[0], Behind(chunks[1..], boundary);
      var read := ReadParts(Behind(chunks, boundary), d);
      if c.data.None? {
        NotSent(c, boundary);
        assert [] + MeantParts(chunks[1..]) == MeantParts(chunks[1..]);
      } else {
        if Readable(c, boundary) {
          ReadableMeans(c, boundary);
        } else if read == Some(MeantParts(chunks)) {
          FirstPossible(Behind(chunks, boundary), d);
          assert MeansPossible(c, d) by {
            MeansIs(c, d);
          }
        }
        if MeansPossible(c, d) {
          StepReads(c, boundary, rest);
          PartReads(c, boundary);
          assert ([Meant(c)] + MeantParts(chunks[1..]))[1..] == MeantParts(chunks[1..]);
        }
      }
    }
  }

  lemma FindFirst(p: seq<byte>, rest: seq<byte>)
    ensures Find(p + rest, p) == Some(0)
  {
  }

  /**
   * A reader of RFC 2046 gets from a body exactly the dispositions, names, filenames, types and
   * data of the chunks that are sent, in order, if and only if each of them is readable and there
   * is one. Of a chunk with a type and no disposition it never does.
   */
  lemma BodyReadable(chunks: seq<MultipartChunk>, boundary: seq<byte>)
    requires AllCreated(chunks) && CR !in boundary
    ensures ReadMultipart(MultipartBody(chunks, boundary), boundary) == Some(MeantParts(chunks))
            <==> AllReadable(chunks, boundary) && MeantParts(chunks) != []
  {
    hide ReadParts, Behind, MultipartBody, MeantParts, Find, AllReadable, Delimiter;
    var d := Delimiter(boundary);
    BodyIsBehind(chunks, boundary);
    PartsRead(chunks, boundary);
    DelimiterIs(boundary);
    assert Find(d + Behind(chunks, boundary), d) == Some(0) by {
      FindFirst(d, Behind(chunks, boundary));
    }
    assert (d + Behind(chunks, boundary))[|d|..] == Behind(chunks, boundary);
  }
}
