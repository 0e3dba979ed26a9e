/**
 * The MQTT 3.1.1 packets that pico_mqtt/pico_mqtt_serializer.c writes and reads, as
 * byte sequences. The Packet functions say what the serializers put on the stream;
 * `Deserialized` says what the deserializers make of a message; the Read functions are
 * readers written from the standard alone, and the lemmas relate the three. What the
 * characters of a text are is not looked at.
 */
module MqttPackets {
  import opened Bytes
  import opened Wrappers

  const LENGTH_LIMIT := 0x1000_0000   // first remaining length that does not fit, 2^28
  const WORD_LIMIT := 0x1_0000

  // ----- remaining length, section 2.2.3 -----

  function EncodeLength(n: nat): seq<byte> {
    if n < 128 then [n] else [n % 128 + 128] + EncodeLength(n / 128)
  }

  datatype Decoded = Length(value: nat, used: nat) | TooLong | Short

  /** Reads a length of which `taken` bytes have been read already. */
  function DecodeLength(s: seq<byte>, taken: nat): Decoded
    decreases |s|
  {
    if taken >= 4 then TooLong
    else if s == [] then Short
    else if s[0] < 128 then Length(s[0], 1)
    else match DecodeLength(s[1..], taken + 1)
      case Length(v, u) => Length(s[0] - 128 + 128 * v, u + 1)
      case other => other
  }

  /** Decoding inverts encoding, whatever follows. */
  lemma {:induction false} LengthRoundTrip(n: nat, taken: nat, rest: seq<byte>)
    requires taken < 4 && n < Pow(128, 4 - taken)
    ensures DecodeLength(EncodeLength(n) + rest, taken) == Length(n, |EncodeLength(n)|)
    ensures 1 <= |EncodeLength(n)| <= 4 - taken
  {
    var s := EncodeLength(n) + rest;
    if n >= 128 {
      assert Pow(128, 4 - taken) == 128 * Pow(128, 3 - taken);
      assert Pow(128, 0) == 1;
      LengthRoundTrip(n / 128, taken + 1, rest);
      assert s[1..] == EncodeLength(n / 128) + rest;
    }
  }

  lemma LimitIsPower()
    ensures Pow(128, 4) == LENGTH_LIMIT
  {
    assert Pow(128, 1) == 128 && Pow(128, 2) == 16384 && Pow(128, 3) == 2097152;
  }

  /** An encoding is never longer than any other accepted form of the same number. */
  lemma {:induction false} LengthMinimal(s: seq<byte>, taken: nat)
    requires DecodeLength(s, taken).Length?
    ensures var d := DecodeLength(s, taken);
      |EncodeLength(d.value)| <= d.used <= 4 - taken && d.used <= |s| && d.value < Pow(128, 4 - taken)
    decreases |s|
  {
    if s[0] >= 128 {
      LengthMinimal(s[1..], taken + 1);
      var v := DecodeLength(s[1..], taken + 1).value;
      assert (s[0] - 128 + 128 * v) / 128 == v;
    }
    assert Pow(128, 4 - taken) == 128 * Pow(128, 3 - taken);
  }

  /** Decoding fails for its length exactly when four continuation bits come in a row. */
  lemma {:induction false} LengthRejected(s: seq<byte>, taken: nat)
    requires taken <= 4
    ensures DecodeLength(s, taken).TooLong? <==>
              |s| >= 4 - taken && forall i :: 0 <= i < 4 - taken ==> s[i] >= 128
    decreases |s|
  {
    if taken < 4 && s != [] && s[0] >= 128 {
      LengthRejected(s[1..], taken + 1);
      if |s| >= 4 - taken && forall i :: 0 <= i < 4 - taken ==> s[i] >= 128 {
        assert forall i :: 0 <= i < 3 - taken ==> s[1..][i] == s[i + 1];
      }
      if DecodeLength(s[1..], taken + 1).TooLong? {
        forall i | 0 <= i < 4 - taken ensures s[i] >= 128 {
          if i > 0 { assert s[i] == s[1..][i - 1]; }
        }
      }
    }
  }

  lemma {:induction false} LongLengthNeedsFive(n: nat, k: nat)
    requires n >= Pow(128, k)
    ensures |EncodeLength(n)| > k
  {
    if k > 0 {
      assert n / 128 >= Pow(128, k - 1);
      LongLengthNeedsFive(n / 128, k - 1);
    }
  }

  /** The serializer encodes only 28 bits, so its length is right exactly below 2^28. */
  lemma LengthFieldExact(n: nat)
    ensures EncodeLength(n % LENGTH_LIMIT) == EncodeLength(n) <==> n < LENGTH_LIMIT
  {
    LimitIsPower();
    LengthRoundTrip(n % LENGTH_LIMIT, 0, []);
    if n >= LENGTH_LIMIT {
      LongLengthNeedsFive(n, 4);
    }
  }

  // ----- 16-bit words and length-prefixed fields, section 1.5 -----

  function Word(n: nat): seq<byte> {
    [n / 256 % 256, n % 256]
  }

  /** add_data_and_length_stream: the length is cut to 16 bits, the data is not. */
  function Field(s: seq<byte>): seq<byte> {
    Word(|s|) + s
  }

  function ReadWord(s: seq<byte>): nat
    requires |s| >= 2
  {
    (s[0] as nat) * 256 + s[1]
  }

  /** A field and what follows it. */
  function ReadField(s: seq<byte>): Option<(seq<byte>, seq<byte>)> {
    if |s| < 2 || |s| < 2 + ReadWord(s) then None
    else Some((s[2..2 + ReadWord(s)], s[2 + ReadWord(s)..]))
  }

  lemma WordReads(n: nat, rest: seq<byte>)
    requires n < WORD_LIMIT
    ensures ReadWord(Word(n) + rest) == n
  {
  }

  lemma FieldReads(x: seq<byte>, rest: seq<byte>)
    requires |x| < WORD_LIMIT
    ensures ReadField(Field(x) + rest) == Some((x, rest))
  {
    var s := Field(x) + rest;
    assert s == Word(|x|) + (x + rest);
    WordReads(|x|, x + rest);
    assert s[2..2 + |x|] == x;
    assert s[2 + |x|..] == rest;
  }

  lemma ReadFieldShort(s: seq<byte>)
    ensures ReadField(s).Some? ==> |ReadField(s).value.0| < WORD_LIMIT
  {
  }

  /** The bytes after the fixed header, if the remaining length is well-formed and true. */
  function ReadRemaining(m: seq<byte>): Option<seq<byte>> {
    if m == [] then None
    else match DecodeLength(m[1..], 0)
      case Length(v, u) => if 1 + u <= |m| && |m| - 1 - u == v then Some(m[1 + u..]) else None
      case _ => None
  }

  /** A fixed header, the length of the rest as the serializer encodes it, and the rest. */
  function Framed(header: byte, rest: seq<byte>): seq<byte> {
    [header] + EncodeLength(|rest| % LENGTH_LIMIT) + rest
  }

  /** The remaining length is true exactly when the rest is short enough for the field. */
  lemma FramedReads(header: byte, rest: seq<byte>)
    ensures ReadRemaining(Framed(header, rest)) == Some(rest) <==> |rest| < LENGTH_LIMIT
    ensures |rest| >= LENGTH_LIMIT ==> ReadRemaining(Framed(header, rest)) == None
  {
    LimitIsPower();
    var n := |rest| % LENGTH_LIMIT;
    var m := Framed(header, rest);
    LengthRoundTrip(n, 0, rest);
    assert m[1..] == EncodeLength(n) + rest;
    assert m[1 + |EncodeLength(n)|..] == rest;
  }

  // ----- PUBLISH, section 3.3 -----

  datatype Publish = Publish(duplicate: bool, qos: nat, retain: bool,
                             topic: seq<byte>, packetId: nat, message: seq<byte>)

  function Bit(b: bool, value: nat): nat {
    if b then value else 0
  }

  function PublishHeader(p: Publish): byte {
    0x30 + Bit(p.duplicate, 8) + (if p.qos == 1 then 2 else if p.qos == 2 then 4 else 0) + Bit(p.retain, 1)
  }

  function PublishRest(p: Publish): seq<byte> {
    Field(p.topic) + (if p.qos != 0 then Word(p.packetId) else []) + p.message
  }

  function PublishPacket(p: Publish): seq<byte> {
    Framed(PublishHeader(p), PublishRest(p))
  }

  /** Along with a quality of service there is an id, and only then can there be duplicates
      (statements 2.3.1-1 and 3.3.1-2); a topic is not empty (4.7.3-1). */
  predicate PublishAllowed(p: Publish) {
    p.topic != [] && if p.qos == 0 then !p.duplicate else p.packetId != 0
  }

  function ReadPublishRest(header: byte, rest: seq<byte>): Option<Publish> {
    var duplicate, qos, retain := header / 8 % 2 == 1, header / 2 % 4, header % 2 == 1;
    match ReadField(rest)
    case None => None
    case Some((topic, tail)) =>
      if qos == 0 then Some(Publish(duplicate, qos, retain, topic, 0, tail))
      else if |tail| < 2 then None
      else Some(Publish(duplicate, qos, retain, topic, ReadWord(tail), tail[2..]))
  }

  /** The standard's reading of a PUBLISH; without a quality of service there is no id. */
  function ReadPublish(m: seq<byte>): Option<Publish> {
    if m == [] || m[0] / 16 != 3 || m[0] / 2 % 4 == 3 then None
    else match ReadRemaining(m)
      case None => None
      case Some(rest) =>
        match ReadPublishRest(m[0], rest)
        case None => None
        case Some(p) => if PublishAllowed(p) then Some(p) else None
  }

  predicate PublishFields(p: Publish) {
    p.qos < 3 && p.packetId < WORD_LIMIT
  }

  /** What a PUBLISH can convey of p: a packet id only along with a quality of service. */
  function Conveyed(p: Publish): Publish {
    if p.qos == 0 then p.(packetId := 0) else p
  }

  lemma HeaderReads(p: Publish)
    requires PublishFields(p)
    ensures var h := PublishHeader(p);
      && h / 16 == 3 && h / 2 % 4 == p.qos
      && (h / 8 % 2 == 1 <==> p.duplicate) && (h % 2 == 1 <==> p.retain)
  {
  }

  lemma PublishRestReads(p: Publish)
    requires PublishFields(p) && |p.topic| < WORD_LIMIT
    ensures ReadPublishRest(PublishHeader(p), PublishRest(p)) == Some(Conveyed(p))
  {
    HeaderReads(p);
    var id := if p.qos != 0 then Word(p.packetId) else [];
    assert PublishRest(p) == Field(p.topic) + (id + p.message);
    FieldReads(p.topic, id + p.message);
    if p.qos != 0 {
      WordReads(p.packetId, p.message);
      assert (id + p.message)[2..] == p.message;
    } else {
      assert id + p.message == p.message;
    }
  }

  /** A serialized PUBLISH is read back by the standard's reader exactly when its topic
      fits a field, its rest fits the remaining length, and it is one that the standard
      allows, which nothing checks. */
  lemma PublishReadable(p: Publish)
    requires PublishFields(p)
    ensures ReadPublish(PublishPacket(p)) == Some(Conveyed(p)) <==>
              |p.topic| < WORD_LIMIT && |PublishRest(p)| < LENGTH_LIMIT && PublishAllowed(p)
  {
    HeaderReads(p);
    FramedReads(PublishHeader(p), PublishRest(p));
    ReadFieldShort(PublishRest(p));
    if |p.topic| < WORD_LIMIT {
      PublishRestReads(p);
    }
  }

  // ----- what the deserializers make of a message -----

  datatype Reply =
    | GotConnack(sessionPresent: bool, returnCode: byte)
    | GotPublish(publish: Publish)
    | GotAck(packetId: nat)
    | GotSuback(packetId: nat, qos: byte)
    | GotPing(kind: nat)   // 12 for PINGREQ, 13 for PINGRESP
    | Rejected
    | Overread   // the C reads past the end of the message

  /** How many bytes skip_length_stream takes from s: up to five, none checked. */
  function SkipLength(s: seq<byte>, index: nat): Option<nat>
    decreases |s|
  {
    if s == [] then None
    else if s[0] >= 128 && index < 4 then
      match SkipLength(s[1..], index + 1)
      case None => None
      case Some(n) => Some(n + 1)
    else Some(1)
  }

  lemma {:induction false} SkipLengthInside(s: seq<byte>, index: nat)
    ensures SkipLength(s, index).Some? ==> 1 <= SkipLength(s, index).value <= |s|
    decreases |s|
  {
    if s != [] {
      SkipLengthInside(s[1..], index + 1);
    }
  }

  /** A well-formed length is skipped exactly. */
  lemma {:induction false} SkipLengthExact(s: seq<byte>, taken: nat)
    requires DecodeLength(s, taken).Length?
    ensures SkipLength(s, taken) == Some(DecodeLength(s, taken).used)
    decreases |s|
  {
    if s[0] >= 128 {
      SkipLengthExact(s[1..], taken + 1);
    }
  }

  /** get_data_and_length_stream: data that ends where the stream ends reads as empty, and
      so does anything malformed. Gives the data and how much of s was read. */
  function GetField(s: seq<byte>): (seq<byte>, nat) {
    if |s| < 2 then ([], 0)
    else if |s| <= 2 + ReadWord(s) then ([], 2)
    else (s[2..2 + ReadWord(s)], 2 + ReadWord(s))
  }

  /** What follows the topic: a packet id if there is a quality of service, the message. */
  function DeserializedPublishTail(header: byte, topic: seq<byte>, tail: seq<byte>): Reply {
    var duplicate, qos, retain := header / 8 % 2 == 1, header / 2 % 4, header % 2 == 1;
    if qos != 0 && |tail| < 2 then Overread
    else
      var packetId, message := if qos == 0 then 0 else ReadWord(tail), if qos == 0 then tail else tail[2..];
      if message == [] then Rejected
      else GotPublish(Publish(duplicate, qos, retain, topic, packetId, message))
  }

  function DeserializedPublishRest(header: byte, rest: seq<byte>): Reply {
    var (topic, used) := GetField(rest);
    if topic == [] then Rejected else DeserializedPublishTail(header, topic, rest[used..])
  }

  function DeserializedPublish(m: seq<byte>): Reply
    requires m != []
  {
    if |m| < 4 || m[0] / 2 % 4 == 3 then Rejected
    else match SkipLength(m[1..], 0)
      case None => Overread
      case Some(n) => SkipLengthInside(m[1..], 0); DeserializedPublishRest(m[0], m[1 + n..])
  }

  /** pico_mqtt_deserialize, by the type in the first byte. */
  function Deserialized(m: seq<byte>): Reply
    requires m != []
  {
    match m[0] / 16
    case 2 => if |m| == 4 && m[1] == 2 && m[3] <= 5 then GotConnack(m[2] % 2 == 1, m[3]) else Rejected
    case 3 => DeserializedPublish(m)
    case 9 => if |m| == 5 && m[1] == 3 && m[4] <= 2 then GotSuback(ReadWord(m[2..]), m[4]) else Rejected
    case 12 => if m == [0xC0, 0] then GotPing(12) else Rejected
    case 13 => if m == [0xD0, 0] then GotPing(13) else Rejected
    case t =>
      if t in {4, 5, 6, 7, 11} && |m| == 4 && m[1] == 2 then GotAck(ReadWord(m[2..])) else Rejected
  }

  /** Whether get_data_and_length_stream asks for memory, be it for no bytes at all. */
  predicate AsksForField(s: seq<byte>) {
    |s| >= 2 && |s| > 2 + ReadWord(s)
  }

  /** What follows the topic leaves no byte for the message. */
  predicate EmptyTail(header: byte, tail: seq<byte>) {
    if header / 2 % 4 == 0 then tail == [] else |tail| == 2
  }

  predicate EmptyRest(header: byte, rest: seq<byte>) {
    AsksForField(rest)
    && (ReadWord(rest) == 0 || EmptyTail(header, rest[2 + ReadWord(rest)..]))
  }

  /** A PUBLISH with a quality of service of 3: it is refused, but its type has been noted. */
  predicate BadService(m: seq<byte>) {
    |m| >= 4 && m[0] / 16 == 3 && m[0] / 2 % 4 == 3
  }

  /** A PUBLISH for whose topic or message a block of no bytes is allocated. */
  predicate EmptyBlock(m: seq<byte>) {
    && |m| >= 4 && m[0] / 16 == 3 && m[0] / 2 % 4 != 3
    && match SkipLength(m[1..], 0)
       case None => false
       case Some(n) => 1 + n <= |m| && EmptyRest(m[0], m[1 + n..])
  }

  /** Such a PUBLISH is refused. */
  lemma EmptyBlockRejected(m: seq<byte>)
    requires EmptyBlock(m)
    ensures Deserialized(m) == Rejected
  {
    SkipLengthInside(m[1..], 0);
    var rest := m[1 + SkipLength(m[1..], 0).value..];
    if ReadWord(rest) > 0 {
      assert GetField(rest) == (rest[2..2 + ReadWord(rest)], 2 + ReadWord(rest));
    }
  }

  lemma GetFieldAgrees(s: seq<byte>)
    ensures ReadField(s).Some? && ReadField(s).value.1 != [] ==>
              GetField(s) == (ReadField(s).value.0, |s| - |ReadField(s).value.1|)
    ensures !(ReadField(s).Some? && ReadField(s).value.1 != []) ==> GetField(s).0 == []
  {
  }

  lemma PublishRestAgrees(header: byte, rest: seq<byte>)
    requires ReadPublishRest(header, rest).Some?
    ensures var p := ReadPublishRest(header, rest).value;
      DeserializedPublishRest(header, rest)
        == if p.topic == [] || p.message == [] then Rejected else GotPublish(p)
  {
    GetFieldAgrees(rest);
    var (topic, tail) := ReadField(rest).value;
    assert tail != [] ==> rest[|rest| - |tail|..] == tail;
  }

  /** Every PUBLISH the standard admits is deserialized as the standard reads it, except
      that those with an empty message are refused. */
  lemma DeserializeMeetsStandard(m: seq<byte>)
    requires ReadPublish(m).Some?
    ensures var p := ReadPublish(m).value;
      Deserialized(m) == if p.message == [] then Rejected else GotPublish(p)
  {
    SkipLengthExact(m[1..], 0);
    LengthMinimal(m[1..], 0);
    var rest := ReadRemaining(m).value;
    assert |m| >= 4;
    PublishRestAgrees(m[0], rest);
  }

  /** What is serialized comes back from the deserializer exactly when the topic fits a
      field, and this without the remaining length being looked at. */
  lemma PublishRoundTrip(p: Publish)
    requires PublishFields(p) && p.topic != [] && p.message != []
    ensures Deserialized(PublishPacket(p)) == GotPublish(Conveyed(p)) <==> |p.topic| < WORD_LIMIT
  {
    HeaderReads(p);
    LimitIsPower();
    var rest, n := PublishRest(p), |PublishRest(p)| % LENGTH_LIMIT;
    var m := PublishPacket(p);
    LengthRoundTrip(n, 0, rest);
    assert m[1..] == EncodeLength(n) + rest;
    SkipLengthExact(m[1..], 0);
    assert m[1 + |EncodeLength(n)|..] == rest;
    assert Deserialized(m) == DeserializedPublishRest(m[0], rest);
    if |p.topic| < WORD_LIMIT {
      PublishRestReads(p);
      PublishRestAgrees(m[0], rest);
    }
  }

  /** The length field of m, be it a valid one or not, ends with byte n. */
  predicate LengthEnds(m: seq<byte>, n: nat) {
    1 <= n <= 5 && n < |m| && (forall i :: 1 <= i < n ==> m[i] >= 128) && (n == 5 || m[n] < 128)
  }

  /** Which bytes skip_length_stream takes, and when it finds no end to them. */
  lemma {:induction false} SkipLengthBytes(s: seq<byte>, index: nat)
    requires index <= 4
    ensures SkipLength(s, index).None? <==> |s| < 5 - index && forall i :: 0 <= i < |s| ==> s[i] >= 128
    ensures SkipLength(s, index).Some? ==>
              var n := SkipLength(s, index).value;
              && 1 <= n <= |s| && n <= 5 - index && (n == 5 - index || s[n - 1] < 128)
              && forall i :: 0 <= i < n - 1 ==> s[i] >= 128
    decreases |s|
  {
    if s != [] && s[0] >= 128 && index < 4 {
      SkipLengthBytes(s[1..], index + 1);
      assert forall i :: 1 <= i < |s| ==> s[i] == s[1..][i - 1];
      if forall i :: 0 <= i < |s| ==> s[i] >= 128 {
        assert forall i :: 0 <= i < |s[1..]| ==> s[1..][i] == s[i + 1];
      }
    }
  }

  /** After a length field ending with byte n come a topic and a single byte more, where
      there should be two of a packet id. */
  predicate HalfId(m: seq<byte>, n: nat) {
    LengthEnds(m, n) && |m| - n - 1 >= 2 && 0 < ReadWord(m[1 + n..]) == |m| - n - 4
  }

  /** When the deserializer of PUBLISH leaves the message: at most four bytes of length and
      none of them the last, or half a packet id. */
  lemma PublishOverreadIff(m: seq<byte>)
    requires |m| >= 4 && m[0] / 16 == 3 && m[0] / 2 % 4 != 3
    ensures Deserialized(m) == Overread <==>
              || (|m| <= 5 && forall i :: 1 <= i < |m| ==> m[i] >= 128)
              || (m[0] / 2 % 4 != 0 && exists n :: HalfId(m, n))
  {
    var s := m[1..];
    SkipLengthBytes(s, 0);
    assert forall i :: 1 <= i < |m| ==> m[i] == s[i - 1];
    match SkipLength(s, 0)
    case None =>
      assert forall i :: 0 <= i < |s| ==> s[i] == m[i + 1];
    case Some(n) =>
      assert LengthEnds(m, n);
      assert s[n - 1] == m[n];
      forall k | LengthEnds(m, k) ensures k == n {
      }
      assert (exists k :: HalfId(m, k)) <==> HalfId(m, n);
  }

  // ----- acknowledgements, section 3.4 and on -----

  /** serialize_acknowledge; `kind` is 4 to 7, and PUBREL carries a reserved flag. */
  function AckPacket(kind: nat, packetId: nat): seq<byte>
    requires 4 <= kind <= 7
  {
    [kind * 16 + if kind == 6 then 2 else 0, 2] + Word(packetId)
  }

  /** The id survives a round trip, and it is all that does: the kinds read the same. */
  lemma AckRoundTrip(kind: nat, packetId: nat)
    requires 4 <= kind <= 7 && packetId < WORD_LIMIT
    ensures Deserialized(AckPacket(kind, packetId)) == GotAck(packetId)
  {
    var m := AckPacket(kind, packetId);
    assert m[2..] == Word(packetId) + [];
    WordReads(packetId, []);
  }

  // ----- CONNECT, section 3.1 -----

  datatype Will = Will(topic: seq<byte>, message: seq<byte>, qos: nat, retain: bool)

  datatype Connect = Connect(clientId: seq<byte>, will: Option<Will>, username: Option<seq<byte>>,
                             password: Option<seq<byte>>, cleanSession: bool, keepAlive: nat)

  function ConnectFlags(c: Connect): byte {
    Bit(c.username.Some?, 128) + Bit(c.username.Some? && c.password.Some?, 64)
    + Bit(c.cleanSession, 2)
    + match c.will
      case None => 0
      case Some(w) => 4 + w.qos % 4 * 8 + Bit(w.retain, 32)
  }

  function OptionalField(o: Option<seq<byte>>): seq<byte> {
    match o
    case None => []
    case Some(x) => Field(x)
  }

  function WillFields(o: Option<Will>): seq<byte> {
    match o
    case None => []
    case Some(w) => Field(w.topic) + Field(w.message)
  }

  const PROTOCOL: seq<byte> := [0, 4, 0x4D, 0x51, 0x54, 0x54, 4]

  function ConnectPayload(c: Connect): seq<byte> {
    Field(c.clientId) + (WillFields(c.will) + (OptionalField(c.username) + OptionalField(c.password)))
  }

  function ConnectRest(c: Connect): seq<byte> {
    PROTOCOL + [ConnectFlags(c)] + Word(c.keepAlive) + ConnectPayload(c)
  }

  function ConnectPacket(c: Connect): seq<byte> {
    Framed(0x10, ConnectRest(c))
  }

  /** The protocol name MQTT and level 4, as section 3.1.2 has them. */
  const MQTT_4: seq<byte> := [0x00, 0x04, 0x4D, 0x51, 0x54, 0x54, 0x04]

  function ReadOptional(present: bool, s: seq<byte>): Option<(Option<seq<byte>>, seq<byte>)> {
    if !present then Some((None, s))
    else match ReadField(s)
      case None => None
      case Some((x, rest)) => Some((Some(x), rest))
  }

  function ReadWill(flags: byte, s: seq<byte>): Option<(Option<Will>, seq<byte>)> {
    if flags / 4 % 2 == 0 then
      if flags / 8 % 8 != 0 then None else Some((None, s))
    else if flags / 8 % 4 == 3 then None
    else match ReadField(s)
      case None => None
      case Some((topic, s1)) =>
        match ReadField(s1)
        case None => None
        case Some((message, s2)) =>
          Some((Some(Will(topic, message, flags / 8 % 4, flags / 32 % 2 == 1)), s2))
  }

  /** An empty client id wants a clean session (statement 3.1.3-7), and a topic is not empty. */
  predicate ConnectAllowed(c: Connect) {
    (c.clientId == [] ==> c.cleanSession) && (c.will.Some? ==> c.will.value.topic != [])
  }

  /** The standard's reading of the payload, driven by the flags, with nothing left over. */
  function ReadConnectPayload(flags: byte, keepAlive: nat, s: seq<byte>): Option<Connect> {
    if flags % 2 != 0 || (flags / 64 % 2 == 1 && flags / 128 == 0) then None
    else match ReadField(s)
      case None => None
      case Some((clientId, s1)) =>
        match ReadWill(flags, s1)
        case None => None
        case Some((will, s2)) =>
          match ReadOptional(flags / 128 == 1, s2)
          case None => None
          case Some((username, s3)) =>
            match ReadOptional(flags / 64 % 2 == 1, s3)
            case None => None
            case Some((password, s4)) =>
              var c := Connect(clientId, will, username, password, flags / 2 % 2 == 1, keepAlive);
              if s4 == [] && ConnectAllowed(c) then Some(c) else None
  }

  function ReadConnect(m: seq<byte>): Option<Connect> {
    if m == [] || m[0] != 0x10 then None
    else match ReadRemaining(m)
      case None => None
      case Some(rest) =>
        if |rest| < 10 || rest[..7] != MQTT_4 then None
        else ReadConnectPayload(rest[7], ReadWord(rest[8..]), rest[10..])
  }

  /** What check_serialize_connect and the field widths guarantee. */
  predicate ConnectFieldsOk(c: Connect) {
    c.keepAlive < WORD_LIMIT && (c.password.Some? ==> c.username.Some?)
  }

  predicate OptionFits(o: Option<seq<byte>>) {
    o.Some? ==> |o.value| < WORD_LIMIT
  }

  /** Every field fits its 16-bit length, the will's quality of service is one, and the
      standard allows it. */
  predicate ConnectFits(c: Connect) {
    && ConnectAllowed(c) && |c.clientId| < WORD_LIMIT && OptionFits(c.username) && OptionFits(c.password)
    && (c.will.Some? ==> |c.will.value.topic| < WORD_LIMIT && |c.will.value.message| < WORD_LIMIT
                         && c.will.value.qos < 3)
  }

  /** The bits of 128 u + 64 p + 32 r + 8 q + 4 w + 2 c. */
  lemma FlagBits(u: nat, p: nat, r: nat, q: nat, w: nat, c: nat)
    requires u < 2 && p < 2 && r < 2 && q < 4 && w < 2 && c < 2
    ensures var f := 128 * u + 64 * p + 32 * r + 8 * q + 4 * w + 2 * c;
      && f < 256 && f % 2 == 0 && f / 2 % 2 == c && f / 4 % 2 == w && f / 8 % 4 == q
      && f / 32 % 2 == r && f / 64 % 2 == p && f / 128 == u && f / 8 % 8 == q + 4 * r
  {
    var f := 128 * u + 64 * p + 32 * r + 8 * q + 4 * w + 2 * c;
    assert f / 2 == 64 * u + 32 * p + 16 * r + 4 * q + 2 * w + c;
    assert f / 4 == 32 * u + 16 * p + 8 * r + 2 * q + w;
    assert f / 8 == 16 * u + 8 * p + 4 * r + q;
    assert f / 32 == 4 * u + 2 * p + r;
    assert f / 64 == 2 * u + p;
  }

  lemma FlagsRead(c: Connect)
    requires ConnectFieldsOk(c)
    ensures var f := ConnectFlags(c);
      && f % 2 == 0 && (f / 2 % 2 == 1 <==> c.cleanSession)
      && (f / 4 % 2 == 1 <==> c.will.Some?)
      && (f / 64 % 2 == 1 <==> c.password.Some?) && (f / 128 == 1 <==> c.username.Some?) && f / 128 <= 1
      && (c.will.Some? ==> f / 8 % 4 == c.will.value.qos % 4 && (f / 32 % 2 == 1 <==> c.will.value.retain))
      && (c.will.None? ==> f / 8 % 8 == 0)
  {
    var u, p, s := Bit(c.username.Some?, 1), Bit(c.password.Some?, 1), Bit(c.cleanSession, 1);
    match c.will
    case None =>
      FlagBits(u, p, 0, 0, 0, s);
      assert ConnectFlags(c) == 128 * u + 64 * p + 2 * s;
    case Some(w) =>
      FlagBits(u, p, Bit(w.retain, 1), w.qos % 4, 1, s);
      assert ConnectFlags(c) == 128 * u + 64 * p + 32 * Bit(w.retain, 1) + 8 * (w.qos % 4) + 4 + 2 * s;
  }

  lemma OptionalReads(o: Option<seq<byte>>, rest: seq<byte>)
    requires OptionFits(o)
    ensures ReadOptional(o.Some?, OptionalField(o) + rest) == Some((o, rest))
  {
    match o
    case None => assert [] + rest == rest;
    case Some(x) => FieldReads(x, rest);
  }

  lemma WillReads(c: Connect, rest: seq<byte>)
    requires ConnectFieldsOk(c) && ConnectFits(c)
    ensures ReadWill(ConnectFlags(c), WillFields(c.will) + rest) == Some((c.will, rest))
  {
    FlagsRead(c);
    match c.will
    case None => assert [] + rest == rest;
    case Some(w) =>
      assert WillFields(c.will) + rest == Field(w.topic) + (Field(w.message) + rest);
      FieldReads(w.topic, Field(w.message) + rest);
      FieldReads(w.message, rest);
  }

  lemma PayloadReads(c: Connect)
    requires ConnectFieldsOk(c) && ConnectFits(c)
    ensures ReadConnectPayload(ConnectFlags(c), c.keepAlive, ConnectPayload(c)) == Some(c)
  {
    FlagsRead(c);
    var u, p := OptionalField(c.username), OptionalField(c.password);
    FieldReads(c.clientId, WillFields(c.will) + (u + p));
    WillReads(c, u + p);
    OptionalReads(c.username, p);
    assert p + [] == p;
    OptionalReads(c.password, []);
  }

  /** Reading never yields a field too long for its length, nor a third kind of service. */
  lemma ReadPayloadFits(flags: byte, keepAlive: nat, s: seq<byte>)
    ensures ReadConnectPayload(flags, keepAlive, s).Some? ==>
              ConnectFits(ReadConnectPayload(flags, keepAlive, s).value)
  {
  }

  lemma ConnectRestShort(c: Connect)
    requires ConnectFits(c)
    ensures |ConnectRest(c)| < LENGTH_LIMIT
  {
  }

  lemma ConnectRestParts(c: Connect)
    requires c.keepAlive < WORD_LIMIT
    ensures var rest := ConnectRest(c);
      && |rest| >= 10 && rest[..7] == PROTOCOL && rest[7] == ConnectFlags(c)
      && ReadWord(rest[8..]) == c.keepAlive && rest[10..] == ConnectPayload(c)
  {
    hide ConnectFlags, ConnectPayload;
    var rest := ConnectRest(c);
    assert rest[8..] == Word(c.keepAlive) + ConnectPayload(c);
    WordReads(c.keepAlive, ConnectPayload(c));
  }

  /** A CONNECT can be read back from its flags and its lengths, with nothing left over,
      exactly when every field fits and the standard allows it. */
  lemma ConnectReadable(c: Connect)
    requires ConnectFieldsOk(c)
    ensures ReadConnect(ConnectPacket(c)) == Some(c) <==> ConnectFits(c)
  {
    hide ConnectRest, ConnectFlags, ConnectPayload, ReadConnectPayload, ReadRemaining, EncodeLength;
    FramedReads(0x10, ConnectRest(c));
    ConnectRestParts(c);
    ReadPayloadFits(ConnectFlags(c), c.keepAlive, ConnectPayload(c));
    if ConnectFits(c) {
      ConnectRestShort(c);
      PayloadReads(c);
    }
  }

  // ----- SUBSCRIBE and UNSUBSCRIBE, sections 3.8 and 3.10 -----

  /** serialize_subscribtion writes both packets alike, but for the header. */
  function SubscriptionRest(packetId: nat, topic: seq<byte>, qos: byte): seq<byte> {
    Word(packetId) + Field(topic) + [qos]
  }

  function SubscriptionPacket(subscribe: bool, packetId: nat, topic: seq<byte>, qos: byte): seq<byte> {
    Framed(if subscribe then 0x82 else 0xA2, SubscriptionRest(packetId, topic, qos))
  }

  /** The topic filters of a SUBSCRIBE, each with a quality of service. */
  function ReadRequests(s: seq<byte>): Option<seq<(seq<byte>, byte)>>
    decreases |s|
  {
    if s == [] then Some([])
    else match ReadField(s)
      case None => None
      case Some((topic, tail)) =>
        if topic == [] || tail == [] || tail[0] > 2 then None
        else match ReadRequests(tail[1..])
          case None => None
          case Some(others) => Some([(topic, tail[0])] + others)
  }

  /** The topic filters of an UNSUBSCRIBE, and nothing else. */
  function ReadFilters(s: seq<byte>): Option<seq<seq<byte>>>
    decreases |s|
  {
    if s == [] then Some([])
    else match ReadField(s)
      case None => None
      case Some((topic, tail)) =>
        if topic == [] then None
        else match ReadFilters(tail)
          case None => None
          case Some(others) => Some([topic] + others)
  }

  /** The standard's reading of a SUBSCRIBE, with an id that is not zero. */
  function ReadSubscribe(m: seq<byte>): Option<(nat, seq<(seq<byte>, byte)>)> {
    if m == [] || m[0] != 0x82 then None
    else match ReadRemaining(m)
      case None => None
      case Some(rest) =>
        if |rest| < 2 || ReadWord(rest) == 0 then None
        else match ReadRequests(rest[2..])
          case None => None
          case Some(requests) => if requests == [] then None else Some((ReadWord(rest), requests))
  }

  /** The standard's reading of an UNSUBSCRIBE. */
  function ReadUnsubscribe(m: seq<byte>): Option<(nat, seq<seq<byte>>)> {
    if m == [] || m[0] != 0xA2 then None
    else match ReadRemaining(m)
      case None => None
      case Some(rest) =>
        if |rest| < 2 || ReadWord(rest) == 0 then None
        else match ReadFilters(rest[2..])
          case None => None
          case Some(filters) => if filters == [] then None else Some((ReadWord(rest), filters))
  }

  lemma SubscriptionParts(header: byte, packetId: nat, topic: seq<byte>, qos: byte)
    requires packetId < WORD_LIMIT
    ensures var rest := SubscriptionRest(packetId, topic, qos);
      && |rest| >= 2 && ReadWord(rest) == packetId && rest[2..] == Field(topic) + [qos]
      && (ReadRemaining(Framed(header, rest)).Some? ==> ReadRemaining(Framed(header, rest)) == Some(rest))
      && (|topic| < WORD_LIMIT ==> ReadRemaining(Framed(header, rest)) == Some(rest))
  {
    var rest := SubscriptionRest(packetId, topic, qos);
    FramedReads(header, rest);
    assert rest == Word(packetId) + (Field(topic) + [qos]);
    WordReads(packetId, Field(topic) + [qos]);
  }

  lemma FirstFits(s: seq<byte>)
    ensures ReadRequests(s).Some? && ReadRequests(s).value != [] ==> 0 < |ReadRequests(s).value[0].0| < WORD_LIMIT
    ensures ReadFilters(s).Some? && ReadFilters(s).value != [] ==> 0 < |ReadFilters(s).value[0]| < WORD_LIMIT
  {
    hide ReadField;
    ReadFieldShort(s);
  }

  lemma FramedHeader(header: byte, rest: seq<byte>)
    ensures |Framed(header, rest)| > 0 && Framed(header, rest)[0] == header
  {
  }

  lemma RequestReads(topic: seq<byte>, qos: byte)
    requires |topic| < WORD_LIMIT
    ensures ReadRequests(Field(topic) + [qos]) == if topic != [] && qos <= 2 then Some([(topic, qos)]) else None
  {
    hide Field, ReadField;
    FieldReads(topic, [qos]);
    var s := Field(topic) + [qos];
    assert s != [];
    var tail: seq<byte> := [qos];
    assert ReadField(s) == Some((topic, tail));
    var others := ReadRequests(tail[1..]);
    assert tail[1..] == [] && others == Some([]);
    assert [(topic, qos)] + others.value == [(topic, qos)];
  }

  /** The standard reads a serialized SUBSCRIBE as the one request it is for exactly when
      there is a topic that fits its length, a quality of service that is one, and an id. */
  lemma SubscribeReadable(packetId: nat, topic: seq<byte>, qos: byte)
    requires packetId < WORD_LIMIT
    ensures ReadSubscribe(SubscriptionPacket(true, packetId, topic, qos)) == Some((packetId, [(topic, qos)]))
            <==> 0 < |topic| < WORD_LIMIT && qos <= 2 && packetId != 0
  {
    hide Field, Framed, ReadRemaining, SubscriptionRest, ReadRequests, ReadFilters;
    var s := Field(topic) + [qos];
    SubscriptionParts(0x82, packetId, topic, qos);
    assert SubscriptionPacket(true, packetId, topic, qos)[0] == 0x82 by {
      FramedHeader(0x82, SubscriptionRest(packetId, topic, qos));
    }
    FirstFits(s);
    assert ReadSubscribe(SubscriptionPacket(true, packetId, topic, qos)) == Some((packetId, [(topic, qos)])) ==>
        ReadRequests(s) == Some([(topic, qos)]) && [(topic, qos)][0] == (topic, qos);
    if |topic| < WORD_LIMIT {
      RequestReads(topic, qos);
    }
  }

  lemma FiltersRead(topic: seq<byte>, qos: byte)
    requires |topic| < WORD_LIMIT
    ensures ReadFilters(Field(topic) + [qos]) == None
  {
    FieldReads(topic, [qos]);
    assert ReadFilters([qos]) == None;
  }

  /** A serialized UNSUBSCRIBE carries a byte too many: the standard never reads it as the
      one it is meant for, and not at all if the topic fits its length. */
  lemma UnsubscribeUnreadable(packetId: nat, topic: seq<byte>, qos: byte)
    requires packetId < WORD_LIMIT
    ensures var m := SubscriptionPacket(false, packetId, topic, qos);
      && ReadUnsubscribe(m) != Some((packetId, [topic]))
      && (|topic| < WORD_LIMIT ==> ReadUnsubscribe(m) == None)
  {
    hide Field, Framed, ReadRemaining, SubscriptionRest, ReadRequests, ReadFilters;
    var s := Field(topic) + [qos];
    SubscriptionParts(0xA2, packetId, topic, qos);
    FirstFits(s);
    assert ReadUnsubscribe(SubscriptionPacket(false, packetId, topic, qos)) == Some((packetId, [topic])) ==>
        ReadFilters(s) == Some([topic]) && [topic][0] == topic;
    if |topic| < WORD_LIMIT {
      FiltersRead(topic, qos);
    }
  }

  lemma FieldLong(x: seq<byte>)
    ensures |Field(x)| == 2 + |x|
  {
  }

  lemma FilterReads(topic: seq<byte>)
    requires |topic| < WORD_LIMIT
    ensures ReadFilters(Field(topic)) == if topic != [] then Some([topic]) else None
  {
    hide Field, ReadField;
    assert Field(topic) + [] == Field(topic);
    FieldReads(topic, []);
    assert Field(topic) != [] by {
      FieldLong(topic);
    }
    assert ReadFilters([]) == Some([]);
    assert [topic] + [] == [topic];
  }

  lemma WithoutLast(packetId: nat, topic: seq<byte>, qos: byte)
    requires packetId < WORD_LIMIT && |topic| < WORD_LIMIT
    ensures var rest := SubscriptionRest(packetId, topic, qos);
      && rest != [] && rest[|rest| - 1] == qos
      && (ReadUnsubscribe(Framed(0xA2, rest[..|rest| - 1])) == Some((packetId, [topic])) <==>
            topic != [] && packetId != 0)
  {
    hide Field, Framed, ReadRemaining, ReadFilters;
    var rest := SubscriptionRest(packetId, topic, qos);
    var body := Word(packetId) + Field(topic);
    FieldLong(topic);
    assert rest == body + [qos] && rest[..|rest| - 1] == body;
    FramedHeader(0xA2, body);
    FramedReads(0xA2, body);
    WordReads(packetId, Field(topic));
    assert body[2..] == Field(topic);
    FilterReads(topic);
    assert [topic][0] == topic;
  }

  lemma {:induction false} EncodeMonotone(n: nat, k: nat)
    requires n <= k
    ensures |EncodeLength(n)| <= |EncodeLength(k)|
  {
    if n >= 128 {
      EncodeMonotone(n / 128, k / 128);
    }
  }

  lemma NotCut(n: nat)
    requires n < LENGTH_LIMIT
    ensures n % LENGTH_LIMIT == n
  {
  }

  lemma ShorterLength(n: nat)
    requires 0 < n < LENGTH_LIMIT
    ensures |EncodeLength((n - 1) % LENGTH_LIMIT)| <= |EncodeLength(n % LENGTH_LIMIT)|
  {
    hide EncodeLength;
    NotCut(n);
    NotCut(n - 1);
    EncodeMonotone(n - 1, n);
  }

  /** A packet without its last byte, and the length less by one. */
  function Shortened(m: seq<byte>): seq<byte> {
    match ReadRemaining(m)
    case None => m
    case Some(rest) => if rest == [] then m else Framed(m[0], rest[..|rest| - 1])
  }

  /** And as it is meant without that byte, if there are a topic and an id. */
  lemma UnsubscribeReadableWithout(packetId: nat, topic: seq<byte>, qos: byte)
    requires packetId < WORD_LIMIT && |topic| < WORD_LIMIT
    ensures var m := SubscriptionPacket(false, packetId, topic, qos);
      && m[|m| - 1] == qos && |Shortened(m)| < |m|
      && (ReadUnsubscribe(Shortened(m)) == Some((packetId, [topic])) <==> topic != [] && packetId != 0)
  {
    hide Field, ReadRemaining, ReadFilters;
    FieldLong(topic);
    var rest := SubscriptionRest(packetId, topic, qos);
    FramedHeader(0xA2, rest);
    ShorterLength(|rest|);
    SubscriptionParts(0xA2, packetId, topic, qos);
    WithoutLast(packetId, topic, qos);
  }

  // ----- the other replies, against sections 3.2, 3.4 to 3.7, 3.9, 3.11 and 3.13 -----

  /** The standard's reading of a CONNACK: session present and return code. */
  function ReadConnack(m: seq<byte>): Option<(bool, byte)> {
    if m == [] || m[0] != 0x20 then None
    else match ReadRemaining(m)
      case None => None
      case Some(rest) =>
        if |rest| != 2 || rest[0] > 1 || rest[1] > 5 || (rest[1] != 0 && rest[0] != 0) then None
        else Some((rest[0] == 1, rest[1]))
  }

  /** The standard's reading of a SUBACK: the id, not zero, and a return code for every filter. */
  function ReadSuback(m: seq<byte>): Option<(nat, seq<byte>)> {
    if m == [] || m[0] != 0x90 then None
    else match ReadRemaining(m)
      case None => None
      case Some(rest) =>
        if |rest| < 3 || ReadWord(rest) == 0 || exists i :: 2 <= i < |rest| && rest[i] > 2 && rest[i] != 0x80 then None
        else Some((ReadWord(rest), rest[2..]))
  }

  /** The types of PUBACK, PUBREC, PUBREL, PUBCOMP and UNSUBACK, by their first bytes. */
  function AckTypeOf(b: byte): Option<nat> {
    match b
    case 0x40 => Some(4)
    case 0x50 => Some(5)
    case 0x62 => Some(6)
    case 0x70 => Some(7)
    case 0xB0 => Some(11)
    case _ => None
  }

  /** The types the deserializer takes for acknowledgements. */
  predicate AckType(t: nat) {
    4 <= t <= 7 || t == 11
  }

  /** The standard's reading of those: the type, and the id, not zero. */
  function ReadAck(m: seq<byte>): Option<(nat, nat)> {
    if m == [] then None
    else match AckTypeOf(m[0])
      case None => None
      case Some(kind) =>
        match ReadRemaining(m)
        case None => None
        case Some(rest) => if |rest| != 2 || ReadWord(rest) == 0 then None else Some((kind, ReadWord(rest)))
  }

  /** The standard's reading of a PINGREQ or PINGRESP: the type. */
  function ReadPing(m: seq<byte>): Option<nat> {
    if m == [] || ReadRemaining(m) != Some([]) then None
    else if m[0] == 0xC0 then Some(12)
    else if m[0] == 0xD0 then Some(13)
    else None
  }

  lemma LongFormUsesTwo(s: seq<byte>)
    requires s != []
    ensures DecodeLength(s, 0).Length? && s[0] >= 128 ==> DecodeLength(s, 0).used >= 2
  {
    if s[0] >= 128 && DecodeLength(s, 0).Length? {
      LengthMinimal(s[1..], 1);
    }
  }

  /** A remaining length below 128 in its minimal form. */
  lemma ShortRemaining(m: seq<byte>)
    requires 2 <= |m| < 130
    ensures m[1] == |m| - 2 ==> ReadRemaining(m) == Some(m[2..])
    ensures ReadRemaining(m).Some? && m[1] != |m| - 2 ==> |ReadRemaining(m).value| < |m| - 2
    ensures ReadRemaining(m).Some? && |ReadRemaining(m).value| == |m| - 2 ==> m[1] == |m| - 2
  {
    LongFormUsesTwo(m[1..]);
  }

  /**
   * Of the CONNACKs of the standard those with a length in its minimal form are taken, and
   * as they are meant; what is taken besides has reserved bits set, or a session along with
   * a refusal.
   */
  lemma ConnackAgainstStandard(m: seq<byte>)
    requires m != []
    ensures ReadConnack(m).Some? ==>
              Deserialized(m) == if |m| == 4 then GotConnack(ReadConnack(m).value.0, ReadConnack(m).value.1)
                                 else Rejected
    ensures Deserialized(m).GotConnack? ==>
              (ReadConnack(m).Some? <==> m[0] == 0x20 && m[2] <= 1 && (m[3] == 0 || m[2] == 0))
  {
    if |m| == 4 {
      ShortRemaining(m);
    }
  }

  /** Of the SUBACKs of the standard those with a single return code that is no refusal are
      taken; what is taken besides has reserved bits set or no id. */
  lemma SubackAgainstStandard(m: seq<byte>)
    requires m != []
    ensures ReadSuback(m).Some? ==>
              var (id, codes) := ReadSuback(m).value;
              Deserialized(m) == if |m| == 5 && codes[0] != 0x80 then GotSuback(id, codes[0]) else Rejected
    ensures Deserialized(m).GotSuback? ==>
              (ReadSuback(m).Some? <==> m[0] == 0x90 && Deserialized(m).packetId != 0)
  {
    if |m| == 5 {
      ShortRemaining(m);
      if ReadSuback(m).Some? {
        assert m[2..][2] == m[4];
      }
    }
  }

  lemma AckDeserialized(m: seq<byte>)
    requires m != []
    ensures AckType(m[0] / 16) ==>
              Deserialized(m) == if |m| == 4 && m[1] == 2 then GotAck(ReadWord(m[2..])) else Rejected
    ensures Deserialized(m).GotAck? ==> AckType(m[0] / 16)
  {
    hide ReadWord;
  }

  lemma AckAgainstStandard(m: seq<byte>)
    requires m != []
    ensures ReadAck(m).Some? ==> Deserialized(m) == if |m| == 4 then GotAck(ReadAck(m).value.1) else Rejected
    ensures Deserialized(m).GotAck? ==>
              (ReadAck(m).Some? <==> AckTypeOf(m[0]).Some? && Deserialized(m).packetId != 0)
  {
    AckDeserialized(m);
    hide Deserialized;
    assert AckTypeOf(m[0]).Some? ==> AckType(m[0] / 16);
    if |m| == 4 {
      ShortRemaining(m);
      assert |m[2..]| == 2;
    }
    if Deserialized(m).GotAck? {
      assert ReadRemaining(m) == Some(m[2..]);
      assert AckTypeOf(m[0]).Some? && ReadWord(m[2..]) != 0 ==>
          ReadAck(m) == Some((AckTypeOf(m[0]).value, ReadWord(m[2..])));
    }
  }

  /** An acknowledgement that is written is the one asked for, unless it has no id. */
  lemma AckReadable(kind: nat, packetId: nat)
    requires 4 <= kind <= 7 && packetId < WORD_LIMIT
    ensures ReadAck(AckPacket(kind, packetId)) == Some((kind, packetId)) <==> packetId != 0
    ensures packetId == 0 ==> ReadAck(AckPacket(kind, packetId)) == None
  {
    var m := AckPacket(kind, packetId);
    assert m[2..] == Word(packetId) + [];
    WordReads(packetId, []);
    ShortRemaining(m);
  }

  lemma PingAgainstStandard(m: seq<byte>)
    requires m != []
    ensures ReadPing(m).Some? ==> Deserialized(m) == if |m| == 2 then GotPing(ReadPing(m).value) else Rejected
    ensures Deserialized(m).GotPing? ==> ReadPing(m) == Some(Deserialized(m).kind)
  {
    if |m| == 2 {
      ShortRemaining(m);
    }
  }
}
