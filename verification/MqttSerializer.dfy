/**
 * pico_mqtt/pico_mqtt_serializer.c as it runs: a cursor through a heap block, length
 * digits in a fixed buffer, and flags that say which blocks the serializer must free.
 * What the methods write and read is stated by the functions of MqttPackets.
 */
module MqttSerializer {
  import opened Bytes
  import opened Heap
  import opened MqttPackets
  import opened Wrappers

  /** struct pico_mqtt_data, with its 32-bit length. */
  datatype Data = Data(length: nat, block: array?<byte>)

  const EMPTY := Data(0, null)

  ghost predicate IsData(d: Data) {
    if d.block == null then d.length == 0 else d.length <= d.block.Length && d.length < WORD
  }

  ghost function Content(d: Data): seq<byte>
    requires IsData(d)
    reads d.block
  {
    if d.block == null then [] else d.block[..d.length]
  }

  /** The part of struct pico_mqtt_serializer that only CONNECT uses. */
  datatype Options<D> = Options(
    keepAlive: nat,
    cleanSession: bool,
    willRetain: bool,
    clientIdFlag: bool, clientId: D,
    willTopicFlag: bool, willTopic: D,
    willMessageFlag: bool, willMessage: D,
    usernameFlag: bool, username: D,
    passwordFlag: bool, password: D
  )

  ghost predicate AreOptions(o: Options<Data>) {
    && IsData(o.clientId) && IsData(o.willTopic) && IsData(o.willMessage)
    && IsData(o.username) && IsData(o.password) && o.keepAlive < WORD_LIMIT
  }

  /** None of the data lies in the block. */
  ghost predicate Apart(o: Options<Data>, block: array?<byte>) {
    && block != o.clientId.block && block != o.willTopic.block && block != o.willMessage.block
    && block != o.username.block && block != o.password.block
  }

  /** The options with the data itself. */
  ghost function Contents(o: Options<Data>): Options<seq<byte>>
    requires AreOptions(o)
    reads o.clientId.block, o.willTopic.block, o.willMessage.block, o.username.block, o.password.block
  {
    Options(o.keepAlive, o.cleanSession, o.willRetain, o.clientIdFlag, Content(o.clientId),
            o.willTopicFlag, Content(o.willTopic), o.willMessageFlag, Content(o.willMessage),
            o.usernameFlag, Content(o.username), o.passwordFlag, Content(o.password))
  }

  const NO_OPTIONS :=
    Options(0, false, false, false, EMPTY, false, EMPTY, false, EMPTY, false, EMPTY, false, EMPTY)

  /** The part of struct pico_mqtt_serializer that describes the packet at hand. */
  datatype Fields = Fields(
    messageType: nat,
    sessionPresent: bool,
    returnCode: byte,
    packetId: nat,
    qualityOfService: byte,
    retain: bool,
    duplicate: bool
  )

  const NO_FIELDS := Fields(0, false, 0, 0, 0, false, false)

  /** What the caller has set up, or a message has brought. */
  datatype Setup = Setup(fields: Fields, options: Options<seq<byte>>, topic: seq<byte>, message: seq<byte>)

  const NO_SETUP :=
    Setup(NO_FIELDS, Options(0, false, false, false, [], false, [], false, [], false, [], false, []), [], [])

  /** The connection the options describe. */
  function ConnectOf(o: Options<seq<byte>>, qos: byte): Connect {
    Connect(
      o.clientId,
      if o.willTopicFlag && o.willMessageFlag then Some(Will(o.willTopic, o.willMessage, qos, o.willRetain)) else None,
      if o.usernameFlag then Some(o.username) else None,
      if o.passwordFlag then Some(o.password) else None,
      o.cleanSession || !o.clientIdFlag,
      o.keepAlive)
  }

  /** The publication the fields and the data describe. */
  function PublishOf(f: Fields, topic: seq<byte>, message: seq<byte>): Publish {
    Publish(f.duplicate, f.qualityOfService, f.retain, topic, f.packetId, message)
  }

  /** The packet pico_mqtt_serialize makes of that, or none. */
  function PacketOf(s: Setup): Option<seq<byte>> {
    var t, o := s.fields.messageType, s.options;
    if t == 1 then
      if o.clientIdFlag && (o.passwordFlag ==> o.usernameFlag) && (o.willTopicFlag <==> o.willMessageFlag)
      then Some(ConnectPacket(ConnectOf(o, s.fields.qualityOfService))) else None
    else if t == 3 then
      if s.topic != [] && s.message != []
      then Some(PublishPacket(PublishOf(s.fields, s.topic, s.message))) else None
    else if 4 <= t <= 7 then Some(AckPacket(t, s.fields.packetId))
    else if t == 8 || t == 10 then
      if s.topic != []
      then Some(SubscriptionPacket(t == 8, s.fields.packetId, s.topic, s.fields.qualityOfService)) else None
    else if 12 <= t <= 14 then Some([t * 16, 0])
    else None
  }

  /** A CONNECT says what the options do. */
  predicate Describes(c: Connect, o: Options<seq<byte>>, qos: byte) {
    && c.clientId == o.clientId && c.cleanSession == o.cleanSession && c.keepAlive == o.keepAlive
    && (if o.usernameFlag then c.username == Some(o.username) else c.username == None)
    && (if o.passwordFlag then c.password == Some(o.password) else c.password == None)
    && (c.will.Some? <==> o.willTopicFlag && o.willMessageFlag)
    && (c.will.Some? ==>
          && c.will.value.topic == o.willTopic && c.will.value.message == o.willMessage
          && c.will.value.qos == qos && c.will.value.retain == o.willRetain)
  }

  /** The standard's reader of such a packet gets from it what has been set up. */
  predicate ReadAsMeant(s: Setup, packet: seq<byte>) {
    var f := s.fields;
    match f.messageType
    case 1 => ReadConnect(packet).Some? && Describes(ReadConnect(packet).value, s.options, f.qualityOfService)
    case 3 =>
      var id := if f.qualityOfService == 0 then 0 else f.packetId;
      ReadPublish(packet) == Some(Publish(f.duplicate, f.qualityOfService, f.retain, s.topic, id, s.message))
    case 8 => ReadSubscribe(packet) == Some((f.packetId, [(s.topic, f.qualityOfService)]))
    case 10 => ReadUnsubscribe(packet) == Some((f.packetId, [s.topic]))
    case 12 => ReadPing(packet) == Some(12)
    case 13 => ReadPing(packet) == Some(13)
    case 14 => packet == [0xE0, 0]
    case t => ReadAck(packet) == Some((t, f.packetId))
  }

  /** Its texts fit their lengths, and the standard allows it. */
  predicate Conforms(s: Setup) {
    var f, o := s.fields, s.options;
    match f.messageType
    case 1 =>
      && (o.clientId == [] ==> o.cleanSession) && |o.clientId| < WORD_LIMIT
      && (o.usernameFlag ==> |o.username| < WORD_LIMIT) && (o.passwordFlag ==> |o.password| < WORD_LIMIT)
      && (o.willTopicFlag ==> 0 < |o.willTopic| < WORD_LIMIT && |o.willMessage| < WORD_LIMIT && f.qualityOfService < 3)
    case 3 =>
      && |s.topic| < WORD_LIMIT
      && 2 + |s.topic| + (if f.qualityOfService == 0 then 0 else 2) + |s.message| < LENGTH_LIMIT
      && if f.qualityOfService == 0 then !f.duplicate else f.packetId != 0
    case 8 => |s.topic| < WORD_LIMIT && f.qualityOfService <= 2 && f.packetId != 0
    case 10 => false
    case 12 => true
    case 13 => true
    case 14 => true
    case _ => f.packetId != 0
  }

  lemma ConnectAsMeant(s: Setup)
    requires s.fields.messageType == 1 && s.options.keepAlive < WORD_LIMIT && PacketOf(s).Some?
    ensures ReadAsMeant(s, PacketOf(s).value) <==> Conforms(s)
  {
    hide ReadConnect, ConnectPacket;
    var c := ConnectOf(s.options, s.fields.qualityOfService);
    ConnectReadable(c);
    var r := ReadConnect(ConnectPacket(c));
    if r.Some? && Describes(r.value, s.options, s.fields.qualityOfService) {
      assert r.value == c;
    }
  }

  lemma PublishAsMeant(s: Setup)
    requires s.fields.messageType == 3 && s.fields.packetId < WORD_LIMIT && s.fields.qualityOfService < 3
    requires PacketOf(s).Some?
    ensures ReadAsMeant(s, PacketOf(s).value) <==> Conforms(s)
  {
    hide ReadPublish, PublishPacket;
    PublishReadable(PublishOf(s.fields, s.topic, s.message));
  }

  lemma BareReadable()
    ensures ReadPing([0xC0, 0]) == Some(12) && ReadPing([0xD0, 0]) == Some(13)
  {
    ShortRemaining([0xC0, 0]);
    ShortRemaining([0xD0, 0]);
  }

  /**
   * What is serialized of a packet that has been set up is read by the standard as what was set
   * up exactly when its texts fit their lengths and the standard allows it, and is never an
   * UNSUBSCRIBE, which is read so without its last byte.
   */
  lemma PacketReadable(s: Setup)
    requires s.fields.packetId < WORD_LIMIT && s.options.keepAlive < WORD_LIMIT
    requires s.fields.messageType == 3 ==> s.fields.qualityOfService < 3
    requires PacketOf(s).Some?
    ensures ReadAsMeant(s, PacketOf(s).value) <==> Conforms(s)
    ensures s.fields.messageType == 10 && |s.topic| < WORD_LIMIT && s.fields.packetId != 0 ==>
              ReadAsMeant(s, Shortened(PacketOf(s).value))
  {
    var f := s.fields;
    if f.messageType == 1 {
      ConnectAsMeant(s);
    } else if f.messageType == 3 {
      PublishAsMeant(s);
    } else {
      hide ReadAck, ReadSubscribe, ReadUnsubscribe, ReadPing, AckPacket, SubscriptionPacket, Shortened;
      if f.messageType == 8 {
        SubscribeReadable(f.packetId, s.topic, f.qualityOfService);
      } else if f.messageType == 10 {
        UnsubscribeUnreadable(f.packetId, s.topic, f.qualityOfService);
        if |s.topic| < WORD_LIMIT {
          UnsubscribeReadableWithout(f.packetId, s.topic, f.qualityOfService);
        }
      } else if f.messageType <= 7 {
        AckReadable(f.messageType, f.packetId);
      } else {
        BareReadable();
      }
    }
  }

  /** Beyond: the C has read past the end of a message or from what it has freed, or has written
      past the end of the stream. */
  datatype Status = Succes | Error | Beyond

  /** An outcome, the fields, and two pieces of data, owned or not, say what a message meant,
      and nothing else, but for what was left of the quality of service. */
  ghost predicate Reported(status: Status, f: Fields, topic: seq<byte>, message: seq<byte>, owned: bool, r: Reply) {
    match r
    case GotConnack(sessionPresent, returnCode) =>
      status == Succes && f == Fields(2, sessionPresent, returnCode, 0, f.qualityOfService, false, false)
    case GotPublish(p) =>
      && status == Succes && owned && PublishOf(f, topic, message) == p
      && f == Fields(3, false, 0, f.packetId, f.qualityOfService, f.retain, f.duplicate)
    case GotAck(packetId) => status == Succes && f == Fields(4, false, 0, packetId, f.qualityOfService, false, false)
    case GotSuback(packetId, qos) => status == Succes && f == Fields(9, false, 0, packetId, qos, false, false)
    case GotPing(kind) => status == Succes && f == Fields(kind, false, 0, 0, f.qualityOfService, false, false)
    case Rejected => status == Error
    case Overread => status == Beyond
  }

  // ----- the digits of a length -----

  /** The C's (length & mask) >> 7 * index. */
  function Digit(n: nat, index: nat): byte {
    if index == 0 then n % 128 else Digit(n / 128, index - 1)
  }

  lemma {:induction false} ZeroDigits(i: nat)
    ensures Digit(0, i) == 0
  {
    if i > 0 {
      ZeroDigits(i - 1);
    }
  }

  lemma {:induction false} EncodeDigits(n: nat, k: nat)
    requires k == |EncodeLength(n)|
    ensures forall i :: 0 <= i < k ==> Digit(n, i) < 128
    ensures forall i :: 0 <= i < k ==> EncodeLength(n)[i] == Digit(n, i) + if i < k - 1 then 128 else 0
    ensures forall i :: i >= k ==> Digit(n, i) == 0
    ensures k > 1 ==> Digit(n, k - 1) != 0
  {
    if n >= 128 {
      EncodeDigits(n / 128, k - 1);
      forall i | 1 <= i
        ensures Digit(n, i) == Digit(n / 128, i - 1)
      {
      }
    } else {
      forall i | i >= 1 ensures Digit(n, i) == 0 {
        ZeroDigits(i - 1);
      }
    }
  }

  lemma Shift128(a: nat, r: nat)
    ensures (128 * a + r) / 128 == a + r / 128 && (128 * a + r) % 128 == r % 128
  {
  }

  /** The first k digits do not see what lies above them. */
  lemma {:induction false} DigitMod(q: nat, r: nat, k: nat, i: nat)
    requires i < k
    ensures Digit(q * Pow(128, k) + r, i) == Digit(r, i)
  {
    var p := Pow(128, k - 1);
    assert q * Pow(128, k) == 128 * (q * p);
    Shift128(q * p, r);
    if i > 0 {
      DigitMod(q, r / 128, k - 1, i - 1);
    }
  }

  /** Four digits see 28 bits. */
  lemma DigitsOf28Bits(n: nat)
    ensures forall i :: 0 <= i < 4 ==> Digit(n % LENGTH_LIMIT, i) == Digit(n, i)
  {
    hide Digit;
    LimitIsPower();
    forall i | 0 <= i < 4 ensures Digit(n % LENGTH_LIMIT, i) == Digit(n, i) {
      assert n == n / LENGTH_LIMIT * Pow(128, 4) + n % LENGTH_LIMIT;
      DigitMod(n / LENGTH_LIMIT, n % LENGTH_LIMIT, 4, i);
    }
  }

  lemma LowBits(q: nat, r: nat)
    requires r < LENGTH_LIMIT
    ensures (q * LENGTH_LIMIT + r) % LENGTH_LIMIT == r
  {
  }

  /** All of them are among the 32 bits that the length has in the C. */
  lemma DigitsOf32Bits(n: nat)
    ensures n % WORD % LENGTH_LIMIT == n % LENGTH_LIMIT
  {
    var q, r := n / WORD, n % WORD;
    var h, l := r / LENGTH_LIMIT, r % LENGTH_LIMIT;
    assert n == q * WORD + r && r == h * LENGTH_LIMIT + l;
    assert n == (16 * q + h) * LENGTH_LIMIT + l;
    LowBits(16 * q + h, l);
  }

  ghost function Skipped(i: nat, n: Option<nat>): Option<nat> {
    match n
    case None => None
    case Some(k) => Some(i + k)
  }

  lemma WordCut(n: nat)
    ensures Word(n % WORD_LIMIT) == Word(n) && |Word(n)| == 2
  {
    var q, r := n / WORD_LIMIT, n % WORD_LIMIT;
    assert n / 256 == q * 256 + r / 256;
  }

  /** stream_index: a place in a block, with the length of the stream as its limit. */
  class Cursor {
    const block: array<byte>
    const limit: nat
    var index: nat

    ghost predicate Valid()
      reads this
    {
      index <= limit <= block.Length && limit < WORD
    }

    ghost function Written(): seq<byte>
      requires Valid()
      reads this, block
    {
      block[..index]
    }

    /** What is still to be read. */
    ghost function Rest(): seq<byte>
      requires Valid()
      reads this, block
    {
      block[index..limit]
    }

    constructor (block: array<byte>, limit: nat)
      requires limit <= block.Length && limit < WORD
      ensures Valid() && this.block == block && this.limit == limit && index == 0
    {
      this.block, this.limit, index := block, limit, 0;
    }

    /** add_byte_stream */
    method AddByte(b: byte)
      requires Valid() && index < limit
      modifies this, block
      ensures Valid() && Written() == old(Written()) + [b]
    {
      block[index] := b;
      index := index + 1;
      assert block[..index - 1] == old(block[..index]);
    }

    /** add_2_byte_stream */
    method AddTwoBytes(n: nat)
      requires Valid() && index + 2 <= limit && n < WORD_LIMIT
      modifies this, block
      ensures Valid() && Written() == old(Written()) + Word(n)
    {
      AddByte(n / 256);
      AddByte(n % 256);
    }

    /** add_data_stream */
    method AddData(d: Data)
      requires Valid() && IsData(d) && index + d.length <= limit && d.block != block
      modifies this, block
      ensures Valid() && Written() == old(Written()) + Content(d)
    {
      ghost var content := Content(d);
      var i := 0;
      while i < d.length
        invariant 0 <= i <= d.length
        invariant Valid() && index == old(index) + i
        invariant Content(d) == content
        invariant Written() == old(Written()) + content[..i]
      {
        AddByte(d.block[i]);
        assert content[..i + 1] == content[..i] + [content[i]];
        i := i + 1;
      }
      assert content[..i] == content;
    }

    /** add_data_and_length_stream */
    method AddField(d: Data)
      requires Valid() && IsData(d) && index + d.length + 2 <= limit && d.block != block
      modifies this, block
      ensures Valid() && Written() == old(Written()) + Field(Content(d))
    {
      hide Word;
      WordCut(d.length);
      ghost var start, content := Written(), Content(d);
      AddTwoBytes(d.length % WORD_LIMIT);
      if d.length != 0 {
        AddData(d);
      }
      assert Written() == start + (Word(d.length) + content);
    }

    /** get_byte_stream */
    method GetByte() returns (b: byte)
      requires Valid() && index < limit
      modifies this
      ensures Valid() && old(Rest()) == [b] + Rest()
      ensures b == block[old(index)] && index == old(index) + 1
    {
      b := block[index];
      index := index + 1;
    }

    /** get_2_byte_stream */
    method GetTwoBytes() returns (n: nat)
      requires Valid() && index + 2 <= limit
      modifies this
      ensures Valid() && n == ReadWord(old(Rest())) && n < WORD_LIMIT && Rest() == old(Rest())[2..]
      ensures n == block[old(index)] as nat * 256 + block[old(index) + 1] && index == old(index) + 2
    {
      var high := GetByte();
      var low := GetByte();
      n := (high as nat) * 256 + low;
    }

    /** get_bytes_left_stream */
    function BytesLeft(): nat
      requires Valid()
      reads this, block
      ensures BytesLeft() == |Rest()| < WORD
    {
      limit - index
    }

    /** skip_length_stream; false where the C would read past the end of the stream. */
    method SkipLength() returns (inside: bool)
      requires Valid()
      modifies this
      ensures Valid()
      ensures inside <==> MqttPackets.SkipLength(old(Rest()), 0).Some?
      ensures inside ==> MqttPackets.SkipLength(old(Rest()), 0).value <= |old(Rest())|
                         && Rest() == old(Rest())[MqttPackets.SkipLength(old(Rest()), 0).value..]
    {
      ghost var s := Rest();
      SkipLengthInside(s, 0);
      var i := 0;
      while true
        invariant 0 <= i <= 4 && Valid() && index == old(index) + i
        invariant Skipped(i, MqttPackets.SkipLength(Rest(), i)) == MqttPackets.SkipLength(s, 0)
        decreases 4 - i
      {
        if index == limit {
          return false;
        }
        ghost var rest := Rest();
        var b := GetByte();
        assert rest[1..] == Rest();
        if b < 128 || i == 4 {
          return true;
        }
        i := i + 1;
      }
    }

    /** The copying loop of get_data_stream and get_data_and_length_stream. */
    method CopyTo(target: array<byte>)
      requires Valid() && target.Length <= BytesLeft() && target != block
      modifies this, target
      ensures Valid() && target[..] == old(Rest())[..target.Length]
      ensures Rest() == old(Rest())[target.Length..]
    {
      ghost var s := Rest();
      var i := 0;
      while i < target.Length
        invariant 0 <= i <= target.Length && Valid() && index == old(index) + i
        invariant s == old(block[index..limit]) == block[old(index)..limit]
        invariant target[..i] == s[..i]
      {
        ghost var rest := Rest();
        assert rest[0] == s[i];
        var b := GetByte();
        target[i] := b;
        i := i + 1;
        assert target[..i] == target[..i - 1] + [b];
      }
      assert target[..] == target[..i];
    }
  }

  ghost function Vouched(flag: bool, d: Data): set<object> {
    if flag && d.block != null then {d.block} else {}
  }

  /** A new stream n takes the place of one that may have been owned. */
  lemma StreamReplaced(mine: set<object>, live: set<object>, others: set<object>, stream: set<object>, n: set<object>)
    requires others + stream <= mine * live && others !! stream && n !! mine && n !! live
    ensures (mine + n) * (live + n) - (others + n) == mine * live - (others + stream) + stream
  {
  }

  /** Beside what is owned, a new block n that nobody vouches for leaks. */
  lemma NewlyLeaked(mine: set<object>, live: set<object>, owned: set<object>, n: set<object>)
    requires n !! mine && n !! live && owned <= mine * live
    ensures mine * live - owned <= (mine + n) * (live + n) - owned
    ensures (mine + n) * (live + n) - owned == mine * live - owned <==> n == {}
  {
    if b :| b in n {
      assert b in (mine + n) * (live + n) - owned;
    } else {
      assert n == {};
    }
  }

  /** A new block n that is vouched for does not. */
  lemma OwnedKept(mine: set<object>, live: set<object>, owned: set<object>, n: set<object>)
    requires n !! mine && n !! live && owned <= mine * live
    ensures (mine + n) * (live + n) - (owned + n) == mine * live - owned
  {
  }

  /** Freeing some of what is owned changes nothing for the rest. */
  lemma OwnedFreed(mine: set<object>, live: set<object>, owned: set<object>, rest: set<object>)
    ensures mine * (live - owned) - rest == mine * live - (owned + rest)
    ensures live - owned - rest == live - (owned + rest)
  {
  }

  /** A serializer between two calls. */
  datatype View = View(
    setup: Setup,
    topicOwned: bool, messageOwned: bool, streamOwned: bool,
    topicFreed: bool, messageFreed: bool,       // where the data was has been freed
    topicAtStake: bool, messageAtStake: bool,   // a clear would free it
    stream: seq<byte>,
    leaked: set<object>,
    refusals: nat
  )

  const NEW := View(NO_SETUP, false, false, false, false, false, false, false, [], {}, 0)

  lemma Nested(s: seq<byte>, a: seq<byte>, b: seq<byte>, w: seq<byte>, u: seq<byte>, p: seq<byte>)
    ensures s + a + b + w + u + p == s + (a + (b + (w + (u + p))))
  {
  }

  lemma ConnectRestLength(c: Connect)
    ensures |ConnectRest(c)| == 10 + |Field(c.clientId)| + |WillFields(c.will)|
                                + |OptionalField(c.username)| + |OptionalField(c.password)|
    ensures forall x: seq<byte> :: |Field(x)| == |x| + 2
  {
  }

  lemma FieldLength(x: seq<byte>)
    ensures |Field(x)| == |x| + 2
  {
  }

  lemma SubscriptionRestLength(id: nat, topic: seq<byte>, qos: byte)
    ensures |SubscriptionRest(id, topic, qos)| == |topic| + 5
    ensures |Word(id)| == 2 && |Field(topic)| == |topic| + 2
  {
  }

  lemma PublishRestLength(p: Publish)
    ensures |Field(p.topic)| == |p.topic| + 2 && |Word(p.packetId)| == 2
    ensures |PublishRest(p)| == |p.topic| + 2 + |p.message| + if p.qos != 0 then 2 else 0
  {
  }

  lemma ShiftMore(p: nat, digit: nat, v: nat)
    ensures p * (digit + 128 * v) == digit * p + 128 * p * v
  {
  }

  ghost function Shifted(result: nat, index: nat, d: Decoded): Decoded {
    match d
    case Length(v, u) => Length(result + Pow(128, index) * v, index + u)
    case other => other
  }

  lemma NextLengthByte(s: seq<byte>, index: nat, result: nat)
    requires index < 4 && index < |s|
    ensures var sum := result + s[index] % 128 * Pow(128, index);
      Shifted(result, index, DecodeLength(s[index..], index))
        == if s[index] < 128 then Length(sum, index + 1)
           else Shifted(sum, index + 1, DecodeLength(s[index + 1..], index + 1))
  {
    assert s[index..][0] == s[index] && s[index..][1..] == s[index + 1..];
    match DecodeLength(s[index + 1..], index + 1)
    case Length(v, u) =>
      assert Pow(128, index + 1) == 128 * Pow(128, index);
      ShiftMore(Pow(128, index), s[index] % 128, v);
    case _ =>
  }

  predicate StaleView(v: View) {
    match v.setup.fields.messageType
    case 3 => v.topicFreed || v.messageFreed
    case 8 => v.topicFreed
    case 10 => v.topicFreed
    case _ => false
  }

  /** Freed data would be serialized next. */
  predicate Tainted(v: View) {
    PacketOf(v.setup).Some? && StaleView(v)
  }

  class Serializer {
    const mem: Memory

    var fields: Fields
    var options: Options<Data>
    var topicOwnership: bool
    var topic: Data
    var messageOwnership: bool
    var message: Data
    const serializedLengthData: array<byte>
    var serializedLength: nat
    var stream: Data
    var streamOwnership: bool
    var streamIndex: Cursor?
    var error: bool
    var topicFreed: bool          // the topic is in a block that the serializer has freed,
    var messageFreed: bool        // and so is the message; the C cannot tell
    ghost var mine: set<object>   // every block this serializer has allocated

    // ----- ownership -----

    ghost predicate Owns(flag: bool, d: Data)
      reads this`mine, mem`live
    {
      flag ==> d.block != null && d.block in mem.live && d.block in mine
    }

    /** A flag that is set vouches for a live block of the serializer's own, and no block
        is vouched for twice. */
    ghost predicate OwnershipValid()
      reads this`topicOwnership, this`topic, this`messageOwnership, this`message
      reads this`streamOwnership, this`stream, this`mine, mem`live
    {
      && Owns(topicOwnership, topic) && Owns(messageOwnership, message) && Owns(streamOwnership, stream)
      && (topicOwnership && messageOwnership ==> topic.block != message.block)
      && (topicOwnership && streamOwnership ==> topic.block != stream.block)
      && (messageOwnership && streamOwnership ==> message.block != stream.block)
    }

    ghost function OwnedData(): set<object>
      reads this`topicOwnership, this`topic, this`messageOwnership, this`message
    {
      Vouched(topicOwnership, topic) + Vouched(messageOwnership, message)
    }

    ghost function OwnedStream(): set<object>
      reads this`streamOwnership, this`stream
    {
      Vouched(streamOwnership, stream)
    }

    /** The blocks the serializer vouches for. */
    ghost function Owned(): set<object>
      reads this`topicOwnership, this`topic, this`messageOwnership, this`message
      reads this`streamOwnership, this`stream
    {
      OwnedData() + OwnedStream()
    }

    /** Blocks of the serializer's that are still allocated and that nothing will free. */
    ghost function Leaked(): set<object>
      reads this`topicOwnership, this`topic, this`messageOwnership, this`message
      reads this`streamOwnership, this`stream, this`mine, mem`live
    {
      mine * mem.live - Owned()
    }

    /** The data is in a block of the serializer's own that has been freed. */
    ghost predicate Gone(d: Data)
      reads this`mine, mem`live
    {
      d.block != null && d.block in mine && d.block !in mem.live
    }

    ghost predicate FreedNoted()
      reads this`topic, this`message, this`topicFreed, this`messageFreed, this`mine, mem`live
    {
      (topicFreed <==> Gone(topic)) && (messageFreed <==> Gone(message))
    }

    ghost predicate Sized()
      reads this`topic, this`message, this`stream, this`options
    {
      IsData(topic) && IsData(message) && IsData(stream) && AreOptions(options)
    }

    ghost predicate Valid()
      reads this`topicOwnership, this`topic, this`messageOwnership, this`message
      reads this`streamOwnership, this`stream, this`mine, mem`live
      reads this`options, this`fields, this`serializedLength, this`topicFreed, this`messageFreed
    {
      && OwnershipValid() && FreedNoted() && Sized() && Apart(options, serializedLengthData)
      && topic.block != serializedLengthData && message.block != serializedLengthData
      && serializedLengthData.Length == 4 && 1 <= serializedLength <= 4
      && serializedLengthData !in mine && this !in mine
      && fields.packetId < WORD_LIMIT
    }

    /** The owned blocks are live, the serializer's own, and distinct. */
    lemma OwnedBlocks()
      requires Valid()
      ensures Owned() <= mine * mem.live
      ensures Vouched(topicOwnership, topic) !! Vouched(messageOwnership, message)
      ensures OwnedStream() !! OwnedData()
    {
    }

    lemma StreamOnly()
      requires !topicOwnership && !messageOwnership
      ensures Owned() == OwnedStream()
      ensures Valid() ==> OwnedStream() <= mine
    {
    }

    lemma StreamCounts()
      requires Valid()
      ensures OwnedStream() == {} <==> !streamOwnership
      ensures Leaked() + OwnedStream() == Leaked() <==> !streamOwnership
    {
      if streamOwnership {
        assert stream.block in OwnedStream() && stream.block !in Leaked();
      } else {
        assert Leaked() + {} == Leaked();
      }
    }

    lemma HasWidths()
      requires Valid()
      ensures serializedLengthData.Length == 4 && fields.packetId < WORD_LIMIT
      ensures topic.block != serializedLengthData && message.block != serializedLengthData
      ensures serializedLengthData !in mine && Sized() && Apart(options, serializedLengthData)
    {
    }

    /** No free went wrong, and nothing was freed that others allocated. */
    twostate predicate OthersKept()
      reads this, mem
    {
      && mem.faults == old(mem.faults)
      && mem.live - mine == old(mem.live - mine)
      && old(mine) <= mine
      && (forall b :: b in mine && b !in old(mine) ==> fresh(b))
    }

    twostate lemma LiveKept()
      requires OthersKept()
      ensures forall o :: o !in mine ==> (o in mem.live <==> o in old(mem.live))
      ensures forall o :: o in old(mem.live) && o !in old(mine) ==> o in mem.live
    {
      forall o | o !in mine ensures o in mem.live <==> o in old(mem.live) {
        assert o in mem.live <==> o in mem.live - mine;
        assert o in old(mem.live) <==> o in old(mem.live - mine);
      }
      forall o | o in old(mem.live) && o !in old(mine) ensures o in mem.live {
        assert o in mem.live - mine;
      }
    }

    /** A refusal before anything was done. */
    twostate predicate Untouched(status: Status)
      reads this, mem, serializedLengthData
    {
      && serializedLengthData[..] == old(serializedLengthData[..])
      && status == Error && stream == old(stream) && streamOwnership == old(streamOwnership)
      && mem.live == old(mem.live) && mem.refusals == old(mem.refusals) && Leaked() == old(Leaked())
    }

    /** FREE, with a note if the topic or the message was there. */
    method FreeBlock(b: array<byte>)
      modifies mem`live, mem`faults, this`topicFreed, this`messageFreed
      ensures mem.live == old(mem.live) - {b} && mem.faults == old(mem.faults) + if b in old(mem.live) then 0 else 1
      ensures topicFreed == (old(topicFreed) || topic.block == b)
      ensures messageFreed == (old(messageFreed) || message.block == b)
    {
      mem.Free(b);
      topicFreed, messageFreed := topicFreed || topic.block == b, messageFreed || message.block == b;
    }

    /** Another block of the serializer's. */
    ghost method Acquire(b: array<byte>)
      requires Valid() && b != serializedLengthData && b !in mem.live && b !in mine
      modifies mem`live, this`mine
      ensures Valid() && mem.live == old(mem.live) + {b} && mine == old(mine) + {b} && b !in Owned()
      ensures mem.live - mine == old(mem.live - mine)
    {
      OwnedBlocks();
      mem.Track(b);
      mine := mine + {b};
    }

    method Malloc(n: nat) returns (b: array?<byte>)
      requires Valid()
      modifies mem, this`mine
      ensures Valid() && OthersKept()
      ensures mem.refusals == old(mem.refusals) + if b == null then 1 else 0
      ensures b == null ==> mem.live == old(mem.live) && mine == old(mine)
      ensures b != null ==>
                && fresh(b) && b.Length == n
                && mem.live == old(mem.live) + {b} && mine == old(mine) + {b}
                && b != serializedLengthData && b !in Owned()
    {
      hide Serializer.Valid;
      var granted := mem.Grant();
      if !granted {
        return null;
      }
      b := new byte[n];
      Acquire(b);
    }

    /** pico_mqtt_serializer_create, and the total reset it makes. */
    constructor (mem: Memory)
      modifies mem`live
      ensures Valid() && this.mem == mem && mine == {} && fresh(serializedLengthData)
      ensures fields == NO_FIELDS && options == NO_OPTIONS && topic == message == stream == EMPTY
      ensures !topicOwnership && !messageOwnership && !streamOwnership && !topicFreed && !messageFreed
      ensures mem.live == old(mem.live) + {this} && mem.faults == old(mem.faults)
      ensures Owned() == {} && mem.refusals == old(mem.refusals)
    {
      this.mem := mem;
      fields, options := NO_FIELDS, NO_OPTIONS;
      topicOwnership, topic, messageOwnership, message := false, EMPTY, false, EMPTY;
      serializedLengthData, serializedLength := new byte[4], 1;
      stream, streamOwnership, streamIndex := EMPTY, false, null;
      topicFreed, messageFreed := false, false;
      error, mine := false, {};
      new;
      mem.Track(this);
    }

    lemma NothingOwned()
      requires !topicOwnership && !messageOwnership && !streamOwnership
      ensures Owned() == {} && Leaked() == mine * mem.live
    {
    }

    lemma OwnedParts()
      requires Valid()
      ensures Owned() == OwnedData() + OwnedStream()
      ensures Leaked() == mine * mem.live - Owned()
    {
    }

    /** An owned block b is freed: what follows from it, and nothing else. */
    twostate predicate Freed(b: array?<byte>)
      reads this, mem
    {
      && b != null && mem.live == old(mem.live) - {b} && mine == old(mine) && Leaked() == old(Leaked())
      && topicFreed == (old(topicFreed) || topic.block == b)
      && messageFreed == (old(messageFreed) || message.block == b)
    }

    method FreeTopic()
      requires Valid() && topicOwnership
      modifies this`topicOwnership, this`topicFreed, this`messageFreed, mem`live, mem`faults
      ensures Valid() && OthersKept() && !topicOwnership && Freed(topic.block)
    {
      OwnedFreed(mine, mem.live, {topic.block}, Vouched(messageOwnership, message) + OwnedStream());
      FreeBlock(topic.block);
      topicOwnership := false;
    }

    method FreeMessage()
      requires Valid() && messageOwnership
      modifies this`messageOwnership, this`topicFreed, this`messageFreed, mem`live, mem`faults
      ensures Valid() && OthersKept() && !messageOwnership && Freed(message.block)
    {
      OwnedFreed(mine, mem.live, {message.block}, Vouched(topicOwnership, topic) + OwnedStream());
      FreeBlock(message.block);
      messageOwnership := false;
    }

    method FreeStream()
      requires Valid() && streamOwnership
      modifies this`streamOwnership, this`topicFreed, this`messageFreed, mem`live, mem`faults
      ensures Valid() && OthersKept() && !streamOwnership && Freed(stream.block)
    {
      OwnedFreed(mine, mem.live, {stream.block}, OwnedData());
      FreeBlock(stream.block);
      streamOwnership := false;
    }

    /** destroy_serializer_stream */
    method DestroyStream()
      requires Valid()
      modifies this`stream, this`streamOwnership, this`streamIndex, mem`live, mem`faults
      modifies this`topicFreed, this`messageFreed
      ensures Valid() && OthersKept() && !streamOwnership && stream == EMPTY && streamIndex == null
      ensures topicFreed == (old(topicFreed) || (topic.block != null && topic.block in old(OwnedStream())))
      ensures messageFreed == (old(messageFreed) || (message.block != null && message.block in old(OwnedStream())))
      ensures mem.live == old(mem.live - OwnedStream()) && Leaked() == old(Leaked())
    {
      if streamOwnership {
        FreeStream();
      }
      stream, streamIndex := EMPTY, null;
    }

    method ResetPacket()
      requires Valid()
      modifies this`fields, this`serializedLength, serializedLengthData
      ensures Valid() && serializedLength == 1
      ensures fields == NO_FIELDS.(qualityOfService := old(fields).qualityOfService)
      ensures serializedLengthData[..] == [0, 0, 0, 0]
    {
      fields, serializedLength := NO_FIELDS.(qualityOfService := fields.qualityOfService), 1;
      forall i | 0 <= i < 4 {
        serializedLengthData[i] := 0;
      }
    }

    /** The frees of pico_mqtt_serializer_clear, and the flags they go by. */
    method FreeOwnedData()
      requires Valid()
      modifies this`topicOwnership, this`messageOwnership, mem`live, mem`faults
      modifies this`topicFreed, this`messageFreed
      ensures Valid() && OthersKept() && !topicOwnership && !messageOwnership
      ensures topicFreed == (old(topicFreed) || (topic.block != null && topic.block in old(OwnedData())))
      ensures messageFreed == (old(messageFreed) || (message.block != null && message.block in old(OwnedData())))
      ensures mem.live == old(mem.live - OwnedData()) && Leaked() == old(Leaked()) && mine == old(mine)
    {
      hide Serializer.Valid, Serializer.Leaked;
      if topicOwnership {
        FreeTopic();
      }
      if messageOwnership {
        FreeMessage();
      }
    }

    ghost predicate AtStake(d: Data)
      reads this`topicOwnership, this`topic, this`messageOwnership, this`message
      reads this`streamOwnership, this`stream
    {
      d.block != null && d.block in Owned()
    }

    /** pico_mqtt_serializer_clear: what is owned is freed, and nothing else. */
    method Clear()
      requires Valid()
      modifies this, mem`live, mem`faults, serializedLengthData
      ensures Valid() && OthersKept()
      ensures !topicOwnership && !messageOwnership && !streamOwnership
      ensures stream == EMPTY && mine == old(mine) && serializedLength == 1
      ensures serializedLengthData[..] == [0, 0, 0, 0]
      ensures mem.live == old(mem.live - Owned()) && Owned() == {} && Leaked() == old(Leaked())
      ensures options == old(options) && topic == old(topic) && message == old(message)
      ensures topicFreed == (old(topicFreed) || old(AtStake(topic)))
      ensures messageFreed == (old(messageFreed) || old(AtStake(message)))
      ensures fields == NO_FIELDS.(qualityOfService := old(fields).qualityOfService)
    {
      hide Vouched, Serializer.Owned, Serializer.OwnedStream, Serializer.Leaked, Serializer.Valid;
      OwnedParts();
      OwnedFreed(mine, mem.live, OwnedData(), OwnedStream());
      FreeOwnedData();
      ResetPacket();
      DestroyStream();
      NothingOwned();
    }

    method ForgetData()
      requires Valid()
      modifies this`topicOwnership, this`topic, this`messageOwnership, this`message
      modifies this`topicFreed, this`messageFreed
      ensures Valid() && !topicOwnership && !messageOwnership && topic == message == EMPTY
      ensures !topicFreed && !messageFreed
    {
      topicOwnership, topic, topicFreed := false, EMPTY, false;
      messageOwnership, message, messageFreed := false, EMPTY, false;
    }

    method ForgetStream()
      requires Valid()
      modifies this`stream, this`streamOwnership, this`streamIndex
      ensures Valid() && stream == EMPTY && !streamOwnership
    {
      stream, streamOwnership, streamIndex := EMPTY, false, null;
    }

    lemma OwnedNone()
      requires Valid()
      ensures Leaked() + Owned() == mine * mem.live
      ensures Leaked() + Owned() == Leaked() <==> !topicOwnership && !messageOwnership && !streamOwnership
    {
      OwnedBlocks();
      if topicOwnership {
        assert topic.block in Owned() && topic.block !in Leaked();
      } else if messageOwnership {
        assert message.block in Owned() && message.block !in Leaked();
      } else if streamOwnership {
        assert stream.block in Owned() && stream.block !in Leaked();
      } else {
        NothingOwned();
      }
    }

    method ForgetFields()
      requires Valid()
      modifies this`fields, this`options
      ensures Valid() && options == NO_OPTIONS && fields == NO_FIELDS
    {
      fields, options := NO_FIELDS, NO_OPTIONS;
    }

    /**
     * pico_mqtt_serializer_total_reset: it forgets owned blocks, and so never frees them.
     * Nothing leaks exactly when nothing was owned.
     */
    method TotalReset()
      requires Valid()
      modifies this, mem`live, mem`faults, serializedLengthData
      ensures Valid() && OthersKept() && mem.live == old(mem.live) && mine == old(mine)
      ensures Owned() == {} && Leaked() == old(Leaked() + Owned())
      ensures !topicOwnership && !messageOwnership && !streamOwnership
      ensures Leaked() == old(Leaked()) <==>
                !old(topicOwnership) && !old(messageOwnership) && !old(streamOwnership)
      ensures options == NO_OPTIONS && fields == NO_FIELDS && topic == message == stream == EMPTY
      ensures !topicFreed && !messageFreed
    {
      hide Vouched, Serializer.Valid, Serializer.Leaked, Serializer.Owned;
      OwnedNone();
      ForgetData();
      ForgetFields();
      ForgetStream();
      NothingOwned();
      Clear();
    }

    /** pico_mqtt_serializer_destroy */
    method Destroy()
      requires Valid() && this in mem.live
      modifies this, mem`live, mem`faults, serializedLengthData
      ensures mem.faults == old(mem.faults) && mine == old(mine)
      ensures mem.live == old(mem.live - Owned() - {this})
      ensures mine * mem.live == old(Leaked())
      ensures forall o :: o in old(mem.live) && o !in old(mine) && o != this ==> o in mem.live
    {
      Clear();
      mem.Free(this);
    }

    // ----- the remaining length -----

    /** The first loop of pico_mqtt_serialize_length: the digits, and how many of them count. */
    method ExtractDigits(length: nat, ghost n: nat, ghost k: nat)
      requires serializedLengthData.Length == 4 && 1 <= k <= 4
      requires forall i :: 0 <= i < 4 ==> Digit(length, i) == Digit(n, i)
      requires forall i :: k <= i < 4 ==> Digit(n, i) == 0
      requires k > 1 ==> Digit(n, k - 1) != 0
      modifies this`serializedLength, serializedLengthData
      ensures serializedLength == k
      ensures forall i :: 0 <= i < 4 ==> serializedLengthData[i] == Digit(n, i)
    {
      serializedLength := 1;
      var index := 0;
      while index < 4
        invariant 0 <= index <= 4
        invariant forall i :: 0 <= i < index ==> serializedLengthData[i] == Digit(n, i)
        invariant 1 <= serializedLength <= k && (index >= k ==> serializedLength == k)
      {
        serializedLengthData[index] := Digit(length, index);
        if serializedLengthData[index] != 0 {
          serializedLength := index + 1;
        }
        index := index + 1;
      }
    }

    /** The second loop of pico_mqtt_serialize_length: a continuation bit on all digits but the last. */
    method SetContinuation(ghost code: seq<byte>)
      requires serializedLengthData.Length == 4 && serializedLength == |code| <= 4
      requires forall i :: 0 <= i < |code| ==> serializedLengthData[i] < 128
      requires forall i :: 0 <= i < |code| ==>
                 code[i] == serializedLengthData[i] + if i < |code| - 1 then 128 else 0
      modifies serializedLengthData
      ensures serializedLengthData[..serializedLength] == code
    {
      var index := 0;
      while index < serializedLength
        invariant 0 <= index <= serializedLength
        invariant forall i :: 0 <= i < index ==> serializedLengthData[i] == code[i]
        invariant forall i :: index <= i < |code| ==> serializedLengthData[i] == old(serializedLengthData[i])
      {
        var buffer := serializedLengthData[index];
        if index != serializedLength - 1 {
          buffer := buffer + 128;
        }
        serializedLengthData[index] := buffer;
        index := index + 1;
      }
    }

    /** pico_mqtt_serialize_length */
    method SerializeLength(length: nat)
      requires Valid()
      modifies this`serializedLength, serializedLengthData
      ensures Valid() && serializedLength <= 4
      ensures serializedLengthData[..serializedLength] == EncodeLength(length % LENGTH_LIMIT)
    {
      ghost var n := length % LENGTH_LIMIT;
      DigitsOf28Bits(length);
      EncodeDigits(n, |EncodeLength(n)|);
      LimitIsPower();
      LengthRoundTrip(n, 0, []);
      ExtractDigits(length, n, |EncodeLength(n)|);
      SetContinuation(EncodeLength(n));
    }

    /** pico_mqtt_deserialize_length, of a length that starts at `from` in `memory`. Nothing
        tells it where that ends. */
    method DeserializeLength(memory: array<byte>, from: nat) returns (status: Status, result: nat)
      requires from <= memory.Length
      modifies this`error
      ensures match DecodeLength(memory[from..], 0)
              case Length(_, _) => status == Succes
              case TooLong => status == Error
              case Short => status == Beyond
      ensures status == Succes ==> result == DecodeLength(memory[from..], 0).value
      ensures error == (old(error) || status == Error)
    {
      ghost var s := memory[from..];
      var index: nat, scale: nat := 0, 1;
      result := 0;
      while index < 4
        invariant 0 <= index <= 4 && from + index <= memory.Length
        invariant error == old(error) && scale == Pow(128, index)
        invariant index < 4 && DecodeLength(s, 0) == Shifted(result, index, DecodeLength(s[index..], index))
        decreases 4 - index
      {
        if from + index == memory.Length {
          return Beyond, result;
        }
        NextLengthByte(s, index, result);
        var buffer: nat := memory[from + index];
        result := result + buffer % 128 * scale;
        if buffer >= 128 {
          if index == 3 {
            error := true;
            return Error, result;
          }
          index, scale := index + 1, 128 * scale;
        } else {
          break;
        }
      }
      status := Succes;
    }

    // ----- the stream -----

    method SetStream(block: array?<byte>, length: nat)
      requires Valid()
      requires block != null ==>
                 && block.Length == length < WORD && block in mem.live && block in mine
                 && block !in Owned() && block != serializedLengthData
      modifies this`stream, this`streamOwnership
      ensures Valid() && streamOwnership == (block != null)
      ensures stream == if block == null then EMPTY else Data(length, block)
      ensures Owned() == OwnedData()
                         + Vouched(true, Data(length, block))
    {
      streamOwnership, stream := block != null, if block == null then EMPTY else Data(length, block);
    }

    ghost predicate NoStream()
      reads this`stream, this`streamOwnership
    {
      stream == EMPTY && !streamOwnership
    }

    /** The allocation in create_serializer_stream, and the flag and data that go with it. */
    method AllocateStream(length: nat) returns (block: array?<byte>)
      requires Valid() && length < WORD
      modifies this`stream, this`streamOwnership, this`mine, mem
      ensures Valid() && OthersKept()
      ensures mem.refusals == old(mem.refusals) + if block == null then 1 else 0
      ensures Leaked() == old(Leaked() + OwnedStream())
      ensures block == null ==> NoStream()
      ensures block != null ==>
                fresh(block) && block.Length == length && streamOwnership && stream == Data(length, block)
    {
      hide Serializer.Valid;
      OwnedBlocks();
      ghost var others, d := OwnedData(), OwnedStream();
      ghost var live, was := mem.live, mine;
      assert Leaked() + d == was * live - (others + d) + d;
      block := Malloc(length);
      ghost var n := Vouched(true, Data(length, block));
      StreamReplaced(was, live, others, d, n);
      SetStream(block, length);
      assert Leaked() == (was + n) * (live + n) - (others + n);
    }

    /** The stream is an owned block of that length, with the cursor somewhere in it. */
    ghost predicate NewStream(length: nat)
      reads this, streamIndex
    {
      && streamOwnership && streamIndex != null && streamIndex.Valid()
      && stream.block == streamIndex.block && stream.length == streamIndex.limit == length
      && streamIndex.block.Length == length
    }

    /** create_serializer_stream. An owned stream that is still there leaks. */
    method CreateStream(length: nat) returns (status: Status)
      requires Valid() && length < WORD
      modifies this`stream, this`streamOwnership, this`streamIndex, this`mine, mem
      ensures Valid() && OthersKept()
      ensures mem.refusals == old(mem.refusals) + if status == Error then 1 else 0
      ensures Leaked() == old(Leaked() + OwnedStream())
      ensures status == Error ==> NoStream() && streamIndex == null
      ensures status != Error ==> status == Succes && NewStream(length)
      ensures status != Error ==> fresh(streamIndex) && fresh(stream.block) && streamIndex.index == 0
    {
      hide Vouched, Serializer.Leaked, Serializer.OwnedStream, Serializer.OwnershipValid;
      var block := AllocateStream(length);
      if block == null {
        streamIndex := null;
        return Error;
      }
      streamIndex := new Cursor(block, length);
      status := Succes;
    }

    /** The stream holds exactly this packet, and the cursor is at its end. */
    ghost predicate Holds(packet: seq<byte>)
      reads this, streamIndex, stream.block
    {
      && NewStream(|packet|) && streamIndex.index == |packet|
      && stream.block[..] == packet
    }

    /** A packet has been written. If its length goes beyond 32 bits the stream is too short
        for it, and if its data is stale the C copies from what it has freed; what comes of
        that is not modelled. */
    ghost predicate Wrote(status: Status, packet: seq<byte>, stale: bool)
      reads this, streamIndex, stream.block
    {
      status != Error ==>
        && streamOwnership
        && if |packet| < WORD && !stale then status == Succes && Holds(packet) else status == Beyond
    }

    /** The fixed header and the length digits. */
    method FillHeader(index: Cursor, header: byte)
      requires index.Valid() && serializedLength <= serializedLengthData.Length
      requires index.block != serializedLengthData && index.index == 0
      requires serializedLength + 1 <= index.limit
      modifies index, index.block
      ensures index.Valid() && index.Written() == [header] + serializedLengthData[..serializedLength]
    {
      index.AddByte(header);
      index.AddData(Data(serializedLength, serializedLengthData));
    }

    /** What every serializer of a packet with a remaining length starts with: the stream,
        the fixed header and the length. The C has computed the length in 32 bits, and adds
        to it in 32 bits. */
    method StartPacket(header: byte, length: nat) returns (status: Status)
      requires Valid()
      modifies this`serializedLength, serializedLengthData
      modifies this`stream, this`streamOwnership, this`streamIndex, this`mine, mem
      ensures Valid() && OthersKept()
      ensures mem.refusals == old(mem.refusals) + if status == Error then 1 else 0
      ensures Leaked() == old(Leaked() + OwnedStream())
      ensures status == Error ==> NoStream() && streamIndex == null
      ensures status != Error ==>
        var front := [header] + EncodeLength(length % LENGTH_LIMIT);
        if |front| + length >= WORD then status == Beyond && streamOwnership
        else
          && status == Succes && streamIndex != null
          && fresh(streamIndex) && fresh(stream.block) && NewStream(streamIndex.index + length)
          && streamIndex.Written() == front
    {
      hide EncodeLength, Vouched, Serializer.Leaked, Serializer.OwnedStream, Serializer.Valid;
      HasWidths();
      DigitsOf32Bits(length);
      SerializeLength(length % WORD);
      var size := length + 1 + serializedLength;
      status := CreateStream(size % WORD);
      if status == Error {
        return;
      }
      if size >= WORD {
        return Beyond;
      }
      FillHeader(streamIndex, header);
    }

    // ----- the serializers -----

    /** What serialize_publish writes after the remaining length. */
    method FillPublish(index: Cursor, ghost p: Publish)
      requires IsData(topic) && IsData(message) && fields.packetId < WORD_LIMIT
      requires index.block != topic.block && index.block != message.block
      requires p == PublishOf(fields, Content(topic), Content(message))
      requires index.Valid() && index.index + |PublishRest(p)| <= index.limit
      modifies index, index.block
      ensures index.Valid() && index.Written() == old(index.Written()) + PublishRest(p)
    {
      hide Word, Field;
      PublishRestLength(p);
      ghost var start, f, m := index.Written(), Field(p.topic), p.message;
      ghost var id := if p.qos != 0 then Word(p.packetId) else [];
      index.AddField(topic);
      if fields.qualityOfService != 0 {
        index.AddTwoBytes(fields.packetId);
      }
      assert index.Written() == start + f + id;
      index.AddData(message);
      assert index.Written() == start + f + id + m == start + (f + id + m);
    }

    /** The writes of serialize_publish. */
    method WritePublish(header: byte, length: nat, ghost p: Publish) returns (status: Status)
      requires Valid() && p == PublishOf(fields, Content(topic), Content(message))
      requires header == PublishHeader(p) && length == |PublishRest(p)|
      modifies this`serializedLength, serializedLengthData
      modifies this`stream, this`streamOwnership, this`streamIndex, this`mine, mem
      ensures Valid() && OthersKept()
      ensures mem.refusals == old(mem.refusals) + if status == Error then 1 else 0
      ensures Leaked() == old(Leaked() + OwnedStream())
      ensures status == Error ==> NoStream()
      ensures Wrote(status, PublishPacket(p), topicFreed || messageFreed)
    {
      hide EncodeLength, PublishRest, PublishHeader;
      hide Vouched, Serializer.Leaked, Serializer.OwnedStream, Serializer.OwnershipValid;
      status := StartPacket(header, length);
      if status != Succes {
        return;
      }
      if topicFreed || messageFreed {
        return Beyond;
      }
      FillPublish(streamIndex, p);
      assert stream.block[..] == streamIndex.Written();
    }

    /** The fixed header of serialize_publish. */
    method PublishFlags(ghost p: Publish) returns (header: byte)
      requires IsData(topic) && IsData(message) && p == PublishOf(fields, Content(topic), Content(message))
      ensures header == PublishHeader(p)
    {
      header := 0x30;
      if fields.retain {
        header := header + 1;
      }
      if fields.qualityOfService == 1 {
        header := header + 2;
      }
      if fields.qualityOfService == 2 {
        header := header + 4;
      }
      if fields.duplicate {
        header := header + 8;
      }
    }

    /** serialize_publish */
    method SerializePublish() returns (status: Status)
      requires Valid()
      modifies this`serializedLength, serializedLengthData
      modifies this`stream, this`streamOwnership, this`streamIndex, this`mine, mem
      ensures Valid() && OthersKept()
      ensures topic.length == 0 || message.length == 0 ==> Untouched(status)
      ensures topic.length > 0 && message.length > 0 ==>
                && mem.refusals == old(mem.refusals) + (if status == Error then 1 else 0)
                && Leaked() == old(Leaked() + OwnedStream())
                && (status == Error ==> NoStream())
      ensures status != Error ==>
                Wrote(status, PublishPacket(old(PublishOf(fields, Content(topic), Content(message)))),
                      topicFreed || messageFreed)
    {
      hide EncodeLength, PublishRest, PublishHeader;
      hide Vouched, Serializer.Leaked, Serializer.OwnedStream, Serializer.Valid;
      HasWidths();
      if topic.length == 0 || message.length == 0 {
        return Error;
      }
      ghost var p := PublishOf(fields, Content(topic), Content(message));
      PublishRestLength(p);
      var length := topic.length + 2 + message.length;
      if fields.qualityOfService != 0 {
        length := length + 2;
      }
      var header := PublishFlags(p);
      status := WritePublish(header, length, p);
    }

    /** What serialize_subscribtion writes after the remaining length. */
    method FillSubscription(index: Cursor)
      requires IsData(topic) && fields.packetId < WORD_LIMIT && topic.block != index.block
      requires index.Valid() && index.index + topic.length + 5 <= index.limit
      modifies index, index.block
      ensures index.Valid() && index.Written() == old(index.Written())
                + SubscriptionRest(fields.packetId, Content(topic), fields.qualityOfService)
    {
      hide Word, Field;
      ghost var start, id, t := index.Written(), fields.packetId, Content(topic);
      SubscriptionRestLength(id, t, fields.qualityOfService);
      index.AddTwoBytes(fields.packetId);
      index.AddField(topic);
      assert index.Written() == start + Word(id) + Field(t);
      index.AddByte(fields.qualityOfService);
      assert start + Word(id) + Field(t) + [fields.qualityOfService]
          == start + (Word(id) + Field(t) + [fields.qualityOfService]);
    }

    /** serialize_subscribtion, for SUBSCRIBE and UNSUBSCRIBE. */
    method SerializeSubscription(subscribe: bool) returns (status: Status)
      requires Valid()
      modifies this`serializedLength, serializedLengthData
      modifies this`stream, this`streamOwnership, this`streamIndex, this`mine, mem
      ensures Valid() && OthersKept()
      ensures topic.length == 0 ==> Untouched(status)
      ensures topic.length > 0 ==>
                && mem.refusals == old(mem.refusals) + (if status == Error then 1 else 0)
                && Leaked() == old(Leaked() + OwnedStream())
                && (status == Error ==> NoStream())
      ensures Wrote(status,
                    SubscriptionPacket(subscribe, fields.packetId, old(Content(topic)), fields.qualityOfService),
                    topicFreed)
    {
      hide EncodeLength, SubscriptionRest;
      hide Vouched, Serializer.Leaked, Serializer.OwnedStream, Serializer.Valid;
      HasWidths();
      if topic.length == 0 {
        return Error;
      }
      SubscriptionRestLength(fields.packetId, Content(topic), fields.qualityOfService);
      status := StartPacket(if subscribe then 0x82 else 0xA2, topic.length + 5);
      if status != Succes {
        return;
      }
      if topicFreed {
        return Beyond;
      }
      FillSubscription(streamIndex);
      assert stream.block[..] == streamIndex.Written();
    }

    /** The local array of serialize_acknowledge. */
    method BuildAcknowledge(kind: nat) returns (packet: array<byte>)
      requires Valid() && 4 <= kind <= 7
      ensures fresh(packet) && packet.Length == 4 && packet[..] == AckPacket(kind, fields.packetId)
    {
      var flags: byte := if kind == 6 then 0x02 else 0x00;
      packet := new byte[4];
      packet[0], packet[1] := kind * 16 + flags, 0x02;
      packet[2], packet[3] := fields.packetId / 256, fields.packetId % 256;
    }

    /** serialize_acknowledge, of the packet types 4 to 7. */
    method SerializeAcknowledge(kind: nat) returns (status: Status)
      requires Valid() && 4 <= kind <= 7
      modifies this`stream, this`streamOwnership, this`streamIndex, this`mine, mem
      ensures Valid() && OthersKept()
      ensures mem.refusals == old(mem.refusals) + if status == Error then 1 else 0
      ensures Leaked() == old(Leaked() + OwnedStream())
      ensures status == Error ==> NoStream()
      ensures Wrote(status, AckPacket(kind, fields.packetId), false)
    {
      hide AckPacket;
      hide Vouched, Serializer.Leaked, Serializer.OwnedStream, Serializer.OwnershipValid;
      var packet := BuildAcknowledge(kind);
      status := CreateStream(4);
      if status == Error {
        return;
      }
      streamIndex.AddData(Data(4, packet));
      assert stream.block[..] == streamIndex.Written();
    }

    /** serialize_pingreq, serialize_pingresp and serialize_disconnect. */
    method SerializeBare(word: nat) returns (status: Status)
      requires Valid() && word < WORD_LIMIT
      modifies this`stream, this`streamOwnership, this`streamIndex, this`mine, mem
      ensures Valid() && OthersKept()
      ensures mem.refusals == old(mem.refusals) + if status == Error then 1 else 0
      ensures Leaked() == old(Leaked() + OwnedStream())
      ensures status == Error ==> NoStream()
      ensures Wrote(status, Word(word), false)
    {
      status := CreateStream(2);
      if status == Error {
        return;
      }
      streamIndex.AddTwoBytes(word);
      assert stream.block[..] == streamIndex.Written();
    }

    /** What check_serialize_connect checks. */
    ghost predicate ConnectChecks()
      reads this
    {
      && options.clientIdFlag
      && (options.passwordFlag ==> options.usernameFlag)
      && (options.willTopicFlag <==> options.willMessageFlag)
    }

    /** serialize_connect_get_length */
    method ConnectLength(ghost c: Connect) returns (length: nat)
      requires Valid() && ConnectChecks() && c == ConnectOf(Contents(options), fields.qualityOfService)
      ensures length == |ConnectRest(c)|
    {
      length := 10;
      length := length + options.clientId.length + 2;
      if options.usernameFlag {
        length := length + options.username.length + 2;
        if options.passwordFlag {
          length := length + options.password.length + 2;
        }
      }
      if options.willTopicFlag && options.willMessageFlag {
        length := length + options.willTopic.length + 2;
        length := length + options.willMessage.length + 2;
      }
    }

    /** serialize_connect_get_flags */
    method ConnectFlagsByte(ghost c: Connect) returns (flags: byte)
      requires Valid() && c == ConnectOf(Contents(options), fields.qualityOfService)
      ensures flags == ConnectFlags(c)
    {
      flags := 0;
      if options.usernameFlag {
        flags := flags + 0x80;
        if options.passwordFlag {
          flags := flags + 0x40;
        }
      }
      if options.cleanSession || !options.clientIdFlag {
        flags := flags + 0x02;
      }
      if options.willTopicFlag && options.willMessageFlag {
        flags := flags + 0x04;
        flags := flags + fields.qualityOfService % 4 * 8;
        if options.willRetain {
          flags := flags + 0x20;
        }
      }
    }

    /** check_serialize_connect */
    method CheckConnect() returns (passed: bool)
      ensures passed == ConnectChecks()
    {
      if !options.clientIdFlag {
        return false;
      }
      if !options.usernameFlag {
        if options.passwordFlag {
          return false;
        }
      }
      if options.willTopicFlag != options.willMessageFlag {
        return false;
      }
      return true;
    }

    /** The variable header of serialize_connect. */
    method AddVariableHeader(index: Cursor, flags: byte)
      requires index.Valid() && index.index + 10 <= index.limit && options.keepAlive < WORD_LIMIT
      modifies index, index.block
      ensures index.Valid()
      ensures index.Written() == old(index.Written()) + (PROTOCOL + [flags] + Word(options.keepAlive))
    {
      var header := new byte[10] [0, 4, 0x4D, 0x51, 0x54, 0x54, 4, 0, 0, 0];
      header[7] := flags;
      header[8], header[9] := options.keepAlive / 256, options.keepAlive % 256;
      assert header[..] == PROTOCOL + [flags] + Word(options.keepAlive);
      index.AddData(Data(10, header));
    }

    method AddWill(index: Cursor, ghost c: Connect)
      requires AreOptions(options) && Apart(options, serializedLengthData) && Apart(options, index.block)
      requires c == ConnectOf(Contents(options), fields.qualityOfService)
      requires index.Valid() && index.index + |WillFields(c.will)| <= index.limit
      modifies index, index.block
      ensures index.Valid() && index.Written() == old(index.Written()) + WillFields(c.will)
    {
      hide Word, Field;
      if options.willTopicFlag && options.willMessageFlag {
        ghost var start, w := index.Written(), c.will.value;
        FieldLength(w.topic);
        FieldLength(w.message);
        index.AddField(options.willTopic);
        index.AddField(options.willMessage);
        assert start + Field(w.topic) + Field(w.message) == start + (Field(w.topic) + Field(w.message));
      }
    }

    method AddOptional(index: Cursor, flag: bool, d: Data)
      requires IsData(d) && d.block != index.block
      requires index.Valid()
      requires index.index + |OptionalField(if flag then Some(Content(d)) else None)| <= index.limit
      modifies index, index.block
      ensures index.Valid()
      ensures index.Written() == old(index.Written()) + OptionalField(if flag then Some(Content(d)) else None)
    {
      if flag {
        index.AddField(d);
      }
    }

    /** What serialize_connect writes after the remaining length. */
    method FillConnect(index: Cursor, flags: byte, ghost c: Connect)
      requires AreOptions(options) && Apart(options, serializedLengthData) && Apart(options, index.block)
      requires c == ConnectOf(Contents(options), fields.qualityOfService) && flags == ConnectFlags(c)
      requires index.Valid() && index.index + |ConnectRest(c)| <= index.limit
      modifies index, index.block
      ensures index.Valid() && index.Written() == old(index.Written()) + ConnectRest(c)
    {
      hide Field, Word, ConnectFlags, WillFields, OptionalField;
      ghost var start := index.Written();
      ConnectRestLength(c);
      AddVariableHeader(index, flags);
      index.AddField(options.clientId);
      ghost var front := PROTOCOL + [flags] + Word(c.keepAlive);
      assert index.Written() == start + front + Field(c.clientId);
      AddWill(index, c);
      AddOptional(index, options.usernameFlag, options.username);
      AddOptional(index, options.passwordFlag, options.password);
      Nested(start, front, Field(c.clientId),
             WillFields(c.will), OptionalField(c.username), OptionalField(c.password));
    }

    /** The writes of serialize_connect. */
    method WriteConnect(length: nat, flags: byte, ghost c: Connect) returns (status: Status)
      requires Valid() && c == ConnectOf(Contents(options), fields.qualityOfService)
      requires length == |ConnectRest(c)| && flags == ConnectFlags(c)
      modifies this`serializedLength, serializedLengthData
      modifies this`stream, this`streamOwnership, this`streamIndex, this`mine, mem
      ensures Valid() && OthersKept()
      ensures mem.refusals == old(mem.refusals) + if status == Error then 1 else 0
      ensures Leaked() == old(Leaked() + OwnedStream())
      ensures status == Error ==> NoStream()
      ensures Wrote(status, ConnectPacket(c), false)
    {
      hide EncodeLength, ConnectRest, ConnectFlags;
      hide Vouched, Serializer.Leaked, Serializer.OwnedStream, Serializer.OwnershipValid;
      status := StartPacket(0x10, length);
      if status != Succes {
        return;
      }
      FillConnect(streamIndex, flags, c);
      assert stream.block[..] == streamIndex.Written();
    }

    /** serialize_connect, once the checks have passed. */
    method BuildConnect(ghost c: Connect) returns (status: Status)
      requires Valid() && ConnectChecks() && c == ConnectOf(Contents(options), fields.qualityOfService)
      modifies this`serializedLength, serializedLengthData
      modifies this`stream, this`streamOwnership, this`streamIndex, this`mine, mem
      ensures Valid() && OthersKept()
      ensures mem.refusals == old(mem.refusals) + if status == Error then 1 else 0
      ensures Leaked() == old(Leaked() + OwnedStream())
      ensures status == Error ==> NoStream()
      ensures Wrote(status, ConnectPacket(c), false)
    {
      hide ConnectOf, ConnectPacket, ConnectRest, ConnectFlags, EncodeLength, Vouched;
      hide Serializer.Leaked, Serializer.OwnedStream, Serializer.OwnershipValid;
      var length := ConnectLength(c);
      var flags := ConnectFlagsByte(c);
      status := WriteConnect(length, flags, c);
    }

    /** serialize_connect */
    method SerializeConnect() returns (status: Status)
      requires Valid()
      modifies this`serializedLength, serializedLengthData
      modifies this`stream, this`streamOwnership, this`streamIndex, this`mine, mem
      ensures Valid() && OthersKept()
      ensures !ConnectChecks() ==> Untouched(status)
      ensures ConnectChecks() ==>
                && mem.refusals == old(mem.refusals) + (if status == Error then 1 else 0)
                && Leaked() == old(Leaked() + OwnedStream())
                && (status == Error ==> NoStream())
      ensures status != Error ==>
                Wrote(status, ConnectPacket(old(ConnectOf(Contents(options), fields.qualityOfService))), false)
    {
      hide ConnectOf, ConnectPacket, Vouched, Serializer.Leaked, Serializer.OwnedStream, Serializer.OwnershipValid;
      var passed := CheckConnect();
      if !passed {
        return Error;
      }
      ghost var c := ConnectOf(Contents(options), fields.qualityOfService);
      status := BuildConnect(c);
    }

    /** What there is to serialize. */
    ghost function Given(): Setup
      requires Sized()
      reads this`fields, this`topic, this`message, this`stream, this`options, topic.block, message.block
      reads options.clientId.block, options.willTopic.block, options.willMessage.block
      reads options.username.block, options.password.block
    {
      Setup(fields, Contents(options), Content(topic), Content(message))
    }

    /** Serializing would read what has been freed. */
    predicate Stale()
      reads this`fields, this`topicFreed, this`messageFreed
    {
      match fields.messageType
      case 3 => topicFreed || messageFreed
      case 8 => topicFreed
      case 10 => topicFreed
      case _ => false
    }

    /** The serializer as its callers see it. */
    ghost function Now(): View
      requires Valid()
      reads this, mem, topic.block, message.block, stream.block
      reads options.clientId.block, options.willTopic.block, options.willMessage.block
      reads options.username.block, options.password.block
    {
      View(Given(), topicOwnership, messageOwnership, streamOwnership, topicFreed, messageFreed,
           AtStake(topic), AtStake(message), Content(stream), Leaked(), mem.refusals)
    }

    lemma NewNow()
      requires Valid() && mine == {} && mem.refusals == 0
      requires fields == NO_FIELDS && options == NO_OPTIONS && topic == message == stream == EMPTY
      requires !topicOwnership && !messageOwnership && !streamOwnership && !topicFreed && !messageFreed
      ensures Now() == NEW
    {
    }

    lemma OwnedAtStake()
      requires Valid()
      ensures (topicOwnership ==> AtStake(topic)) && (messageOwnership ==> AtStake(message))
    {
    }

    lemma StaleNow()
      requires Valid()
      ensures Stale() == StaleView(Now())
    {
    }

    lemma NowIs()
      requires Valid()
      ensures Now().topicOwned == topicOwnership && Now().messageOwned == messageOwnership
    {
    }

    lemma NowLeaked()
      requires Valid()
      ensures Now().leaked == mine * mem.live - Owned() && Owned() <= mine && this !in mine
    {
    }

    /** What there is to serialize, type by type. */
    lemma PacketIs()
      requires Valid()
      ensures var t, packet := fields.messageType, PacketOf(Given());
        if t == 1 then
          packet == if ConnectChecks() then Some(ConnectPacket(ConnectOf(Contents(options), fields.qualityOfService)))
                    else None
        else if t == 3 then
          packet == if topic.length > 0 && message.length > 0
                    then Some(PublishPacket(PublishOf(fields, Content(topic), Content(message)))) else None
        else if 4 <= t <= 7 then packet == Some(AckPacket(t, fields.packetId))
        else if t == 8 || t == 10 then
          packet == if topic.length > 0
                    then Some(SubscriptionPacket(t == 8, fields.packetId, Content(topic), fields.qualityOfService))
                    else None
        else if 12 <= t <= 14 then packet == Some([t * 16, 0])
        else packet == None
    {
      hide AckPacket, ConnectPacket, PublishPacket, SubscriptionPacket, ConnectOf, PublishOf;
    }

    /** pico_mqtt_serialize, by the message type. */
    method Serialize() returns (status: Status)
      requires Valid()
      modifies this`serializedLength, serializedLengthData
      modifies this`stream, this`streamOwnership, this`streamIndex, this`mine, mem
      ensures Valid() && OthersKept()
      ensures match old(PacketOf(Given()))
        case None => Untouched(status)
        case Some(bytes) =>
          && mem.refusals == old(mem.refusals) + (if status == Error then 1 else 0)
          && Leaked() == old(Leaked() + OwnedStream())
          && (status == Error ==> NoStream()) && Wrote(status, bytes, old(Stale()))
      ensures Leaked() == old(Leaked()) <==>
                old(PacketOf(Given())).None? || !old(streamOwnership)
    {
      hide AckPacket, ConnectPacket, PublishPacket, SubscriptionPacket;
      hide ConnectOf, PublishOf, PacketOf, Contents, Content, Vouched;
      hide Serializer.Given, Serializer.Leaked, Serializer.OwnedStream, Serializer.Valid;
      HasWidths();
      PacketIs();
      StreamCounts();
      var t := fields.messageType;
      if t == 1 {
        status := SerializeConnect();
      } else if t == 3 {
        status := SerializePublish();
      } else if 4 <= t <= 7 {
        status := SerializeAcknowledge(t);
      } else if t == 8 || t == 10 {
        status := SerializeSubscription(t == 8);
      } else if 12 <= t <= 14 {
        status := SerializeBare(if t == 12 then 0xC000 else if t == 13 then 0xD000 else 0xE000);
      } else {
        status := Error;
      }
    }

    // ----- the deserializers -----

    /** A whole block that is live and the serializer's own. */
    ghost predicate IsNew(d: Data)
      reads this, mem
    {
      IsData(d) && d.block != null && d.length == d.block.Length && d.block in mem.live && d.block in mine
    }

    /** Nothing, or a new block that is all that was allocated. */
    twostate predicate GotBlock(new d: Data)
      reads this, mem
    {
      && (d.block == null ==> d == EMPTY && mem.live == old(mem.live) && mine == old(mine))
      && (d.block != null ==>
            && IsNew(d) && fresh(d.block)
            && mem.live == old(mem.live) + {d.block} && mine == old(mine) + {d.block})
    }

    /** get_data_and_length_stream, or no data at all when memory runs out. */
    method GetField() returns (d: Data)
      requires Valid() && streamIndex != null && streamIndex.Valid()
      modifies streamIndex, mem, this`mine
      ensures Valid() && OthersKept() && streamIndex.Valid() && GotBlock(d)
      ensures !AsksForField(old(streamIndex.Rest())) ==> d == EMPTY && mem.refusals == old(mem.refusals)
      ensures AsksForField(old(streamIndex.Rest())) ==>
                mem.refusals == old(mem.refusals) + if d.block == null then 1 else 0
      ensures mem.refusals == old(mem.refusals) ==>
        var (x, used) := MqttPackets.GetField(old(streamIndex.Rest()));
        Content(d) == x && used <= |old(streamIndex.Rest())| && streamIndex.Rest() == old(streamIndex.Rest())[used..]
    {
      hide Serializer.Valid;
      d := EMPTY;
      ghost var s := streamIndex.Rest();
      var bytesLeft := streamIndex.BytesLeft();
      if bytesLeft < 2 {
        return;
      }
      var length := streamIndex.GetTwoBytes();
      if (bytesLeft as int) - length - 2 <= 0 {
        return;
      }
      var block := Malloc(length);
      if block == null {
        return;
      }
      streamIndex.CopyTo(block);
      assert s[2..][..length] == s[2..2 + length] && s[2..][length..] == s[2 + length..];
      d := Data(length, block);
    }

    /** get_data_stream: all that is left. */
    method GetData() returns (d: Data)
      requires Valid() && streamIndex != null && streamIndex.Valid()
      modifies streamIndex, mem, this`mine
      ensures Valid() && OthersKept() && streamIndex.Valid() && GotBlock(d)
      ensures mem.refusals == old(mem.refusals) + if d.block == null then 1 else 0
      ensures d.block != null ==> Content(d) == old(streamIndex.Rest())
    {
      hide Serializer.Valid, Serializer.Owned, Cursor.Rest;
      ghost var s := streamIndex.Rest();
      var bytesLeft := streamIndex.BytesLeft();
      var block := Malloc(bytesLeft);
      if block == null {
        return EMPTY;
      }
      streamIndex.CopyTo(block);
      assert s[..bytesLeft] == s;
      d := Data(bytesLeft, block);
    }

    /** The outcome and the fields say what the message meant. */
    ghost predicate Reports(status: Status, r: Reply)
      reads this, topic.block, message.block
    {
      && IsData(topic) && IsData(message)
      && Reported(status, fields, Content(topic), Content(message), topicOwnership && messageOwnership, r)
    }

    /** One of the blocks the serializer vouches for. */
    predicate Frees(b: array<byte>)
      reads this`topicOwnership, this`topic, this`messageOwnership, this`message
      reads this`streamOwnership, this`stream
      ensures Frees(b) <==> b in Owned()
    {
      || (topicOwnership && topic.block == b)
      || (messageOwnership && message.block == b)
      || (streamOwnership && stream.block == b)
    }

    /** A live block is owned, or leaked, or none of the serializer's. */
    lemma OwnedOrLeaked(b: object)
      requires Valid()
      ensures b in Leaked() <==> b in mem.live && b in mine && b !in Owned()
      ensures b in Owned() ==> b in mine && b in mem.live
    {
    }

    /** Unless memory runs out, what the reply says; and memory runs out but once. */
    twostate predicate Outcome(status: Status, r: Reply)
      reads this, mem, topic.block, message.block
    {
      if mem.refusals == old(mem.refusals) then Reports(status, r)
      else mem.refusals == old(mem.refusals) + 1 && status == Error
    }

    /** Something leaks exactly when a block of no bytes is asked for and granted. */
    twostate predicate Leaks(empty: bool)
      reads this, mem
    {
      && old(Leaked()) <= Leaked()
      && (Leaked() == old(Leaked()) <==> !empty || mem.refusals != old(mem.refusals))
    }

    /** The stream is a caller's message, about to be read. */
    ghost predicate Reading(m: seq<byte>)
      reads this, mem, streamIndex, stream.block
    {
      && Valid() && m != [] && !streamOwnership && !topicOwnership && !messageOwnership
      && stream.block != null && stream.length == |m|
      && streamIndex != null && streamIndex.Valid() && streamIndex.index == 0
      && streamIndex.block == stream.block && streamIndex.limit == stream.length
      && stream.block[..stream.length] == m
    }

    lemma MessageAhead(m: seq<byte>)
      requires Reading(m)
      ensures Valid() && Sized() && m != [] && stream.block != null && stream.length == |m|
      ensures streamIndex != null && streamIndex.Valid() && streamIndex.index == 0 && streamIndex.limit == |m|
      ensures forall i :: 0 <= i < |m| ==> streamIndex.block[i] == m[i]
    {
    }

    method Set(f: Fields)
      requires Valid() && (f.packetId == fields.packetId || f.packetId < WORD_LIMIT)
      modifies this`fields
      ensures Valid() && fields == f
    {
      fields := f;
    }

    method NextByte() returns (b: byte)
      requires Valid() && streamIndex != null && streamIndex.Valid() && streamIndex.index < streamIndex.limit
      modifies streamIndex
      ensures Valid() && streamIndex.Valid()
      ensures b == streamIndex.block[old(streamIndex.index)] && streamIndex.index == old(streamIndex.index) + 1
    {
      hide Serializer.Valid;
      b := streamIndex.GetByte();
    }

    /** deserialize_connack */
    method DeserializeConnack(ghost m: seq<byte>) returns (status: Status)
      requires Reading(m) && m[0] / 16 == 2 && fields == NO_FIELDS.(qualityOfService := fields.qualityOfService)
      modifies this`fields, streamIndex
      ensures Valid() && Reports(status, Deserialized(m)) && fields.messageType == 2
    {
      hide Cursor.Rest, Content, PublishOf, Serializer.Valid, Serializer.Reading;
      MessageAhead(m);
      Set(fields.(messageType := 0x02));
      var b := NextByte();
      if stream.length != 4 {
        return Error;
      }
      b := NextByte();
      if b != 2 {
        return Error;
      }
      b := NextByte();
      Set(fields.(sessionPresent := b % 2 == 1));
      b := NextByte();
      Set(fields.(returnCode := b));
      status := if b > 5 then Error else Succes;
    }

    /** The next two bytes become the packet id. */
    method TakeId()
      requires Valid() && streamIndex != null && streamIndex.Valid() && streamIndex.index + 2 <= streamIndex.limit
      modifies this`fields, streamIndex
      ensures Valid() && streamIndex.Valid() && streamIndex.index == old(streamIndex.index) + 2
      ensures var i, block := old(streamIndex.index), streamIndex.block;
        fields == old(fields).(packetId := block[i] as nat * 256 + block[i + 1])
    {
      hide Serializer.Valid;
      var id := streamIndex.GetTwoBytes();
      Set(fields.(packetId := id));
    }

    /** deserialize_acknowledge: whatever the kind, the type it reports is 4. */
    method DeserializeAcknowledge(ghost m: seq<byte>) returns (status: Status)
      requires Reading(m)
      requires m[0] / 16 == 4 || m[0] / 16 == 5 || m[0] / 16 == 6 || m[0] / 16 == 7 || m[0] / 16 == 11
      requires fields == NO_FIELDS.(qualityOfService := fields.qualityOfService)
      modifies this`fields, streamIndex
      ensures Valid() && Reports(status, Deserialized(m)) && fields.messageType == 4
    {
      hide Cursor.Rest, Content, PublishOf, Serializer.Valid, Serializer.Reading;
      MessageAhead(m);
      Set(fields.(messageType := 0x04));
      var b := NextByte();
      if stream.length != 4 {
        return Error;
      }
      b := NextByte();
      if b != 2 {
        return Error;
      }
      TakeId();
      status := Succes;
    }

    /** deserialize_suback */
    method DeserializeSuback(ghost m: seq<byte>) returns (status: Status)
      requires Reading(m) && m[0] / 16 == 9 && fields == NO_FIELDS.(qualityOfService := fields.qualityOfService)
      modifies this`fields, streamIndex
      ensures Valid() && Reports(status, Deserialized(m)) && fields.messageType == 9
    {
      hide Cursor.Rest, Content, PublishOf, Serializer.Valid, Serializer.Reading;
      MessageAhead(m);
      Set(fields.(messageType := 0x09));
      var b := NextByte();
      if stream.length != 5 {
        return Error;
      }
      b := NextByte();
      if b != 3 {
        return Error;
      }
      TakeId();
      b := NextByte();
      if b == 0x80 {
        return Error;
      }
      if b > 2 {
        return Error;
      }
      Set(fields.(qualityOfService := b));
      status := Succes;
    }

    /** deserialize_pingreq and deserialize_pingresp */
    method DeserializePing(ghost m: seq<byte>, kind: byte) returns (status: Status)
      requires Reading(m) && m[0] / 16 == kind && (kind == 12 || kind == 13)
      requires fields == NO_FIELDS.(qualityOfService := fields.qualityOfService)
      modifies this`fields, streamIndex
      ensures Valid() && Reports(status, Deserialized(m)) && fields.messageType == kind
    {
      hide Content, PublishOf, Serializer.Valid;
      HasWidths();
      Set(fields.(messageType := kind));
      if stream.length != 2 {
        return Error;
      }
      assert streamIndex.Rest() == m;
      var word := streamIndex.GetTwoBytes();
      status := if word == (if kind == 12 then 0xC000 else 0xD000) then Succes else Error;
      assert m == [m[0], m[1]];
    }

    /** The fixed header of deserialize_publish. */
    method TakeHeader(ghost m: seq<byte>) returns (b: byte)
      requires Reading(m)
      modifies this`fields, streamIndex
      ensures Valid() && streamIndex.Valid() && b == m[0] && streamIndex.Rest() == m[1..]
      ensures fields == old(fields).(messageType := 0x03, duplicate := b / 8 % 2 == 1,
                                     qualityOfService := b / 2 % 4, retain := b % 2 == 1)
    {
      assert streamIndex.Rest() == m;
      hide Serializer.Valid;
      b := streamIndex.GetByte();
      Set(fields.(messageType := 0x03, duplicate := b / 8 % 2 == 1,
                  qualityOfService := b / 2 % 4, retain := b % 2 == 1));
    }

    method SetTopic(d: Data) returns (got: bool)
      requires Valid() && !topicOwnership && !messageOwnership && !streamOwnership && (d == EMPTY || IsNew(d))
      modifies this`topic, this`topicFreed, this`topicOwnership
      ensures Valid() && topic == d && topicOwnership == got == (d.length != 0)
      ensures Leaked() == mine * mem.live - if got then Vouched(true, d) else {}
    {
      got := d.length != 0;
      topic, topicFreed, topicOwnership := d, false, got;
    }

    /** The topic, owned unless it is empty. */
    method TakeTopic() returns (got: bool)
      requires Valid() && !streamOwnership && !topicOwnership && !messageOwnership
      requires streamIndex != null && streamIndex.Valid()
      modifies this`topic, this`topicOwnership, this`topicFreed, this`mine, streamIndex, mem
      ensures Valid() && OthersKept() && streamIndex.Valid() && topicOwnership == got
      ensures old(mem.refusals) <= mem.refusals <= old(mem.refusals) + 1
      ensures got ==> mem.refusals == old(mem.refusals) && Leaked() == old(Leaked())
      ensures !got ==> Leaks(AsksForField(old(streamIndex.Rest())) && ReadWord(old(streamIndex.Rest())) == 0)
      ensures mem.refusals == old(mem.refusals) ==>
        var s := old(streamIndex.Rest());
        var (x, used) := MqttPackets.GetField(s);
        Content(topic) == x && used <= |s| && streamIndex.Rest() == s[used..] && (got <==> x != [])
      ensures !got ==> topic.length == 0
    {
      hide Serializer.Valid;
      NothingOwned();
      var d := GetField();
      got := SetTopic(d);
      if got {
        OwnedKept(old(mine), old(mem.live), {}, Vouched(true, d));
      } else {
        NewlyLeaked(old(mine), old(mem.live), {}, Vouched(true, d));
      }
    }

    lemma TopicOwned()
      requires Valid() && topicOwnership && !messageOwnership && !streamOwnership
      ensures topic.block != null && topic.block in mine && topic.block in mem.live
      ensures Leaked() == mine * mem.live - {topic.block}
    {
    }

    method SetMessage(d: Data) returns (got: bool)
      requires Valid() && topicOwnership && !messageOwnership && !streamOwnership
      requires d == EMPTY || (IsNew(d) && d.block != topic.block)
      modifies this`message, this`messageFreed, this`messageOwnership
      ensures Valid() && message == d && messageOwnership == got == (d.length != 0)
      ensures Leaked() == mine * mem.live - ({topic.block} + if got then Vouched(true, d) else {})
    {
      got := d.length != 0;
      message, messageFreed, messageOwnership := d, false, got;
    }

    /** All that is left, owned unless it is empty. */
    method TakeMessage() returns (got: bool)
      requires Valid() && !streamOwnership && topicOwnership && !messageOwnership
      requires streamIndex != null && streamIndex.Valid()
      modifies this`message, this`messageOwnership, this`messageFreed, this`mine, streamIndex, mem
      ensures Valid() && OthersKept() && messageOwnership == got && Leaks(old(streamIndex.Rest()) == [])
      ensures mem.refusals == old(mem.refusals) + if message.block == null then 1 else 0
      ensures got <==> mem.refusals == old(mem.refusals) && old(streamIndex.Rest()) != []
      ensures if got then Content(message) == old(streamIndex.Rest()) else message.length == 0
    {
      hide Serializer.Valid;
      TopicOwned();
      var d := GetData();
      got := SetMessage(d);
      ghost var owned, n := {topic.block}, Vouched(true, d);
      if got {
        OwnedKept(old(mine), old(mem.live), owned, n);
      } else {
        NewlyLeaked(old(mine), old(mem.live), owned, n);
      }
    }

    /** No freed data would be serialized next. */
    predicate Untainted()
      reads this`fields, this`topic, this`message, this`topicFreed, this`messageFreed
    {
      && fields.messageType != 8 && fields.messageType != 10
      && (fields.messageType == 3 ==> topic.length == 0 || message.length == 0 || (!topicFreed && !messageFreed))
    }

    predicate Paired()
      reads this`topicOwnership, this`messageOwnership
    {
      topicOwnership == messageOwnership
    }

    /** Topic and message are what they were, nobody owns them, and the type is that of a PUBLISH. */
    twostate predicate Kept()
      reads this
    {
      && topic == old(topic) && message == old(message) && fields.messageType == 3
      && !topicOwnership && !messageOwnership
      && topicFreed == old(topicFreed) && messageFreed == old(messageFreed)
    }

    lemma NothingTainted()
      requires Valid()
      ensures Untainted() ==> !Tainted(Now())
    {
    }

    lemma OwnedNotFreed()
      requires Valid()
      ensures (topicOwnership ==> !topicFreed) && (messageOwnership ==> !messageFreed)
    {
    }

    /** The end of deserialize_publish: the message, or the topic given back. */
    method DeserializeMessage() returns (status: Status)
      requires Valid() && !streamOwnership && topicOwnership && !messageOwnership
      requires streamIndex != null && streamIndex.Valid()
      modifies this`message, this`topicOwnership, this`messageOwnership, this`mine, streamIndex, mem
      modifies this`topicFreed, this`messageFreed
      ensures Valid() && OthersKept() && Leaks(old(streamIndex.Rest()) == [])
      ensures old(mem.refusals) <= mem.refusals <= old(mem.refusals) + 1
      ensures if mem.refusals == old(mem.refusals) && old(streamIndex.Rest()) != [] then
                status == Succes && topicOwnership && messageOwnership
                && Content(message) == old(streamIndex.Rest())
              else
                status == Error && !topicOwnership && topic.block !in mem.live && message.length == 0
      ensures Paired() && (status == Succes ==> !topicFreed && !messageFreed)
    {
      hide Vouched, Serializer.Leaked, Serializer.OwnershipValid;
      var got := TakeMessage();
      if !got {
        FreeTopic();
        return Error;
      }
      OwnedNotFreed();
      status := Succes;
    }

    predicate NoOtherFields()
      reads this`fields
    {
      fields.packetId == 0 && !fields.sessionPresent && fields.returnCode == 0
    }

    /** deserialize_publish, from the topic on. */
    method DeserializePublishTail(ghost header: byte, ghost t: seq<byte>, ghost tail: seq<byte>)
      returns (status: Status)
      requires Valid() && !streamOwnership && topicOwnership && !messageOwnership && Content(topic) == t
      requires streamIndex != null && streamIndex.Valid() && streamIndex.Rest() == tail
      requires fields.messageType == 3 && NoOtherFields() && fields.duplicate == (header / 8 % 2 == 1)
      requires fields.qualityOfService == header / 2 % 4 && fields.retain == (header % 2 == 1)
      modifies this`fields, this`message, this`topicOwnership, this`messageOwnership
      modifies this`mine, this`topicFreed, this`messageFreed, streamIndex, mem
      ensures Valid() && OthersKept()
      ensures Outcome(status, DeserializedPublishTail(header, t, tail)) && Leaks(EmptyTail(header, tail))
      ensures status != Beyond ==> Untainted() && Paired()
    {
      if fields.qualityOfService != 0 {
        if streamIndex.BytesLeft() < 2 {
          return Beyond;
        }
        var id := streamIndex.GetTwoBytes();
        fields := fields.(packetId := id);
      }
      status := DeserializeMessage();
    }

    /** The part of deserialize_publish that allocates. */
    method DeserializePublishRest(ghost header: byte, ghost rest: seq<byte>) returns (status: Status)
      requires Valid() && !streamOwnership && !topicOwnership && !messageOwnership
      requires streamIndex != null && streamIndex.Valid() && streamIndex.Rest() == rest
      requires fields.messageType == 3 && NoOtherFields() && fields.duplicate == (header / 8 % 2 == 1)
      requires fields.qualityOfService == header / 2 % 4 && fields.retain == (header % 2 == 1)
      modifies this`fields, this`topic, this`message, this`topicOwnership, this`messageOwnership
      modifies this`mine, this`topicFreed, this`messageFreed, streamIndex, mem
      ensures Valid() && OthersKept()
      ensures Outcome(status, DeserializedPublishRest(header, rest)) && Leaks(EmptyRest(header, rest))
      ensures status != Beyond ==> Untainted() && Paired()
    {
      hide DeserializedPublishTail, EmptyTail, Vouched, Serializer.Leaked, Serializer.OwnershipValid;
      var got := TakeTopic();
      if !got {
        return Error;
      }
      status := DeserializePublishTail(header, Content(topic), streamIndex.Rest());
    }

    /** deserialize_publish, from the remaining length on. */
    method DeserializeAfterHeader(ghost m: seq<byte>) returns (status: Status)
      requires Valid() && !streamOwnership && !topicOwnership && !messageOwnership
      requires |m| >= 4 && m[0] / 16 == 3 && m[0] / 2 % 4 != 3
      requires streamIndex != null && streamIndex.Valid() && streamIndex.Rest() == m[1..]
      requires fields.messageType == 3 && NoOtherFields() && fields.duplicate == (m[0] / 8 % 2 == 1)
      requires fields.qualityOfService == m[0] / 2 % 4 && fields.retain == (m[0] % 2 == 1)
      modifies this`fields, this`topic, this`message, this`topicOwnership, this`messageOwnership
      modifies this`mine, this`topicFreed, this`messageFreed, streamIndex, mem
      ensures Valid() && OthersKept()
      ensures Outcome(status, Deserialized(m)) && Leaks(EmptyBlock(m))
      ensures status != Beyond ==> Untainted() && Paired()
    {
      hide DeserializedPublishRest, EmptyRest, Vouched, Serializer.Leaked, Serializer.OwnershipValid;
      var inside := streamIndex.SkipLength();
      if !inside {
        return Beyond;
      }
      ghost var rest := streamIndex.Rest();
      assert Deserialized(m) == DeserializedPublishRest(m[0], rest);
      assert EmptyBlock(m) == EmptyRest(m[0], rest);
      status := DeserializePublishRest(m[0], rest);
    }

    /** deserialize_publish */
    method DeserializePublish(ghost m: seq<byte>) returns (status: Status)
      requires Reading(m) && m[0] / 16 == 3
      requires fields == NO_FIELDS.(qualityOfService := fields.qualityOfService)
      modifies this`fields, this`topic, this`message, this`topicOwnership, this`messageOwnership
      modifies this`mine, this`topicFreed, this`messageFreed, streamIndex, mem
      ensures Valid() && OthersKept()
      ensures Outcome(status, Deserialized(m)) && Leaks(EmptyBlock(m))
      ensures if BadService(m) then Kept() else status != Beyond ==> Untainted() && Paired()
    {
      hide DeserializedPublishRest, EmptyRest, Vouched, Serializer.Leaked, Serializer.OwnershipValid;
      if streamIndex.BytesLeft() < 4 {
        return Error;
      }
      var b := TakeHeader(m);
      if fields.qualityOfService == 3 {
        return Error;
      }
      status := DeserializeAfterHeader(m);
    }

    /** The table of deserializers. */
    method Dispatch(ghost m: seq<byte>) returns (status: Status)
      requires Reading(m)
      requires fields == NO_FIELDS.(qualityOfService := fields.qualityOfService)
      modifies this`fields, this`topic, this`message, this`topicOwnership, this`messageOwnership
      modifies this`mine, this`topicFreed, this`messageFreed, streamIndex, mem
      ensures Valid() && OthersKept()
      ensures Outcome(status, Deserialized(m)) && Leaks(EmptyBlock(m))
      ensures if BadService(m) then Kept() else status != Beyond ==> Untainted() && Paired()
    {
      var kind := stream.block[0] / 16;
      if kind == 2 {
        status := DeserializeConnack(m);
      } else if kind == 3 {
        status := DeserializePublish(m);
      } else if kind == 4 || kind == 5 || kind == 6 || kind == 7 || kind == 11 {
        status := DeserializeAcknowledge(m);
      } else if kind == 9 {
        status := DeserializeSuback(m);
      } else if kind == 12 || kind == 13 {
        status := DeserializePing(m, kind);
      } else {
        status := Error;
      }
    }

    lemma ZeroMessage(m: Data)
      requires IsData(m) && m.length > 0 && m.block == serializedLengthData && m.length <= 4
      requires serializedLengthData[..] == [0, 0, 0, 0]
      ensures Content(m) == Zeros(m.length) && Deserialized(Content(m)) == Rejected && !EmptyBlock(Content(m))
    {
    }

    /** The caller's message becomes the stream. */
    method Attach(m: Data)
      requires Valid() && IsData(m) && m.length > 0
      requires !streamOwnership && !topicOwnership && !messageOwnership
      modifies this`stream, this`streamIndex
      ensures Reading(Content(m)) && fresh(streamIndex)
    {
      stream := m;
      streamIndex := new Cursor(m.block, m.length);
    }

    /** What is left to do once everything owned is freed. */
    method ReadMessage(m: Data) returns (status: Status)
      requires Valid() && IsData(m) && m.length > 0
      requires !streamOwnership && !topicOwnership && !messageOwnership
      requires fields == NO_FIELDS.(qualityOfService := fields.qualityOfService)
      modifies this`stream, this`streamIndex, this`fields, this`topic, this`message
      modifies this`topicOwnership, this`messageOwnership, this`mine, this`topicFreed, this`messageFreed, mem
      ensures Valid() && OthersKept() && !streamOwnership
      ensures Outcome(status, Deserialized(Content(m))) && Leaks(EmptyBlock(Content(m)))
      ensures if BadService(Content(m)) then Kept() else status != Beyond ==> Untainted() && Paired()
    {
      hide Deserialized, EmptyBlock, Serializer.Valid;
      NothingOwned();
      Attach(m);
      NothingOwned();
      status := Dispatch(Content(m));
    }

    /**
     * pico_mqtt_deserialize. A message in a block of the caller's stays the caller's. One in a
     * block that the serializer owns is freed before it is read, which is where this stops;
     * in any other block it is still there. One in the serializer's own buffer of length
     * digits is zeroed before it is read, and so refused. A block leaks exactly when one of no
     * bytes is allocated.
     */
    method Deserialize(m: Data) returns (status: Status)
      requires Valid() && IsData(m) && m.length > 0
      modifies this, mem, serializedLengthData
      ensures Valid() && OthersKept() && !streamOwnership && options == old(options)
      ensures Content(m) == if m.block == serializedLengthData then Zeros(m.length) else old(Content(m))
      ensures m.block == serializedLengthData ==> status == Error
      ensures old(m.block in mem.live) ==> (m.block in mem.live <==> m.block !in old(Owned()))
      ensures m.block !in old(Owned()) ==> Outcome(status, Deserialized(Content(m))) && Leaks(EmptyBlock(Content(m)))
      ensures m.block !in old(Owned()) && BadService(Content(m)) ==>
                && topic == old(topic) && message == old(message) && fields.messageType == 3
                && !topicOwnership && !messageOwnership
                && topicFreed == (old(topicFreed) || old(AtStake(topic)))
                && messageFreed == (old(messageFreed) || old(AtStake(message)))
      ensures status != Beyond && !BadService(Content(m)) ==> Untainted() && Paired()
      ensures m.block in old(Owned()) ==>
                status == Beyond && Leaked() == old(Leaked()) && mem.refusals == old(mem.refusals)
    {
      hide Deserialized, EmptyBlock, BadService, Serializer.Valid, Serializer.Leaked, Serializer.Owned;
      var freed := Frees(m.block);
      HasWidths();
      OwnedOrLeaked(m.block);
      assert m.block in mem.live && m.block !in mine ==> m.block in mem.live - mine;
      Clear();
      if freed {
        return Beyond;
      }
      if m.block == serializedLengthData {
        ZeroMessage(m);
      }
      status := ReadMessage(m);
      OwnedOrLeaked(m.block);
    }
  }

  /** pico_mqtt_serializer_create */
  method SerializerCreate(mem: Memory) returns (s: Serializer?)
    modifies mem
    ensures mem.refusals == old(mem.refusals) + if s == null then 1 else 0
    ensures mem.faults == old(mem.faults)
    ensures s == null ==> mem.live == old(mem.live)
    ensures s != null ==>
              && fresh(s) && s.Valid() && s.mem == mem && s.Owned() == {} && s.mine == {}
              && mem.live == old(mem.live) + {s}
  {
    var granted := mem.Grant();
    if !granted {
      return null;
    }
    s := new Serializer(mem);
  }

  lemma NotEmpty(p: Publish)
    ensures |PublishPacket(p)| > 0
  {
  }

  /** The sending half. */
  method SendOwn(a: Serializer, ghost p: Publish) returns (sent: Status)
    requires a.Valid() && a.fields.messageType == 3 && a.fields.qualityOfService < 3
    requires p == PublishOf(a.fields, Content(a.topic), Content(a.message))
    modifies a, a.mem, a.serializedLengthData
    ensures a.Valid() && a.OthersKept() && a.mem.refusals >= old(a.mem.refusals)
    ensures a.mem.refusals == old(a.mem.refusals) && p.topic != [] && p.message != [] ==>
              (|PublishPacket(p)| < WORD && !old(a.topicFreed) && !old(a.messageFreed) ==> sent == Succes)
    ensures sent == Succes ==>
              && p.topic != [] && p.message != [] && a.stream.block in a.mine
              && IsData(a.stream) && a.stream.length > 0 && Content(a.stream) == PublishPacket(p)
  {
    hide PublishPacket, Vouched, Serializer.Leaked;
    NotEmpty(p);
    sent := a.Serialize();
  }

  /** The sending half leaves the other serializer alone. */
  method SendPublish(a: Serializer, ghost b: Serializer, ghost p: Publish) returns (sent: Status)
    requires a.Valid() && b.Valid() && a != b && a.mem == b.mem && a.mine !! b.mine
    requires a.serializedLengthData != b.serializedLengthData && b.serializedLengthData !in a.mine
    requires a.fields.messageType == 3 && a.fields.qualityOfService < 3
    requires p == PublishOf(a.fields, Content(a.topic), Content(a.message))
    modifies a, a.mem, a.serializedLengthData
    ensures a.Valid() && b.Valid() && a.mem.faults == old(a.mem.faults) && a.mem.refusals >= old(a.mem.refusals)
    ensures a.mem.refusals == old(a.mem.refusals) && p.topic != [] && p.message != [] ==>
              (|PublishPacket(p)| < WORD && !old(a.topicFreed) && !old(a.messageFreed) ==> sent == Succes)
    ensures sent == Succes ==>
              && p.topic != [] && p.message != []
              && IsData(a.stream) && a.stream.length > 0 && Content(a.stream) == PublishPacket(p)
              && a.stream.block !in b.mine && a.stream.block != b.serializedLengthData
    ensures forall o :: o in a.mine && o !in old(a.mine) ==> fresh(o)
  {
    hide PublishPacket, Vouched, Content;
    sent := SendOwn(a, p);
    a.LiveKept();
  }

  /** The receiving half. */
  method ReceivePublish(ghost a: Serializer, b: Serializer, m: Data) returns (received: Status)
    requires a.Valid() && b.Valid() && a != b && a.mem == b.mem && a.mine !! b.mine && a !in b.mine
    requires a.serializedLengthData != b.serializedLengthData && a.serializedLengthData !in b.mine
    requires IsData(m) && m.length > 0 && m.block !in b.mine && m.block != b.serializedLengthData
    modifies b, b.mem, b.serializedLengthData
    ensures a.Valid() && b.Valid() && b.mem.faults == old(b.mem.faults) && b.mem.refusals >= old(b.mem.refusals)
    ensures b.mem.refusals == old(b.mem.refusals) ==> b.Reports(received, Deserialized(old(Content(m))))
  {
    hide Deserialized, EmptyBlock, Vouched, Serializer.Leaked;
    b.OwnedOrLeaked(m.block);
    label Receiving:
    received := b.Deserialize(m);
    b.LiveKept@Receiving();
  }

  /**
   * A PUBLISH from one serializer to another. If no memory is refused, a topic that fits its
   * length field arrives with everything else, in blocks the receiver owns.
   */
  method PublishThrough(a: Serializer, b: Serializer) returns (sent: Status, received: Status)
    requires a.Valid() && b.Valid() && a != b && a.mem == b.mem && a.mine !! b.mine
    requires a.serializedLengthData != b.serializedLengthData
    requires a.serializedLengthData !in b.mine && b.serializedLengthData !in a.mine
    requires a !in b.mine && b !in a.mine
    requires a.fields.messageType == 3 && a.fields.qualityOfService < 3
    modifies a, b, a.mem, a.serializedLengthData, b.serializedLengthData
    ensures a.Valid() && b.Valid() && a.mem.faults == old(a.mem.faults)
    ensures sent != Succes ==> b.fields == old(b.fields)
    ensures var p := old(PublishOf(a.fields, Content(a.topic), Content(a.message)));
      a.mem.refusals == old(a.mem.refusals) && p.topic != [] && p.message != []
      && |p.topic| < WORD_LIMIT && |PublishPacket(p)| < WORD && !old(a.topicFreed) && !old(a.messageFreed) ==>
        && sent == Succes && received == Succes
        && b.fields.messageType == 3 && b.topicOwnership && b.messageOwnership
        && PublishOf(b.fields, Content(b.topic), Content(b.message)) == Conveyed(p)
  {
    hide PublishPacket, Deserialized, Serializer.Valid;
    a.HasWidths();
    ghost var p := PublishOf(a.fields, Content(a.topic), Content(a.message));
    received := Error;
    sent := SendPublish(a, b, p);
    if sent != Succes {
      return;
    }
    received := ReceivePublish(a, b, a.stream);
    PublishRoundTrip(p);
  }

  // ----- any calls -----

  /** A call, with what the caller brings to it. */
  datatype Call =
    | Serialize
    | Deserialize(message: seq<byte>)
    | Clear
    | TotalReset
    | Prepare(setup: Setup)   // the caller's own setting up of a packet

  predicate Fits(call: Call) {
    match call
    case Deserialize(m) => 0 < |m| < WORD
    case Prepare(p) =>
      && p.fields.packetId < WORD_LIMIT && p.options.keepAlive < WORD_LIMIT
      && |p.topic| < WORD && |p.message| < WORD && |p.options.clientId| < WORD
      && |p.options.willTopic| < WORD && |p.options.willMessage| < WORD
      && |p.options.username| < WORD && |p.options.password| < WORD
    case _ => true
  }

  /** Whether the call is of a kind that leaks. */
  ghost predicate Leaky(v: View, call: Call, v': View) {
    match call
    case Serialize => PacketOf(v.setup).Some? && v.streamOwned
    case Deserialize(m) => EmptyBlock(m) && v'.refusals == v.refusals
    case TotalReset => v.topicOwned || v.messageOwned || v.streamOwned
    case _ => false
  }

  /** What serializing makes of a view. */
  ghost predicate Serialized(v: View, v': View, status: Status) {
    && v'.setup == v.setup && v'.topicOwned == v.topicOwned && v'.messageOwned == v.messageOwned
    && v'.topicFreed == v.topicFreed && v'.messageFreed == v.messageFreed
    && match PacketOf(v.setup)
       case None => v' == v && status == Error
       case Some(bytes) =>
         && v'.refusals == v.refusals + (if status == Error then 1 else 0)
         && v'.streamOwned == (status != Error)
         && if status == Error then v'.stream == []
            else if |bytes| < WORD && !StaleView(v) then status == Succes && v'.stream == bytes
            else status == Beyond
  }

  /** Topic and message are left from before, nobody owns them, and the type is that of a PUBLISH. */
  predicate KeptStale(v: View, v': View) {
    && !v'.topicOwned && !v'.messageOwned
    && v'.setup.fields.messageType == 3 && v'.setup.topic == v.setup.topic && v'.setup.message == v.setup.message
    && v'.topicFreed == (v.topicFreed || v.topicAtStake) && v'.messageFreed == (v.messageFreed || v.messageAtStake)
  }

  /** What deserializing makes of it. */
  ghost predicate Received(v: View, m: seq<byte>, v': View, status: Status)
    requires m != []
  {
    && v'.setup.options == v.setup.options && !v'.streamOwned
    && (if BadService(m) then KeptStale(v, v')
        else status != Beyond ==> !Tainted(v') && v'.topicOwned == v'.messageOwned)
    && (v'.topicOwned ==> v'.topicAtStake && !v'.topicFreed)
    && (v'.messageOwned ==> v'.messageAtStake && !v'.messageFreed)
    && if v'.refusals == v.refusals then
         Reported(status, v'.setup.fields, v'.setup.topic, v'.setup.message, v'.topicOwned && v'.messageOwned,
                  Deserialized(m))
       else v'.refusals == v.refusals + 1 && status == Error
  }

  /** The caller's own data is nothing that the serializer frees. */
  function Replaced(v: View, setup: Setup): View {
    v.(setup := setup, topicFreed := false, messageFreed := false, topicAtStake := false, messageAtStake := false)
  }

  /** A topic and message that are owned stay. */
  function Prepared(v: View, setup: Setup): View {
    if v.topicOwned || v.messageOwned then
      v.(setup := setup.(topic := v.setup.topic, message := v.setup.message))
    else
      Replaced(v, setup)
  }

  /** What a call may make of one view, and return. */
  ghost predicate Called(v: View, call: Call, v': View, status: Status)
    requires Fits(call)
  {
    && v.leaked <= v'.leaked && (v'.leaked == v.leaked <==> !Leaky(v, call, v'))
    && match call
       case Serialize => Serialized(v, v', status)
       case Deserialize(m) => Received(v, m, v', status)
       case Clear =>
         && v' == v.(setup := v'.setup, topicOwned := false, messageOwned := false, streamOwned := false, stream := [],
                     topicFreed := v.topicFreed || v.topicAtStake, messageFreed := v.messageFreed || v.messageAtStake,
                     topicAtStake := false, messageAtStake := false)
         && v'.setup == v.setup.(fields := NO_FIELDS.(qualityOfService := v.setup.fields.qualityOfService))
       case TotalReset => v' == NEW.(leaked := v'.leaked, refusals := v.refusals)
       case Prepare(setup) => v' == Prepared(v, setup)
  }

  /** How many blocks of the caller's come with a call. */
  function Brings(call: Call): nat {
    match call
    case Deserialize(_) => 1
    case Prepare(_) => 7
    case _ => 0
  }

  function Blocks(calls: seq<Call>): nat {
    if calls == [] then 0 else Blocks(calls[..|calls| - 1]) + Brings(calls[|calls| - 1])
  }

  /** The views of a serializer's life, from a new one on, with one call between any two. */
  ghost predicate IsRun(log: seq<View>, calls: seq<Call>, statuses: seq<Status>) {
    && |log| == |calls| + 1 && |statuses| == |calls| && log[0] == NEW
    && (forall i :: 0 <= i < |calls| ==> Fits(calls[i]))
    && (forall i :: 0 <= i < |calls| ==> Called(log[i], calls[i], log[i + 1], statuses[i]))
  }

  ghost predicate NoneLeaky(log: seq<View>, calls: seq<Call>)
    requires |log| == |calls| + 1
  {
    forall i :: 0 <= i < |calls| ==> !Leaky(log[i], calls[i], log[i + 1])
  }

  /** Over a run, nothing is leaked exactly when no call was of a kind that leaks. */
  lemma {:induction false} LeakedExactly(log: seq<View>, calls: seq<Call>, statuses: seq<Status>)
    requires IsRun(log, calls, statuses)
    ensures log[|calls|].leaked == {} <==> NoneLeaky(log, calls)
    decreases |calls|
  {
    hide Leaky, Serialized, Received;
    if calls != [] {
      var n := |calls| - 1;
      LeakedExactly(log[..n + 1], calls[..n], statuses[..n]);
      assert Called(log[n], calls[n], log[n + 1], statuses[n]);
      if NoneLeaky(log[..n + 1], calls[..n]) && !Leaky(log[n], calls[n], log[n + 1]) {
        forall i | 0 <= i < |calls| ensures !Leaky(log[i], calls[i], log[i + 1]) {
          if i < n {
            assert !Leaky(log[..n + 1][i], calls[..n][i], log[..n + 1][i + 1]);
          }
        }
      }
      if NoneLeaky(log, calls) {
        forall i | 0 <= i < n ensures !Leaky(log[..n + 1][i], calls[..n][i], log[..n + 1][i + 1]) {
          assert !Leaky(log[i], calls[i], log[i + 1]);
        }
      }
    }
  }

  /** A block of someone else's is live from now on. */
  ghost method Track(s: Serializer, block: object)
    requires s.Valid() && block !in s.mine
    modifies s.mem`live
    ensures s.Valid() && s.Now() == old(s.Now()) && s.mem.live == old(s.mem.live) + {block}
  {
    s.mem.Track(block);
    assert s.Leaked() == old(s.Leaked());
  }

  /** A new block of the caller's. */
  method CallersBlock(s: Serializer, bytes: seq<byte>) returns (d: Data)
    requires s.Valid() && |bytes| < WORD
    modifies s.mem`live
    ensures s.Valid() && s.Now() == old(s.Now())
    ensures d.block != s.serializedLengthData && d.block !in s.mine
    ensures d.block != null && fresh(d.block) && IsData(d) && d.length == |bytes| && Content(d) == bytes
    ensures s.mem.live == old(s.mem.live) + {d.block}
  {
    hide Serializer.Valid, Serializer.Now;
    s.HasWidths();
    var block := new byte[|bytes|](i requires 0 <= i < |bytes| => bytes[i]);
    Track(s, block);
    d := Data(|bytes|, block);
  }

  /** pico_mqtt_serialize, as a call. */
  method DoSerialize(s: Serializer) returns (status: Status)
    requires s.Valid()
    modifies s, s.mem, s.serializedLengthData
    ensures s.Valid() && s.OthersKept() && Called(old(s.Now()), Serialize, s.Now(), status)
  {
    hide PacketOf, StaleView, Vouched, Serializer.Stale, Serializer.Leaked, Serializer.Owned, Serializer.Valid;
    s.HasWidths();
    s.StaleNow();
    status := s.Serialize();
    s.HasWidths();
  }

  /** pico_mqtt_deserialize, as a call. */
  method DoDeserialize(s: Serializer, d: Data, ghost m: seq<byte>) returns (status: Status)
    requires s.Valid() && Fits(Deserialize(m)) && IsData(d) && Content(d) == m
    requires d.block != s.serializedLengthData && d.block !in s.mine
    modifies s, s.mem, s.serializedLengthData
    ensures s.Valid() && s.OthersKept() && Called(old(s.Now()), Deserialize(m), s.Now(), status)
  {
    hide Deserialized, EmptyBlock, BadService, Tainted, Serializer.Leaked, Serializer.Owned, Serializer.Valid;
    s.OwnedOrLeaked(d.block);
    s.HasWidths();
    status := s.Deserialize(d);
    s.HasWidths();
    s.NothingTainted();
    s.OwnedAtStake();
    s.OwnedNotFreed();
  }

  /** pico_mqtt_serializer_clear, as a call. */
  method DoClear(s: Serializer)
    requires s.Valid()
    modifies s, s.mem, s.serializedLengthData
    ensures s.Valid() && s.OthersKept() && Called(old(s.Now()), Clear, s.Now(), Succes)
  {
    hide Vouched, Serializer.Leaked, Serializer.OwnershipValid;
    s.Clear();
  }

  /** pico_mqtt_serializer_total_reset, as a call. */
  method DoTotalReset(s: Serializer)
    requires s.Valid()
    modifies s, s.mem, s.serializedLengthData
    ensures s.Valid() && s.OthersKept() && Called(old(s.Now()), TotalReset, s.Now(), Succes)
  {
    hide Vouched, Serializer.Leaked, Serializer.OwnershipValid;
    s.TotalReset();
  }

  /** What was new and live stays so; more is. */
  twostate predicate Brought(s: Serializer, new blocks: set<object>)
    reads s`mine, s.mem`live, s.mem`faults
  {
    && s.mem.faults == old(s.mem.faults) && s.mine == old(s.mine) && blocks !! s.mine
    && s.mem.live == old(s.mem.live) + blocks && forall b :: b in blocks ==> fresh(b)
  }

  /** New blocks of the caller's for the options. */
  method NewOptions(s: Serializer, o: Options<seq<byte>>) returns (p: Options<Data>, ghost blocks: set<object>)
    requires s.Valid() && o.keepAlive < WORD_LIMIT
    requires |o.clientId| < WORD && |o.willTopic| < WORD && |o.willMessage| < WORD
    requires |o.username| < WORD && |o.password| < WORD
    modifies s.mem`live
    ensures s.Valid() && s.Now() == old(s.Now()) && Brought(s, blocks) && |blocks| == 5
    ensures AreOptions(p) && Apart(p, s.serializedLengthData) && Contents(p) == o
    ensures p.clientId.block in blocks && p.willTopic.block in blocks && p.willMessage.block in blocks
    ensures p.username.block in blocks && p.password.block in blocks
  {
    hide Serializer.Valid, Serializer.Now;
    var clientId := CallersBlock(s, o.clientId);
    var willTopic := CallersBlock(s, o.willTopic);
    var willMessage := CallersBlock(s, o.willMessage);
    var username := CallersBlock(s, o.username);
    var password := CallersBlock(s, o.password);
    p := Options(o.keepAlive, o.cleanSession, o.willRetain, o.clientIdFlag, clientId, o.willTopicFlag, willTopic,
                 o.willMessageFlag, willMessage, o.usernameFlag, username, o.passwordFlag, password);
    blocks := {clientId.block, willTopic.block, willMessage.block, username.block, password.block};
  }

  /** New blocks of the caller's for a topic and a message. */
  method NewData(s: Serializer, t: seq<byte>, m: seq<byte>)
    returns (topic: Data, message: Data, ghost blocks: set<object>)
    requires s.Valid() && |t| < WORD && |m| < WORD
    modifies s.mem`live
    ensures s.Valid() && s.Now() == old(s.Now()) && Brought(s, blocks) && |blocks| == 2
    ensures IsData(topic) && IsData(message) && Content(topic) == t && Content(message) == m
    ensures topic.block != s.serializedLengthData && message.block != s.serializedLengthData
    ensures topic.block in blocks && message.block in blocks
  {
    hide Serializer.Valid, Serializer.Now;
    topic := CallersBlock(s, t);
    message := CallersBlock(s, m);
    blocks := {topic.block, message.block};
  }

  /** New blocks of the caller's for a whole packet. */
  method NewBlocks(s: Serializer, setup: Setup)
    returns (p: Options<Data>, topic: Data, message: Data, ghost blocks: set<object>)
    requires s.Valid() && Fits(Prepare(setup))
    modifies s.mem`live
    ensures s.Valid() && s.Now() == old(s.Now()) && Brought(s, blocks) && |blocks| == 7
    ensures AreOptions(p) && Apart(p, s.serializedLengthData) && IsData(topic) && IsData(message)
    ensures topic.block != s.serializedLengthData && message.block != s.serializedLengthData
    ensures topic.block in blocks && message.block in blocks
    ensures Setup(setup.fields, Contents(p), Content(topic), Content(message)) == setup
  {
    hide Serializer.Valid, Serializer.Now;
    p, blocks := NewOptions(s, setup.options);
    ghost var more;
    topic, message, more := NewData(s, setup.topic, setup.message);
    blocks := blocks + more;
  }

  method AssignOptions(s: Serializer, fields: Fields, options: Options<Data>)
    requires s.Valid()
    requires fields.packetId < WORD_LIMIT && AreOptions(options) && Apart(options, s.serializedLengthData)
    modifies s`fields, s`options
    ensures s.Valid()
    ensures var setup := old(s.Now()).setup;
      s.Now() == old(s.Now()).(setup := setup.(fields := fields, options := Contents(options)))
  {
    hide Vouched, Content, Contents, Apart;
    hide Serializer.Leaked, Serializer.Owned, Serializer.OwnershipValid, Serializer.FreedNoted, Serializer.AtStake;
    s.fields, s.options := fields, options;
  }

  method AssignData(s: Serializer, topic: Data, message: Data)
    requires s.Valid() && !s.topicOwnership && !s.messageOwnership && IsData(topic) && IsData(message)
    requires topic.block != s.serializedLengthData && message.block != s.serializedLengthData
    requires topic.block !in s.mine && message.block !in s.mine
    modifies s`topic, s`message, s`topicFreed, s`messageFreed
    ensures s.Valid()
    ensures var setup := old(s.Now()).setup;
      s.Now() == Replaced(old(s.Now()), setup.(topic := Content(topic), message := Content(message)))
  {
    hide Vouched, Content, Apart, Serializer.Owned, Serializer.OwnedStream;
    s.StreamOnly();
    s.topic, s.message, s.topicFreed, s.messageFreed := topic, message, false, false;
    s.StreamOnly();
  }

  method Assign(s: Serializer, fields: Fields, options: Options<Data>, topic: Data, message: Data)
    requires s.Valid()
    requires fields.packetId < WORD_LIMIT && AreOptions(options) && Apart(options, s.serializedLengthData)
    requires IsData(topic) && IsData(message)
    requires topic.block != s.serializedLengthData && message.block != s.serializedLengthData
    requires topic.block !in s.mine && message.block !in s.mine
    modifies s`fields, s`options, s`topic, s`message, s`topicFreed, s`messageFreed
    ensures s.Valid()
    ensures s.Now() == Prepared(old(s.Now()), Setup(fields, Contents(options), Content(topic), Content(message)))
  {
    hide Serializer.Valid, Serializer.Now;
    s.NowIs();
    AssignOptions(s, fields, options);
    if !s.topicOwnership && !s.messageOwnership {
      AssignData(s, topic, message);
    }
  }

  lemma PrepareCalled(v: View, setup: Setup, v': View)
    requires Fits(Prepare(setup)) && v' == Prepared(v, setup)
    ensures Called(v, Prepare(setup), v', Succes)
  {
  }

  /** The caller sets up a packet in blocks of its own, but keeps a topic and message that are owned. */
  method DoPrepare(s: Serializer, setup: Setup) returns (ghost blocks: set<object>)
    requires s.Valid() && Fits(Prepare(setup))
    modifies s, s.mem
    ensures s.Valid() && Called(old(s.Now()), Prepare(setup), s.Now(), Succes)
    ensures Brought(s, blocks) && |blocks| == 7
  {
    hide Called, Content, Contents, Prepared, Apart, Serializer.Valid, Serializer.Now;
    var options, topic, message;
    options, topic, message, blocks := NewBlocks(s, setup);
    s.HasWidths();
    s.NowIs();
    Assign(s, setup.fields, options, topic, message);
    PrepareCalled(old(s.Now()), setup, s.Now());
  }

  /** Nothing of anyone else's has changed, but for these new blocks of the caller's. */
  twostate predicate LeftAlone(s: Serializer, new blocks: set<object>)
    reads s`mine, s.mem`live, s.mem`faults
  {
    && s.mem.faults == old(s.mem.faults)
    && s.mem.live - s.mine == old(s.mem.live - s.mine) + blocks
    && forall b :: b in blocks ==> fresh(b)
  }

  /** Any call. */
  method Do(s: Serializer, call: Call) returns (status: Status, ghost blocks: set<object>)
    requires s.Valid() && Fits(call)
    modifies s, s.mem, s.serializedLengthData
    ensures s.Valid() && Called(old(s.Now()), call, s.Now(), status)
    ensures LeftAlone(s, blocks) && |blocks| == Brings(call)
  {
    hide Called, Serializer.Valid, Serializer.Now;
    status, blocks := Succes, {};
    match call {
      case Serialize => status := DoSerialize(s);
      case Deserialize(m) =>
        var d := CallersBlock(s, m);
        blocks := {d.block};
        assert LeftAlone(s, blocks);
        status := DoDeserialize(s, d, m);
      case Clear => DoClear(s);
      case TotalReset => DoTotalReset(s);
      case Prepare(setup) => blocks := DoPrepare(s, setup);
    }
  }

  /** What is left when the serializer and all that it owns are gone. */
  lemma Remainder(live: set<object>, mine: set<object>, owned: set<object>, callers: set<object>, s: object)
    requires live - mine == callers + {s} && s !in callers && owned <= mine
    ensures live - owned - {s} == callers + (mine * live - owned) && callers !! mine * live - owned
  {
    assert forall b :: b in live - owned - {s} <==> b in callers + (mine * live - owned);
  }

  lemma RunLength(log: seq<View>, calls: seq<Call>, statuses: seq<Status>)
    requires IsRun(log, calls, statuses)
    ensures |log| == |calls| + 1 && |statuses| == |calls|
  {
  }

  lemma AnotherCall(log: seq<View>, calls: seq<Call>, statuses: seq<Status>, v: View, call: Call, status: Status)
    requires IsRun(log, calls, statuses) && Fits(call) && Called(log[|calls|], call, v, status)
    ensures IsRun(log + [v], calls + [call], statuses + [status])
    ensures Blocks(calls + [call]) == Blocks(calls) + Brings(call)
  {
    hide Called, Fits;
    assert (calls + [call])[..|calls|] == calls;
    var n, more, after, told := |calls|, calls + [call], log + [v], statuses + [status];
    forall i | 0 <= i < n + 1 ensures Fits(more[i]) && Called(after[i], more[i], after[i + 1], told[i]) {
      if i < n {
        assert more[i] == calls[i] && after[i] == log[i] && after[i + 1] == log[i + 1] && told[i] == statuses[i];
      }
    }
  }

  /** A new serializer, in memory of its own. */
  method Begin(plan: nat -> bool) returns (s: Serializer)
    ensures fresh(s) && fresh(s.mem) && fresh(s.serializedLengthData) && s.mem.plan == plan
    ensures s.Valid() && s.Now() == NEW && s.mem.live - s.mine == {s} && s.mem.faults == 0
  {
    hide Serializer.Valid, Serializer.Now;
    var mem := new Memory(plan);
    s := new Serializer(mem);
    s.NewNow();
  }

  /** These calls have been made, and the caller has brought these blocks. */
  ghost predicate SoFar(s: Serializer, calls: seq<Call>, statuses: seq<Status>, log: seq<View>, callers: set<object>)
    reads s, s.mem, s.topic.block, s.message.block, s.stream.block
    reads s.options.clientId.block, s.options.willTopic.block, s.options.willMessage.block
    reads s.options.username.block, s.options.password.block
  {
    && s.Valid() && IsRun(log, calls, statuses) && log[|calls|] == s.Now()
    && s.mem.live - s.mine == callers + {s} && s !in callers && |callers| == Blocks(calls)
  }

  lemma SoFarIs(s: Serializer, calls: seq<Call>, statuses: seq<Status>, log: seq<View>, callers: set<object>)
    requires SoFar(s, calls, statuses, log, callers)
    ensures s.Valid() && IsRun(log, calls, statuses) && |log| == |calls| + 1 && log[|calls|] == s.Now()
    ensures s.mem.live - s.mine == callers + {s} && s !in callers && |callers| == Blocks(calls)
  {
  }

  lemma MoreCallers(callers: set<object>, blocks: set<object>, s: object)
    requires callers !! blocks
    ensures callers + {s} + blocks == callers + blocks + {s} && |callers + blocks| == |callers| + |blocks|
  {
  }

  lemma SoFarSnoc(s: Serializer, calls: seq<Call>, statuses: seq<Status>, log: seq<View>, callers: set<object>,
                  call: Call, status: Status, blocks: set<object>)
    requires s.Valid() && IsRun(log, calls, statuses) && Fits(call) && Called(log[|calls|], call, s.Now(), status)
    requires s.mem.live - s.mine == callers + {s} + blocks && s !in callers + blocks && callers !! blocks
    requires |callers| == Blocks(calls) && |blocks| == Brings(call)
    ensures SoFar(s, calls + [call], statuses + [status], log + [s.Now()], callers + blocks)
  {
    hide Called, Fits, IsRun, Blocks, Serializer.Valid, Serializer.Now;
    RunLength(log, calls, statuses);
    AnotherCall(log, calls, statuses, s.Now(), call, status);
    MoreCallers(callers, blocks, s);
  }

  /** One more call. */
  method DoNext(s: Serializer, ghost calls: seq<Call>, ghost statuses: seq<Status>, ghost log: seq<View>,
                ghost callers: set<object>, call: Call)
    returns (status: Status, ghost log': seq<View>, ghost callers': set<object>)
    requires SoFar(s, calls, statuses, log, callers) && Fits(call)
    modifies s, s.mem, s.serializedLengthData
    ensures SoFar(s, calls + [call], statuses + [status], log', callers') && s.mem.faults == old(s.mem.faults)
  {
    hide Called, Fits, IsRun, SoFar, Serializer.Valid, Serializer.Now;
    SoFarIs(s, calls, statuses, log, callers);
    ghost var blocks;
    status, blocks := Do(s, call);
    SoFarSnoc(s, calls, statuses, log, callers, call, status, blocks);
    log', callers' := log + [s.Now()], callers + blocks;
  }

  lemma Nothing(s: Serializer)
    requires s.Valid() && s.Now() == NEW && s.mem.live - s.mine == {s}
    ensures SoFar(s, [], [], [NEW], {})
  {
    hide Serializer.Valid, Serializer.Now;
    assert {} + {s} == {s};
  }

  /** The calls were made, up to the first that goes beyond what is modelled. */
  predicate StopsBeyond(calls: seq<Call>, statuses: seq<Status>) {
    && |statuses| <= |calls| && (forall i :: 0 <= i < |statuses| - 1 ==> statuses[i] != Beyond)
    && (|statuses| < |calls| ==> statuses != [] && statuses[|statuses| - 1] == Beyond)
  }

  /** Any calls in any order: every one does what it may. */
  method RunCalls(s: Serializer, calls: seq<Call>)
    returns (statuses: seq<Status>, ghost log: seq<View>, ghost callers: set<object>)
    requires s.Valid() && s.Now() == NEW && s.mem.live - s.mine == {s}
    requires forall i :: 0 <= i < |calls| ==> Fits(calls[i])
    modifies s, s.mem, s.serializedLengthData
    ensures StopsBeyond(calls, statuses) && s.mem.faults == old(s.mem.faults)
    ensures SoFar(s, calls[..|statuses|], statuses, log, callers)
  {
    statuses, log, callers := [], [NEW], {};
    hide SoFar, Fits;
    Nothing(s);
    for i := 0 to |calls|
      invariant |statuses| == i && forall k :: 0 <= k < i ==> statuses[k] != Beyond
      invariant SoFar(s, calls[..i], statuses, log, callers) && s.mem.faults == old(s.mem.faults)
    {
      assert calls[..i + 1] == calls[..i] + [calls[i]];
      var status;
      status, log, callers := DoNext(s, calls[..i], statuses, log, callers, calls[i]);
      statuses := statuses + [status];
      if status == Beyond {
        return;
      }
    }
  }

  lemma NoMore(calls: seq<Call>, statuses: seq<Status>)
    requires StopsBeyond(calls, statuses)
    ensures |statuses| <= |calls|
  {
  }

  /**
   * Any calls in any order on a new serializer, on packets and messages of the caller's
   * choosing, up to the first that goes beyond what is modelled, and then a destroy. Every
   * call does what it may, and every free is of a live block of the serializer's own. What is
   * allocated in the end is the blocks that the caller brought, all of them, and what the
   * calls leaked, which is nothing exactly when no call was of a kind that leaks.
   */
  method AnyCalls(calls: seq<Call>, plan: nat -> bool)
    returns (mem: Memory, statuses: seq<Status>, ghost log: seq<View>, ghost callers: set<object>)
    requires forall i :: 0 <= i < |calls| ==> Fits(calls[i])
    ensures mem.plan == plan && mem.faults == 0 && StopsBeyond(calls, statuses)
    ensures var n := |statuses|;
      && IsRun(log, calls[..n], statuses)
      && mem.live == callers + log[n].leaked && callers !! log[n].leaked && |callers| == Blocks(calls[..n])
      && (log[n].leaked == {} <==> NoneLeaky(log, calls[..n]))
  {
    hide Called, NoneLeaky, Fits, StopsBeyond, Serializer.Valid, Serializer.Now;
    var s := Begin(plan);
    mem := s.mem;
    statuses, log, callers := RunCalls(s, calls);
    assert |statuses| <= |calls| by {
      NoMore(calls, statuses);
    }
    LeakedExactly(log, calls[..|statuses|], statuses);
    s.NowLeaked();
    Remainder(mem.live, s.mine, s.Owned(), callers, s);
    s.Destroy();
  }

  // ----- what has been freed -----

  /** A PUBLISH with a quality of service of 3, when there are a topic and a message and one of
      them has been freed or is freed by this call. */
  ghost predicate Taints(v: View, call: Call) {
    && call.Deserialize? && BadService(call.message) && v.setup.topic != [] && v.setup.message != []
    && (v.topicFreed || v.topicAtStake || v.messageFreed || v.messageAtStake)
  }

  /** What is owned is owned in pairs, and has not been freed. */
  predicate Sound(v: View) {
    v.topicOwned == v.messageOwned && (v.topicOwned ==> !v.topicFreed && !v.messageFreed)
  }

  lemma NewUntainted()
    ensures !Tainted(NEW)
  {
  }

  lemma TaintedStep(v: View, call: Call, v': View, status: Status)
    requires Fits(call) && Called(v, call, v', status) && status != Beyond && Sound(v)
    ensures Sound(v') && (Tainted(v') <==> Taints(v, call) || (call == Serialize && Tainted(v)))
  {
  }

  /** The last call to taint, with nothing but serializing since. */
  ghost predicate LastToTaint(log: seq<View>, calls: seq<Call>, i: nat)
    requires |log| == |calls| + 1
  {
    i < |calls| && Taints(log[i], calls[i]) && forall j :: i < j < |calls| ==> calls[j] == Serialize
  }

  lemma LastToTaintSnoc(log: seq<View>, calls: seq<Call>, i: nat)
    requires |log| == |calls| + 1 && calls != []
    ensures var n := |calls| - 1;
      LastToTaint(log, calls, i) <==>
        if i == n then Taints(log[n], calls[n])
        else calls[n] == Serialize && LastToTaint(log[..n + 1], calls[..n], i)
  {
    hide Taints;
    var n := |calls| - 1;
    assert calls == calls[..n] + [calls[n]];
  }

  /**
   * Over a run, freed data would be serialized next exactly if a PUBLISH with a quality of
   * service of 3 has come when there were a topic and a message, one of them freed or the
   * serializer's own, and nothing but serializing has followed.
   */
  lemma {:induction false} TaintedExactly(log: seq<View>, calls: seq<Call>, statuses: seq<Status>)
    requires IsRun(log, calls, statuses) && forall i :: 0 <= i < |calls| ==> statuses[i] != Beyond
    ensures Tainted(log[|calls|]) <==> exists i: nat :: LastToTaint(log, calls, i)
    ensures Sound(log[|calls|])
    decreases |calls|
  {
    hide Called, Taints, Tainted;
    if calls == [] {
      NewUntainted();
    } else {
      var n := |calls| - 1;
      var before, made := log[..n + 1], calls[..n];
      TaintedExactly(before, made, statuses[..n]);
      TaintedStep(log[n], calls[n], log[n + 1], statuses[n]);
      forall i: nat ensures LastToTaint(log, calls, i) <==>
          if i == n then Taints(log[n], calls[n]) else calls[n] == Serialize && LastToTaint(before, made, i) {
        LastToTaintSnoc(log, calls, i);
      }
      assert LastToTaint(log, calls, n) <==> Taints(log[n], calls[n]);
    }
  }

  const PUBLISHED: seq<byte> := [0x30, 4, 0, 1, 97, 98]   // topic a, message b
  const BAD: seq<byte> := [0x36, 4, 0, 1, 97, 98]         // the same with a quality of service of 3

  lemma WhatTheyMean()
    ensures Deserialized(PUBLISHED) == GotPublish(Publish(false, 0, false, [97], 0, [98]))
    ensures !BadService(PUBLISHED) && BadService(BAD) && Deserialized(BAD) == Rejected
  {
    var rest: seq<byte> := [0, 1, 97, 98];
    assert PUBLISHED[1..] == [4] + rest && PUBLISHED[1..][0] == 4;
    assert SkipLength(PUBLISHED[1..], 0) == Some(1) && PUBLISHED[2..] == rest;
    assert rest[2..3] == [97] && rest[3..] == [98] && ReadWord(rest) == 1;
    assert GetField(rest) == ([97], 3);
    assert DeserializedPublishRest(0x30, rest) == DeserializedPublishTail(0x30, [97], [98]);
  }

  lemma ReadsFreed(log: seq<View>, calls: seq<Call>, statuses: seq<Status>)
    requires IsRun(log, calls, statuses) && log[|calls|].refusals == 0
    requires calls <= [Deserialize(PUBLISHED), Deserialize(BAD), Serialize]
    ensures |calls| > 0 ==> statuses[0] == Succes
    ensures |calls| > 1 ==> statuses[1] == Error
    ensures |calls| > 2 ==> statuses[2] == Beyond
  {
    hide Deserialized, BadService, PublishPacket;
    WhatTheyMean();
    if |calls| > 0 {
      assert Called(log[0], calls[0], log[1], statuses[0]);
    }
    if |calls| > 1 {
      assert Called(log[1], calls[1], log[2], statuses[1]);
    }
    if |calls| > 2 {
      assert Called(log[2], calls[2], log[3], statuses[2]);
    }
  }

  lemma AllMade(calls: seq<Call>, statuses: seq<Status>)
    requires StopsBeyond(calls, statuses) && |calls| == 3
    requires |statuses| > 0 ==> statuses[0] == Succes
    requires |statuses| > 1 ==> statuses[1] == Error
    requires |statuses| > 2 ==> statuses[2] == Beyond
    ensures statuses == [Succes, Error, Beyond]
  {
  }

  /** Three calls, the last of which copies from a block that the second has freed. */
  method FreedTopic(plan: nat -> bool) returns (s: Serializer, statuses: seq<Status>)
    ensures s.mem.plan == plan && (s.mem.refusals == 0 ==> statuses == [Succes, Error, Beyond])
  {
    hide Called, StopsBeyond, Serializer.Valid;
    s := Begin(plan);
    var calls := [Deserialize(PUBLISHED), Deserialize(BAD), Serialize];
    ghost var log, callers;
    statuses, log, callers := RunCalls(s, calls);
    NoMore(calls, statuses);
    if s.mem.refusals == 0 {
      ReadsFreed(log, calls[..|statuses|], statuses);
      AllMade(calls, statuses);
    }
  }
}
