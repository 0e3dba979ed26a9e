/**
 * The frames websocket-bsd/pico_websocket_client.c writes, against a reader of frames as
 * sections 5.2 and 5.3 of RFC 6455 describe them.
 */
module Websocket {
  import opened Bytes
  import opened Sockets
  import opened Wrappers

  // ----- masking, section 5.3 of RFC 6455 -----

  /** Exclusive or of the lowest n bits. */
  function XorBits(n: nat, a: nat, b: nat): (r: nat)
    ensures r < Pow(2, n)
  {
    if n == 0 then 0 else (a + b) % 2 + 2 * XorBits(n - 1, a / 2, b / 2)
  }

  lemma Parity(a: nat, b: nat, r: nat)
    ensures ((a + b) % 2 + 2 * r + b) % 2 == a % 2
    ensures ((a + b) % 2 + 2 * r) / 2 == r
  {
  }

  lemma {:induction false} XorBitsTwice(n: nat, a: nat, b: nat)
    requires a < Pow(2, n)
    ensures XorBits(n, XorBits(n, a, b), b) == a
  {
    if n > 0 {
      var r := XorBits(n - 1, a / 2, b / 2);
      XorBitsTwice(n - 1, a / 2, b / 2);
      Parity(a, b, r);
      assert XorBits(n, XorBits(n, a, b), b) == a % 2 + 2 * XorBits(n - 1, r, b / 2);
    }
  }

  lemma {:induction false} XorBitsSame(n: nat, a: nat, b: nat)
    requires a < Pow(2, n) && b < Pow(2, n)
    ensures XorBits(n, a, b) == a <==> b == 0
  {
    if n > 0 {
      XorBitsSame(n - 1, a / 2, b / 2);
      assert XorBits(n, a, b) / 2 == XorBits(n - 1, a / 2, b / 2);
    }
  }

  function Xor(a: byte, b: byte): byte {
    assert Pow(2, 8) == 256;
    XorBits(8, a, b)
  }

  lemma XorTwice(a: byte, b: byte)
    ensures Xor(Xor(a, b), b) == a
  {
    hide XorBits;
    assert Pow(2, 8) == 256;
    XorBitsTwice(8, a, b);
  }

  lemma XorSame(a: byte, b: byte)
    ensures Xor(a, b) == a <==> b == 0
  {
    hide XorBits;
    assert Pow(2, 8) == 256;
    XorBitsSame(8, a, b);
  }

  lemma {:induction false} XorBitsAt(n: nat, a: nat, b: nat, k: nat)
    requires k < n
    ensures BitAt(XorBits(n, a, b), k) <==> BitAt(a, k) != BitAt(b, k)
  {
    var r := XorBits(n - 1, a / 2, b / 2);
    assert XorBits(n, a, b) / 2 == r;
    if k == 0 {
      assert XorBits(n, a, b) % 2 == (a + b) % 2;
    } else {
      XorBitsAt(n - 1, a / 2, b / 2, k - 1);
    }
  }

  /** A key of four octets, in the order they have in memory. */
  type MaskingKey = key: seq<byte> | |key| == 4 witness [0, 0, 0, 0]

  function Masked(data: seq<byte>, key: MaskingKey): (masked: seq<byte>)
    ensures |masked| == |data|
  {
    seq(|data|, i requires 0 <= i < |data| => Xor(data[i], key[i % 4]))
  }

  /**
   * Section 5.3 of RFC 6455: octet i of the transformed data is octet i of the original, with
   * the bits turned round that are set in octet i modulo 4 of the key.
   */
  function Transformed(data: seq<byte>, key: MaskingKey): (r: seq<byte>)
    ensures |r| == |data|
  {
    assert Pow(2, 8) == 256;
    seq(|data|, i requires 0 <= i < |data| =>
      FromBits(seq(8, k requires 0 <= k < 8 => BitAt(data[i], k) != BitAt(key[i % 4], k))))
  }

  /** The code's masking, bit by bit. */
  lemma MaskedBit(data: seq<byte>, key: MaskingKey, i: nat, k: nat)
    requires i < |data| && k < 8
    ensures BitAt(Masked(data, key)[i], k) <==> BitAt(data[i], k) != BitAt(key[i % 4], k)
  {
    hide BitAt, XorBits;
    XorBitsAt(8, data[i], key[i % 4], k);
  }

  /** It is the standard's. */
  lemma MaskedIsTransformed(data: seq<byte>, key: MaskingKey)
    ensures Masked(data, key) == Transformed(data, key)
  {
    hide BitAt, Xor, FromBits, Masked;
    forall i | 0 <= i < |data| ensures Masked(data, key)[i] == Transformed(data, key)[i] {
      var m, bits := Masked(data, key)[i], seq(8, k requires 0 <= k < 8 => BitAt(data[i], k) != BitAt(key[i % 4], k));
      forall k | 0 <= k < 8 ensures Bits(m, 8)[k] == bits[k] {
        MaskedBit(data, key, i, k);
      }
      assert Bits(m, 8) == bits;
      assert Pow(2, 8) == 256;
      BitsMakeUp(m, 8);
    }
  }

  /** Masking twice with the same key is the identity. */
  lemma MaskTwice(data: seq<byte>, key: MaskingKey)
    ensures Masked(Masked(data, key), key) == data
  {
    forall i | 0 <= i < |data| ensures Masked(Masked(data, key), key)[i] == data[i] {
      XorTwice(data[i], key[i % 4]);
    }
  }

  /** Masking leaves data alone exactly when the octets of the key that it meets are zero. */
  lemma MaskChanges(data: seq<byte>, key: MaskingKey)
    ensures Masked(data, key) == data <==> forall i :: 0 <= i < |data| && i < 4 ==> key[i] == 0
  {
    hide Xor;
    forall i | 0 <= i < |data| ensures Masked(data, key)[i] == data[i] <==> key[i % 4] == 0 {
      XorSame(data[i], key[i % 4]);
    }
    if forall i :: 0 <= i < |data| && i < 4 ==> key[i] == 0 {
    } else {
      var i :| 0 <= i < |data| && i < 4 && key[i] != 0;
      assert key[i % 4] != 0;
    }
  }

  /** pico_websocket_mask_data */
  method MaskData(key: MaskingKey, data: array<byte>, size: nat)
    requires size <= data.Length
    modifies data
    ensures data[..size] == Masked(old(data[..size]), key)
    ensures data[size..] == old(data[size..])
  {
    hide Xor;
    for i := 0 to size
      invariant forall j :: 0 <= j < i ==> data[j] == Xor(old(data[j]), key[j % 4])
      invariant forall j :: i <= j < data.Length ==> data[j] == old(data[j])
    {
      data[i] := Xor(data[i], key[i % 4]);
    }
  }

  // ----- the header -----

  /** struct pico_websocket_header: bit fields, the first of each octet lowest. */
  datatype Header = Header(
    opcode: nat, rsv3: nat, rsv2: nat, rsv1: nat, fin: nat,   // 4 bits and 4 times 1
    payloadLength: nat, mask: nat                              // 7 bits and 1
  ) {
    predicate Fits() {
      opcode < 16 && rsv3 < 2 && rsv2 < 2 && rsv1 < 2 && fin < 2 && payloadLength < 128 && mask < 2
    }

    /** The two octets of the struct in memory. */
    function Octets(): (octets: seq<byte>)
      requires Fits()
      ensures |octets| == 2
    {
      [opcode + 16 * rsv3 + 32 * rsv2 + 64 * rsv1 + 128 * fin, payloadLength + 128 * mask]
    }
  }

  const WS_PONG := 10
  const SEVEN_BIT_LIMIT := 125
  const SIXTEEN_BIT_INDICATOR := 126
  const SIXTY_FOUR_BIT_INDICATOR := 127

  /** A 16-bit number as short_be leaves it in memory. */
  function ShortBe(n: nat): (octets: seq<byte>)
    requires n < 0x1_0000
    ensures |octets| == 2
  {
    [n / 256, n % 256]
  }

  /** The three RSV octets the user may pass; only their lowest bits are kept. */
  datatype Rsv = Rsv(rsv1: byte, rsv2: byte, rsv3: byte)

  function Bit(rsv: Option<Rsv>, n: nat): (bit: nat)
    requires 1 <= n <= 3
    ensures bit < 2
  {
    match rsv
    case None => 0
    case Some(r) => (if n == 1 then r.rsv1 else if n == 2 then r.rsv2 else r.rsv3) % 2
  }

  function FrameHeader(size: nat, rsv: Option<Rsv>, opcode: byte): (h: Header)
    ensures h.Fits()
  {
    Header(opcode % 16, Bit(rsv, 3), Bit(rsv, 2), Bit(rsv, 1), 1,
           if size > SEVEN_BIT_LIMIT then SIXTEEN_BIT_INDICATOR else size, 1)
  }

  /** How many bytes of each write the socket took. */
  datatype Took = Took(header: nat, length: nat, key: nat, payload: nat)

  /** The bytes of a frame and how much of each part of it got onto the wire. */
  datatype Parts = Parts(header: seq<byte>, length: seq<byte>, key: seq<byte>, payload: seq<byte>) {
    function Whole(): seq<byte> {
      header + length + key + payload
    }

    predicate Covers(took: Took) {
      took.header <= |header| && took.length <= |length| && took.key <= |key| && took.payload <= |payload|
    }

    function Accepted(took: Took): seq<byte>
      requires Covers(took)
    {
      header[..took.header] + length[..took.length] + key[..took.key] + payload[..took.payload]
    }

    /** The writes one after the other. */
    lemma InOrder(wire: seq<byte>, took: Took)
      requires Covers(took)
      ensures wire + Accepted(took)
           == wire + header[..took.header] + length[..took.length]
              + key[..took.key] + payload[..took.payload]
    {
    }

    /** What is on the wire when a write has failed. */
    lemma CutShort(wire: seq<byte>, n: nat, m: nat)
      requires n <= |header| && m <= |length|
      ensures wire + Accepted(Took(n, 0, 0, 0)) == wire + header[..n]
      ensures wire + Accepted(Took(n, m, 0, 0)) == wire + header[..n] + length[..m]
    {
    }

    /** The frame is on the wire exactly when every write was taken in full. */
    lemma AcceptedExact(took: Took)
      requires Covers(took)
      ensures Accepted(took) == Whole() <==> took == Took(|header|, |length|, |key|, |payload|)
    {
      if took == Took(|header|, |length|, |key|, |payload|) {
        assert header[..took.header] == header && length[..took.length] == length;
        assert key[..took.key] == key && payload[..took.payload] == payload;
      } else {
        assert |Accepted(took)| < |Whole()|;
      }
    }
  }

  /** What ws_write_rsv writes: header, 16-bit length if there is one, key and payload. */
  function FrameParts(payload: seq<byte>, rsv: Option<Rsv>, opcode: byte, key: MaskingKey): Parts
    requires |payload| < 0x1_0000
  {
    Parts(FrameHeader(|payload|, rsv, opcode).Octets(),
          if |payload| > SEVEN_BIT_LIMIT then ShortBe(|payload|) else [],
          key, Masked(payload, key))
  }

  // ----- reading a frame, section 5.2 of RFC 6455 -----

  datatype Frame = Frame(fin: bool, rsv1: bool, rsv2: bool, rsv3: bool, opcode: nat,
                         key: Option<MaskingKey>, payload: seq<byte>)

  function BigEndian(octets: seq<byte>): nat {
    if octets == [] then 0
    else 256 * BigEndian(octets[..|octets| - 1]) + octets[|octets| - 1]
  }

  /** How many octets of extended length follow the 7-bit length. */
  function ExtendedLength(length7: nat): nat {
    if length7 == 126 then 2
    else if length7 == 127 then 8
    else 0
  }

  /** The minimal form must be used, and the highest bit of 64 be zero. */
  predicate LengthAllowed(length7: nat, n: nat) {
    match length7
    case 126 => n > 125
    case 127 => 0xFFFF < n < 0x8000_0000_0000_0000
    case _ => true
  }

  /** The payload length and how many octets give it. */
  function ReadLength(s: seq<byte>): Option<(nat, nat)>
    requires |s| >= 2
  {
    var length7 := s[1] % 128;
    var ext := ExtendedLength(length7);
    if |s| < 2 + ext then None
    else
      var n := if ext == 0 then length7 else BigEndian(s[2..2 + ext]);
      if LengthAllowed(length7, n) then Some((n, ext)) else None
  }

  /** The first frame of a stream, unmasked, and what follows it. */
  function ReadFrame(s: seq<byte>): Option<(Frame, seq<byte>)> {
    if |s| < 2 then None
    else
      match ReadLength(s)
      case None => None
      case Some((n, ext)) =>
        var masked := s[1] / 128 == 1;
        var start := 2 + ext + if masked then 4 else 0;
        if |s| < start + n then None
        else
          var key: Option<MaskingKey> := if masked then Some(s[2 + ext..start]) else None;
          var data := s[start..start + n];
          Some((Frame(s[0] / 128 == 1, s[0] / 64 % 2 == 1, s[0] / 32 % 2 == 1, s[0] / 16 % 2 == 1, s[0] % 16,
                      key, if key.None? then data else Transformed(data, key.value)),
                s[start + n..]))
  }

  lemma HeaderReads(h: Header)
    requires h.Fits()
    ensures var o := h.Octets();
      && o[0] / 128 == h.fin && o[0] / 64 % 2 == h.rsv1 && o[0] / 32 % 2 == h.rsv2
      && o[0] / 16 % 2 == h.rsv3 && o[0] % 16 == h.opcode
      && o[1] / 128 == h.mask && o[1] % 128 == h.payloadLength
  {
    var b: nat := h.Octets()[0];
    assert b / 16 == h.rsv3 + 2 * h.rsv2 + 4 * h.rsv1 + 8 * h.fin;
    assert b / 32 == h.rsv2 + 2 * h.rsv1 + 4 * h.fin;
    assert b / 64 == h.rsv1 + 2 * h.fin;
  }

  lemma ShortBeReads(n: nat)
    requires n < 0x1_0000
    ensures BigEndian(ShortBe(n)) == n
  {
    var o := ShortBe(n);
    assert o[..1] == [n / 256] && o[..1][..0] == [];
    assert BigEndian(o[..1]) == n / 256;
  }

  /** A stream that begins with a header, an extended length and a key. */
  lemma ReadsAs(h: Header, ext: seq<byte>, key: MaskingKey, n: nat, data: seq<byte>)
    requires h.Fits() && h.mask == 1 && |ext| == ExtendedLength(h.payloadLength)
    requires n == if ext == [] then h.payloadLength else BigEndian(ext)
    requires LengthAllowed(h.payloadLength, n)
    ensures ReadFrame(h.Octets() + ext + key + data)
         == if |data| < n then None
            else Some((Frame(h.fin == 1, h.rsv1 == 1, h.rsv2 == 1, h.rsv3 == 1, h.opcode,
                             Some(key), Transformed(data[..n], key)), data[n..]))
  {
    hide Transformed, BigEndian, Header.Octets, Header.Fits;
    var s := h.Octets() + ext + key + data;
    HeaderReads(h);
    assert s[0] == h.Octets()[0] && s[1] == h.Octets()[1];
    assert s[2..2 + |ext|] == ext && s[2 + |ext|..6 + |ext|] == key;
    if |data| >= n {
      assert s[6 + |ext|..6 + |ext| + n] == data[..n];
      assert s[6 + |ext| + n..] == data[n..];
    }
  }

  /**
   * Every frame ws_write_rsv writes is read back: its flags, opcode and key, and, once
   * unmasked, the payload; whatever follows it is left for the next frame.
   */
  lemma FrameRoundTrip(payload: seq<byte>, rsv: Option<Rsv>, opcode: byte, key: MaskingKey, rest: seq<byte>)
    requires |payload| < 0x1_0000
    ensures ReadFrame(FrameParts(payload, rsv, opcode, key).Whole() + rest)
         == Some((Frame(true, rsv.Some? && BitAt(rsv.value.rsv1, 0), rsv.Some? && BitAt(rsv.value.rsv2, 0),
                        rsv.Some? && BitAt(rsv.value.rsv3, 0), opcode % 16, Some(key), payload), rest))
  {
    hide ReadFrame, Masked, Transformed, BigEndian, ShortBe;
    var n, h, masked := |payload|, FrameHeader(|payload|, rsv, opcode), Masked(payload, key);
    var ext := if n > SEVEN_BIT_LIMIT then ShortBe(n) else [];
    assert h.Octets() + ext + key + (masked + rest) == FrameParts(payload, rsv, opcode, key).Whole() + rest;
    if n > SEVEN_BIT_LIMIT {
      ShortBeReads(n);
    }
    ReadsAs(h, ext, key, n, masked + rest);
    assert (masked + rest)[..n] == masked && (masked + rest)[n..] == rest;
    MaskTwice(payload, key);
    MaskedIsTransformed(masked, key);
  }

  // ----- pong -----

  function PongHeader(h: Header): Header {
    h.(opcode := WS_PONG, mask := 1)
  }

  /** What pico_websocket_client_send_pong writes. */
  function PongParts(h: Header, payload: seq<byte>, key: MaskingKey): Parts
    requires h.Fits()
  {
    Parts(PongHeader(h).Octets(), [], key, Masked(payload, key))
  }

  /** The octets of a stream that a frame takes up. */
  lemma FrameLength(s: seq<byte>)
    ensures ReadFrame(s).Some? ==>
              var (f, rest) := ReadFrame(s).value;
              |s| == 2 + ExtendedLength(s[1] % 128) + (if f.key.Some? then 4 else 0) + |f.payload| + |rest|
  {
    hide Transformed, BigEndian, LengthAllowed;
  }

  /**
   * A pong reuses the header of the ping, so what it writes is one whole frame with the
   * given payload exactly when the header has no extended length and the payload is as long
   * as it says: a ping cut short to fit the user's buffer is answered by a frame that is too
   * short, and one with an extended length by a frame that lacks it.
   */
  lemma PongExact(h: Header, payload: seq<byte>, key: MaskingKey)
    requires h.Fits()
    ensures ReadFrame(PongParts(h, payload, key).Whole())
              == Some((Frame(h.fin == 1, h.rsv1 == 1, h.rsv2 == 1, h.rsv3 == 1, 0xA, Some(key), payload), []))
            <==> h.payloadLength <= 125 && |payload| == h.payloadLength
    ensures |payload| < h.payloadLength <= 125 ==>
              ReadFrame(PongParts(h, payload, key).Whole()) == None
  {
    hide ReadFrame, Masked, Transformed;
    var masked, s := Masked(payload, key), PongParts(h, payload, key).Whole();
    if h.payloadLength > SEVEN_BIT_LIMIT {
      HeaderReads(PongHeader(h));
      assert s[1] == PongHeader(h).Octets()[1];
      FrameLength(s);
    } else {
      ReadsAs(PongHeader(h), [], key, h.payloadLength, masked);
      if |payload| == h.payloadLength {
        assert masked[..|payload|] == masked && masked[|payload|..] == [];
        MaskTwice(payload, key);
        MaskedIsTransformed(masked, key);
      } else if |payload| > h.payloadLength {
        assert masked[h.payloadLength..] != [];
      }
    }
  }

  // ----- writing -----

  datatype State = Connecting | Connected | Closing | Closed

  /** What the socket takes of the writes of a frame, from its w-th write on. */
  function Planned(parts: Parts, plan: nat -> nat, w: nat): Took {
    var long := if parts.length == [] then 0 else 1;
    Took(Least(|parts.header|, plan(w)), if long == 0 then 0 else Least(|parts.length|, plan(w + 1)),
         Least(|parts.key|, plan(w + long + 1)), Least(|parts.payload|, plan(w + long + 2)))
  }

  /** struct pico_websocket_client, as far as writing goes. Which of its writes fail is
      settled by a plan that can be any. */
  class Client {
    var state: State
    const sck: OutSocket
    const fails: nat -> bool   // whether the i-th write fails
    var calls: nat             // writes so far

    constructor (sck: OutSocket, state: State, fails: nat -> bool)
      ensures this.sck == sck && this.state == state && this.fails == fails && calls == 0
    {
      this.sck, this.state, this.fails, calls := sck, state, fails, 0;
    }

    /** backend_write: an error, with nothing written, or how much was taken. */
    method BackendWrite(bytes: seq<byte>) returns (k: int, ghost took: nat)
      modifies sck, this`calls
      ensures calls == old(calls) + 1 && took <= |bytes|
      ensures sck.wire == old(sck.wire) + bytes[..took]
      ensures if fails(old(calls)) then k == -1 && took == 0 && sck.writes == old(sck.writes)
              else k == took == Least(|bytes|, sck.plan(old(sck.writes))) && sck.writes == old(sck.writes) + 1
    {
      if fails(calls) {
        k, took := -1, 0;
      } else {
        var n := sck.Write(bytes);
        k, took := n, n;
      }
      calls := calls + 1;
    }

    /** The end of ws_write_rsv. */
    method WriteKeyAndPayload(data: array<byte>, size: nat, key: MaskingKey)
      returns (r: int, ghost n: nat, ghost m: nat)
      requires size <= data.Length
      modifies sck, data, this`calls
      ensures n <= 4 && m <= size && m == if r < 0 then 0 else r
      ensures if r < 0 then r == -1 && calls > old(calls) && fails(calls - 1)
              else n == Least(4, sck.plan(old(sck.writes))) && m == Least(size, sck.plan(old(sck.writes) + 1))
      ensures sck.wire == old(sck.wire) + key[..n] + Masked(old(data[..size]), key)[..m]
      ensures r >= 0 ==> data[..size] == Masked(old(data[..size]), key)
      ensures data[..size] == old(data[..size]) || data[..size] == Masked(old(data[..size]), key)
      ensures data[size..] == old(data[size..])
    {
      hide Masked;
      m := 0;
      r, n := BackendWrite(key);
      if r < 0 {
        return;
      }
      MaskData(key, data, size);
      r, m := BackendWrite(data[..size]);
    }

    /**
     * ws_write_rsv. Nothing is sent for a payload over 65535 bytes or when not connected.
     * A failed write ends it, and is the only other reason to refuse; a short one does not,
     * and only what was taken of the payload is reported. The user's data is left masked.
     */
    method WriteRsv(data: array<byte>, size: nat, rsv: Option<Rsv>, opcode: byte, key: MaskingKey)
      returns (r: int, ghost took: Took)
      requires size <= data.Length
      modifies sck, data, this`calls
      ensures size >= 0x1_0000 || state != Connected ==>
                r == -1 && sck.wire == old(sck.wire) && data[..] == old(data[..])
      ensures size < 0x1_0000 && state == Connected ==>
                if r < 0 then r == -1 && calls > old(calls) && fails(calls - 1)
                else took == Planned(FrameParts(old(data[..size]), rsv, opcode, key), sck.plan, old(sck.writes))
      ensures size < 0x1_0000 && state == Connected ==>
                var parts := FrameParts(old(data[..size]), rsv, opcode, key);
                && parts.Covers(took) && sck.wire == old(sck.wire) + parts.Accepted(took)
                && took.payload == if r < 0 then 0 else r
      ensures r >= 0 ==> data[..size] == Masked(old(data[..size]), key)
      ensures data[..size] == old(data[..size]) || data[..size] == Masked(old(data[..size]), key)
      ensures data[size..] == old(data[size..])
    {
      hide Masked, ShortBe;
      r, took := -1, Took(0, 0, 0, 0);
      if size > 0xFFFF {
        return;
      }
      if state != Connected {
        return;
      }
      ghost var wire := sck.wire;
      ghost var parts := FrameParts(data[..size], rsv, opcode, key);
      var hdr := FrameHeader(size, rsv, opcode);
      ghost var n, m, i, j := 0, 0, 0, 0;
      r, n := BackendWrite(hdr.Octets());
      took := Took(n, 0, 0, 0);
      if r < 0 {
        parts.CutShort(wire, n, 0);
        return;
      }
      if hdr.payloadLength == SIXTEEN_BIT_INDICATOR {
        r, m := BackendWrite(ShortBe(size));
        took := Took(n, m, 0, 0);
        if r < 0 {
          parts.CutShort(wire, n, m);
          return;
        }
      }
      assert sck.wire == wire + parts.header[..n] + parts.length[..m];
      r, i, j := WriteKeyAndPayload(data, size, key);
      took := Took(n, m, i, j);
      parts.InOrder(wire, took);
    }

    /** The data goes out masked and is unmasked again. */
    method WriteMasked(data: array<byte>, size: nat, key: MaskingKey) returns (ghost m: nat)
      requires size <= data.Length
      modifies sck, data, this`calls
      ensures calls == old(calls) + 1
      ensures data[..] == old(data[..]) && m <= size
      ensures !fails(old(calls)) ==> m == Least(size, sck.plan(old(sck.writes)))
      ensures sck.wire == old(sck.wire) + Masked(old(data[..size]), key)[..m]
    {
      hide Masked;
      ghost var payload, tail := data[..size], data[size..];
      assert data[..] == payload + tail;
      MaskData(key, data, size);
      var k;
      k, m := BackendWrite(data[..size]);
      MaskData(key, data, size);
      MaskTwice(payload, key);
      assert data[..] == data[..size] + data[size..];
    }

    /**
     * pico_websocket_client_send_pong, given the header of the ping and its payload. The
     * payload is handed back as it was, whatever the socket does.
     */
    method SendPong(hdr: Header, data: array<byte>, size: nat, key: MaskingKey) returns (ghost took: Took)
      requires size <= data.Length && hdr.Fits()
      modifies sck, data, this`calls
      ensures data[..] == old(data[..])
      ensures (forall i :: old(calls) <= i < calls ==> !fails(i)) ==>
                took == Planned(PongParts(hdr, old(data[..size]), key), sck.plan, old(sck.writes))
      ensures var parts := PongParts(hdr, old(data[..size]), key);
        parts.Covers(took) && sck.wire == old(sck.wire) + parts.Accepted(took)
    {
      hide Masked;
      ghost var wire, parts := sck.wire, PongParts(hdr, data[..size], key);
      ghost var i, j, m := 0, 0, 0;
      var k;
      k, i := BackendWrite(PongHeader(hdr).Octets());
      k, j := BackendWrite(key);
      if size > 0 {
        m := WriteMasked(data, size, key);
      }
      took := Took(i, 0, j, m);
      parts.InOrder(wire, took);
    }
  }
}
