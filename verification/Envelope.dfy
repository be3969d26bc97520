/** The wire envelope of `src/envelope.rs` and the subscriber loop of `src/pubsub.rs`. */
module Envelope {
  import opened ByteStrings
  import opened Options
  import Utf8

  const VERSION: Byte := 0x01
  const FLAG_NONE: Byte := 0x00
  const FLAG_RK: Byte := 0x01
  const MAX_RK_LEN: nat := 65535

  datatype EnvelopeError =
    | TooLong(length: nat)
    | Truncated(length: nat)
    | UnsupportedVersion(version: Byte)
    | UnknownFlag(flag: Byte)
    | LengthTruncated
    | BodyTruncated(expected: nat, actual: nat)
    | InvalidUtf8

  datatype Result<+T> = Ok(value: T) | Err(error: EnvelopeError)

  datatype Message = Message(routingKey: Option<Bytes>, payload: Bytes)

  /** A message a caller can publish: its routing key is a string, short enough. */
  predicate WellFormed(m: Message) {
    m.routingKey.Some? ==> Utf8.Valid(m.routingKey.value) && |m.routingKey.value| <= MAX_RK_LEN
  }

  function BigEndian(n: nat): Bytes
    requires n <= MAX_RK_LEN
  {
    [n / 256, n % 256]
  }

  function FromBigEndian(high: int, low: int): int {
    high * 256 + low
  }

  /** The format as documented. */
  function Wire(m: Message): Bytes
    requires m.routingKey.Some? ==> |m.routingKey.value| <= MAX_RK_LEN
  {
    [VERSION]
    + (match m.routingKey case None => [FLAG_NONE] case Some(rk) => [FLAG_RK] + BigEndian(|rk|) + rk)
    + m.payload
  }

  /** `encode`, appending to a buffer. */
  method Encode(m: Message) returns (r: Result<Bytes>)
    ensures r.Err? <==> m.routingKey.Some? && |m.routingKey.value| > MAX_RK_LEN
    ensures r.Err? ==> r.error == TooLong(|m.routingKey.value|)
    ensures r.Ok? ==> r.value == Wire(m)
  {
    var out: Bytes := [];
    out := out + [VERSION];
    match m.routingKey {
      case None =>
        out := out + [FLAG_NONE];
      case Some(rk) =>
        if |rk| > MAX_RK_LEN {
          return Err(TooLong(|rk|));
        }
        out := out + [FLAG_RK];
        out := out + BigEndian(|rk|);
        out := out + rk;
    }
    out := out + m.payload;
    return Ok(out);
  }

  /** `decode`. */
  function Decode(bytes: Bytes): Result<Message> {
    if |bytes| < 2 then Err(Truncated(|bytes|))
    else if bytes[0] != VERSION then Err(UnsupportedVersion(bytes[0]))
    else if bytes[1] == FLAG_NONE then Ok(Message(None, bytes[2..]))
    else if bytes[1] == FLAG_RK then
      if |bytes| < 4 then Err(LengthTruncated)
      else
        var len := FromBigEndian(bytes[2], bytes[3]);
        if |bytes| < 4 + len then Err(BodyTruncated(len, |bytes| - 4))
        else if !Utf8.Valid(bytes[4..4 + len]) then Err(InvalidUtf8)
        else Ok(Message(Some(bytes[4..4 + len]), bytes[4 + len..]))
    else Err(UnknownFlag(bytes[1]))
  }

  /** The layout, byte by byte: version 1, then 0 and the payload, or 1, the key's length in
      two bytes, the high one first, the key and the payload. */
  lemma WireLayout(m: Message)
    requires m.routingKey.Some? ==> |m.routingKey.value| <= MAX_RK_LEN
    ensures var w := Wire(m);
            && |w| >= 2 && w[0] == 0x01
            && (m.routingKey.None? ==> w[1] == 0x00 && w[2..] == m.payload)
            && (m.routingKey.Some? ==>
                  var rk := m.routingKey.value;
                  && |w| >= 4 + |rk| && w[1] == 0x01 && (w[2] as int) * 0x100 + w[3] == |rk|
                  && w[4..4 + |rk|] == rk && w[4 + |rk|..] == m.payload)
  {
  }

  /** What is wrong with a rejected byte string, in terms of its bytes alone: exactly one of
      the seven cases holds of any byte string, and the answer names it. */
  lemma DecodeNamesTheFault(bytes: Bytes)
    ensures var r := Decode(bytes); var n := |bytes|;
            && (r == Err(Truncated(n)) <==> n < 2)
            && (n >= 2 ==> (r == Err(UnsupportedVersion(bytes[0])) <==> bytes[0] != 1))
            && (n >= 2 && bytes[0] == 1 ==> (r == Err(UnknownFlag(bytes[1])) <==> bytes[1] > 1))
            && (n >= 2 && bytes[0] == 1 && bytes[1] == 0 ==> r == Ok(Message(None, bytes[2..])))
            && (n >= 2 && bytes[0] == 1 && bytes[1] == 1 ==> (r == Err(LengthTruncated) <==> n < 4))
    ensures |bytes| >= 4 && bytes[0] == 1 && bytes[1] == 1 ==>
              var r, len := Decode(bytes), (bytes[2] as int) * 0x100 + bytes[3]; var have := |bytes| - 4;
              && (r == Err(BodyTruncated(len, have)) <==> have < len)
              && (have >= len ==> (r == Err(InvalidUtf8) <==> !Utf8.Valid(bytes[4..4 + len])))
              && (r.Ok? <==> have >= len && Utf8.Valid(bytes[4..4 + len]))
  {
  }

  /** Decoding inverts encoding, for every routing key up to 65535 bytes and every payload. */
  lemma DecodeInvertsEncode(m: Message)
    requires WellFormed(m)
    ensures Decode(Wire(m)) == Ok(m)
  {
    var w := Wire(m);
    match m.routingKey {
      case None =>
        assert w[2..] == m.payload;
      case Some(rk) =>
        assert FromBigEndian(w[2], w[3]) == |rk|;
        assert w[4..4 + |rk|] == rk;
        assert w[4 + |rk|..] == m.payload;
    }
  }

  /** Every accepted byte string is the encoding of what it decodes to. */
  lemma EncodeInvertsDecode(bytes: Bytes)
    requires Decode(bytes).Ok?
    ensures WellFormed(Decode(bytes).value) && Wire(Decode(bytes).value) == bytes
  {
    if bytes[1] == FLAG_NONE {
      assert bytes == [VERSION] + [FLAG_NONE] + bytes[2..];
    } else {
      KeyedWire(bytes, FromBigEndian(bytes[2], bytes[3]));
    }
  }

  lemma KeyedWire(bytes: Bytes, len: nat)
    requires 4 + len <= |bytes| && bytes[0] == VERSION && bytes[1] == FLAG_RK
    requires len == FromBigEndian(bytes[2], bytes[3])
    ensures len <= MAX_RK_LEN
    ensures Wire(Message(Some(bytes[4..4 + len]), bytes[4 + len..])) == bytes
  {
    var rk, payload := bytes[4..4 + len], bytes[4 + len..];
    assert BigEndian(len) == [bytes[2], bytes[3]];
    assert bytes[..4] == [VERSION] + ([FLAG_RK] + BigEndian(len));
    assert bytes == bytes[..4] + rk + payload;
    assert [VERSION] + ([FLAG_RK] + BigEndian(len) + rk) + payload ==
        [VERSION] + ([FLAG_RK] + BigEndian(len)) + rk + payload;
  }

  /** So the decoder accepts exactly the encodings, and no two messages share one. */
  lemma WireIsBijection(bytes: Bytes)
    ensures Decode(bytes).Ok? <==> exists m :: WellFormed(m) && Wire(m) == bytes
    ensures forall m :: WellFormed(m) && Wire(m) == bytes ==> Decode(bytes) == Ok(m)
  {
    if Decode(bytes).Ok? {
      EncodeInvertsDecode(bytes);
    }
    forall m | WellFormed(m) && Wire(m) == bytes
      ensures Decode(bytes) == Ok(m)
    {
      DecodeInvertsEncode(m);
    }
  }

  // ---- The subscriber ----

  /** What the subscriber hands on. The node it names is the subscriber's own. */
  datatype Delivery = Delivery(topic: Key, message: Message, fromNode: Key)

  predicate Wanted(filter: Option<Bytes>, m: Message) {
    filter.Some? ==> m.routingKey == filter
  }

  /** What one received byte string makes the subscriber deliver. */
  function DeliveredOf(topic: Key, node: Key, bytes: Bytes, filter: Option<Bytes>): seq<Delivery> {
    var d := Decode(bytes);
    if d.Ok? && Wanted(filter, d.value) then [Delivery(topic, d.value, node)] else []
  }

  function Delivered(topic: Key, node: Key, stream: seq<Bytes>, filter: Option<Bytes>): seq<Delivery> {
    if stream == [] then []
    else DeliveredOf(topic, node, stream[0], filter) + Delivered(topic, node, stream[1..], filter)
  }

  lemma {:induction false} DeliveredAppend(topic: Key, node: Key, a: seq<Bytes>, bytes: Bytes, filter: Option<Bytes>)
    ensures Delivered(topic, node, a + [bytes], filter) ==
            Delivered(topic, node, a, filter) + DeliveredOf(topic, node, bytes, filter)
    decreases |a|
  {
    if a == [] {
      assert (a + [bytes])[1..] == [];
      assert Delivered(topic, node, [], filter) == [];
    } else {
      assert (a + [bytes])[1..] == a[1..] + [bytes];
      DeliveredAppend(topic, node, a[1..], bytes, filter);
      Regroup(DeliveredOf(topic, node, a[0], filter), Delivered(topic, node, a[1..], filter),
              DeliveredOf(topic, node, bytes, filter));
    }
  }

  lemma Regroup(a: seq<Delivery>, b: seq<Delivery>, c: seq<Delivery>)
    ensures a + (b + c) == (a + b) + c
  {
  }

  /** The decode, filter and forward loop over one connection's messages, while the receiver
      stays. */
  method Subscribe(topic: Key, node: Key, stream: seq<Bytes>, filter: Option<Bytes>) returns (out: seq<Delivery>)
    ensures out == Delivered(topic, node, stream, filter)
  {
    out := [];
    for i := 0 to |stream|
      invariant out == Delivered(topic, node, stream[..i], filter)
    {
      assert stream[..i + 1] == stream[..i] + [stream[i]];
      DeliveredAppend(topic, node, stream[..i], stream[i], filter);
      var d := Decode(stream[i]);
      if d.Err? {
        continue;
      }
      if filter.Some? && d.value.routingKey != Some(filter.value) {
        continue;
      }
      out := out + [Delivery(topic, d.value, node)];
    }
    assert stream[..|stream|] == stream;
  }

  /** What appears on a channel: messages published through `encode`, and foreign bytes. */
  datatype Sent = Published(m: Message) | Foreign

  /** The bytes the channel carries for it. */
  ghost predicate Carries(bytes: Bytes, s: Sent) {
    match s
    case Published(m) => WellFormed(m) && bytes == Wire(m)
    case Foreign => forall m :: WellFormed(m) ==> Wire(m) != bytes
  }

  /** The published messages that match the filter, in order. */
  function Matching(topic: Key, node: Key, sent: seq<Sent>, filter: Option<Bytes>): seq<Delivery> {
    if sent == [] then []
    else
      (if sent[0].Published? && (filter.None? || sent[0].m.routingKey == filter)
       then [Delivery(topic, sent[0].m, node)] else [])
      + Matching(topic, node, sent[1..], filter)
  }

  /** Filtered delivery: over one connection a subscriber gets exactly the published messages
      matching its filter, in order and unchanged, whatever foreign bytes come between. */
  lemma {:induction false} FilteredDelivery(topic: Key, node: Key, sent: seq<Sent>, wire: seq<Bytes>,
                                            filter: Option<Bytes>)
    requires |wire| == |sent| && forall i :: 0 <= i < |sent| ==> Carries(wire[i], sent[i])
    ensures Delivered(topic, node, wire, filter) == Matching(topic, node, sent, filter)
    decreases |sent|
  {
    if sent != [] {
      assert Carries(wire[0], sent[0]);
      WireIsBijection(wire[0]);
      FilteredDelivery(topic, node, sent[1..], wire[1..], filter);
    }
  }
}
