/** Properties relating the codec, the callbacks and the sender: the
    framing is never read, counters survive a render/decode round trip,
    and a served reply carries the successor of the counter it answers. */
module Properties {
  import opened Types
  import opened Strconv
  import opened Packet
  import opened Hook

  /** The payload of `h + p` is `p` whenever `h` is exactly one framing long. */
  lemma PayloadAfterHeader(h: seq<byte>, p: seq<byte>)
    requires |h| == HeaderLen
    ensures (h + p)[HeaderLen..] == p
  {
  }

  /** A message of exactly the framing's length passes the length check and
      then fails to parse its empty payload, although Go's error text for
      short messages speaks of "more than 24 bytes". */
  lemma ExactHeaderIsParseError(b: seq<byte>)
    requires |b| == HeaderLen
    ensures PacketNumber(b) == Err(Parse(ErrSyntax))
  {
    assert b[HeaderLen..] == [];
  }

  /** The outcome of decoding depends only on what follows the framing:
      swapping the framing for any other of the same length changes nothing. */
  lemma HeaderNeverRead(h1: seq<byte>, h2: seq<byte>, p: seq<byte>)
    requires |h1| == HeaderLen && |h2| == HeaderLen
    ensures PacketNumber(h1 + p) == PacketNumber(h2 + p)
  {
    PayloadAfterHeader(h1, p);
    PayloadAfterHeader(h2, p);
  }

  /** Every 64-bit unsigned value rendered in decimal after any framing
      decodes to that value read as a 64-bit int. */
  lemma DecodeDecimal(h: seq<byte>, u: uint64)
    requires |h| == HeaderLen
    ensures PacketNumber(h + Decimal(u)) == Ok(Int64OfUint64(u))
  {
    PayloadAfterHeader(h, Decimal(u));
  }

  /** Round trip of the wire format: the encoding of a non-negative counter,
      framed by any header, decodes to the same counter. */
  lemma DecodeItoa(h: seq<byte>, n: int64)
    requires |h| == HeaderLen && n >= 0
    ensures PacketNumber(h + Itoa(n)) == Ok(n)
  {
    DecodeDecimal(h, n);
  }

  /** The other direction: a decoded payload without superfluous leading
      zeros is exactly the encoding of the value it decodes to. */
  lemma EncodeDecoded(b: seq<byte>)
    requires PacketNumber(b).Ok? && PacketNumber(b).value >= 0
    requires Canonical(b[HeaderLen..])
    ensures b[HeaderLen..] == Itoa(PacketNumber(b).value)
  {
    DecimalOfDigitsValue(b[HeaderLen..]);
  }

  /** A negative counter (what Go's int conversion makes of values of 2^63
      and above) is rendered with a '-', which the peer's decoder rejects. */
  lemma DecodeNegativeItoa(h: seq<byte>, n: int64)
    requires |h| == HeaderLen && n < 0
    ensures PacketNumber(h + Itoa(n)) == Err(Parse(ErrSyntax))
  {
    PayloadAfterHeader(h, Itoa(n));
    ItoaParseUint64(n);
  }

  /** The largest 64-bit text decodes, through Go's int conversion, to -1. */
  lemma LargestCounterDecodesToMinusOne(h: seq<byte>)
    requires |h| == HeaderLen
    ensures PacketNumber(h + Decimal(MaxUint64)) == Ok(-1)
  {
    DecodeDecimal(h, MaxUint64);
  }

  /** A 16-byte address reduces to its last four bytes, whatever the first twelve are. */
  lemma Ip2IntMappedV4(prefix: seq<byte>, v4: seq<byte>)
    requires |prefix| == 12 && |v4| == 4
    ensures Ip2Int(prefix + v4) == Ip2Int(v4)
  {
    assert (prefix + v4)[12..16] == v4;
  }

  /** 10.0.0.1 is 0x0A000001, as four bytes and as the tail of sixteen. */
  lemma Ip2IntExample(prefix: seq<byte>)
    requires |prefix| == 12
    ensures Ip2Int([10, 0, 0, 1]) == 0x0A00_0001
    ensures Ip2Int(prefix + [10, 0, 0, 1]) == 0x0A00_0001
  {
    Ip2IntMappedV4(prefix, [10, 0, 0, 1]);
  }

  /** Ip2Int on four bytes and Uint32Bytes are inverse bijections. */
  lemma Ip2IntBijective(ip: seq<byte>, x: uint32)
    requires |ip| == 4
    ensures Uint32Bytes(Ip2Int(ip)) == ip
    ensures Ip2Int(Uint32Bytes(x)) == x
  {
    assert ip[..4] == ip;
    BigEndianOfUint32Bytes(x);
  }

  /** Serving a framed counter n below 2^63 - 1 sends exactly one reply, to
      the framing's address and port, carrying n + 1, which the peer decodes
      as n + 1 under any framing. */
  lemma ServeRepliesSuccessor(h: seq<byte>, h2: seq<byte>, n: int64)
    requires |h| == HeaderLen && |h2| == HeaderLen
    requires 0 <= n < TwoTo63 - 1
    ensures Serve(h + Itoa(n)) ==
      Reply(Handled, [SendCall(Ip2Int(h[SourceAddrStart..SourceAddrEnd]), SourcePort(h), MsgType, Itoa(n + 1))])
    ensures PacketNumber(h2 + Serve(h + Itoa(n)).calls[0].payload) == Ok(n + 1)
  {
    var b := h + Itoa(n);
    DecodeItoa(h, n);
    assert Int64Inc(n) == n + 1;
    assert b[SourceAddrStart..SourceAddrEnd] == h[SourceAddrStart..SourceAddrEnd];
    assert SourcePort(b) == SourcePort(h);
    assert Serve(b) == Reply(Handled, [SendCall(Ip2Int(b[SourceAddrStart..SourceAddrEnd]), SourcePort(b), MsgType, Itoa(n + 1))]);
    DecodeItoa(h2, n + 1);
  }

  /** Serving the largest int counter wraps it to the smallest, and the peer
      cannot decode the reply. */
  lemma ServeWrapsAtLargestInt(h: seq<byte>, h2: seq<byte>)
    requires |h| == HeaderLen && |h2| == HeaderLen
    ensures Serve(h + Itoa(TwoTo63 - 1)).calls[0].payload == Itoa(-TwoTo63)
    ensures HandleResponse(h2 + Itoa(-TwoTo63)) == Failed(Parse(ErrSyntax))
  {
    DecodeItoa(h, TwoTo63 - 1);
    DecodeNegativeItoa(h2, -TwoTo63);
  }

  /** A message that fails to decode is answered with its error and no send. */
  lemma ServeRejectsUndecodable(b: seq<byte>)
    requires |b| < HeaderLen || !ValidUint64Text(b[HeaderLen..])
    ensures Serve(b).result.Failed? && Serve(b).calls == []
    ensures HandleResponse(b).Failed?
  {
  }

  /** The worked reply: a message from 192.168.1.5, port 8080, carrying "41"
      is answered with "42" sent to 0xC0A80105:8080. */
  lemma ServeExample(h: seq<byte>)
    requires |h| == HeaderLen
    requires h[SourceAddrStart..SourceAddrEnd] == [192, 168, 1, 5]
    requires h[PortHigh] == 0x1F && h[PortLow] == 0x90
    ensures Serve(h + [52, 49]) == Reply(Handled, [SendCall(0xC0A8_0105, 8080, MsgType, [52, 50])])
  {
    assert Decimal(41) == [52, 49];
    assert Decimal(42) == [52, 50];
    ServeRepliesSuccessor(h, h, 41);
    BigEndianOfUint32Bytes(0xC0A8_0105);
    Ip2IntBijective(h[SourceAddrStart..SourceAddrEnd], 0xC0A8_0105);
  }
}
