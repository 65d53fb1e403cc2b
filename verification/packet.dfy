/** Reading a hook message: the counter after the transport's framing
    (packetNumber in main.go), the sender's address (ip2int) and port. */
module Packet {
  import opened Types
  import opened Strconv

  /** Bytes of transport framing in front of every hook payload; the counter starts after them. */
  const HeaderLen: nat := 24
  /** The sender's IPv4 address occupies [SourceAddrStart, SourceAddrEnd) of the framing. */
  const SourceAddrStart: nat := 12
  const SourceAddrEnd: nat := 16
  /** The sender's port, high byte first. */
  const PortHigh: nat := 20
  const PortLow: nat := 21

  /** Why packetNumber failed: the message is shorter than the framing (the
      length it had), or the text after the framing is not a 64-bit decimal. */
  datatype DecodeError = TooShort(got: nat) | Parse(cause: NumError)

  /** packetNumber: skip the framing, parse the rest with ParseUint(_, 10, 64),
      convert to a 64-bit int. The framing bytes themselves are never read. */
  function PacketNumber(b: seq<byte>): (r: Result<int64, DecodeError>)
    ensures |b| < HeaderLen ==> r == Err(TooShort(|b|))
    ensures |b| >= HeaderLen ==> (r.Ok? <==> ValidUint64Text(b[HeaderLen..]))
    ensures |b| >= HeaderLen && r.Err? ==> r.error == Parse(ParseUint64(b[HeaderLen..]).error)
    ensures r.Ok? ==> |b| > HeaderLen && r.value == Int64OfUint64(DigitsValue(b[HeaderLen..]))
  {
    if |b| < HeaderLen then Err(TooShort(|b|))
    else
      match ParseUint64(b[HeaderLen..])
      case Err(e) => Err(Parse(e))
      case Ok(num) => Ok(Int64OfUint64(num))
  }

  /** binary.BigEndian.Uint32: the first four bytes, most significant first.
      Go ors the bytes shifted into disjoint bit ranges, which is their weighted sum. */
  function BigEndianUint32(b: seq<byte>): (r: uint32)
    requires |b| >= 4
    ensures Uint32Bytes(r) == b[..4]
  {
    Uint32BytesOfBigEndian(b[0], b[1], b[2], b[3]);
    (b[0] as int) * 0x100_0000 + (b[1] as int) * 0x1_0000 + (b[2] as int) * 0x100 + b[3]
  }

  /** Dividing the weighted sum of four bytes recovers each byte. */
  lemma Uint32BytesOfBigEndian(b0: byte, b1: byte, b2: byte, b3: byte)
    ensures var x := (b0 as int) * 0x100_0000 + (b1 as int) * 0x1_0000 + (b2 as int) * 0x100 + b3;
      && x / 0x100_0000 == b0
      && x / 0x1_0000 % 0x100 == b1
      && x / 0x100 % 0x100 == b2
      && x % 0x100 == b3
  {
    var lo := (b2 as int) * 0x100 + b3;
    var mid := (b1 as int) * 0x1_0000 + lo;
    var x := (b0 as int) * 0x100_0000 + mid;
    DivUnique(x, 0x100_0000, b0, mid);
    DivUnique(x, 0x1_0000, (b0 as int) * 0x100 + b1, lo);
    DivUnique((b0 as int) * 0x100 + b1, 0x100, b0, b1);
    DivUnique(x, 0x100, (b0 as int) * 0x1_0000 + (b1 as int) * 0x100 + b2, b3);
    DivUnique((b0 as int) * 0x1_0000 + (b1 as int) * 0x100 + b2, 0x100, (b0 as int) * 0x100 + b1, b2);
    DivUnique(x, 0x100, (b0 as int) * 0x1_0000 + (b1 as int) * 0x100 + b2, b3);
  }

  /** Euclidean division is determined by quotient and remainder. */
  lemma DivUnique(x: int, d: int, q: int, r: int)
    requires d > 0 && 0 <= r < d && x == q * d + r
    ensures x / d == q && x % d == r
  {
    var q', r' := x / d, x % d;
    assert (q - q') * d == r' - r;
    if q > q' {
      MulAtLeast(q - q', d);
    } else if q < q' {
      MulAtLeast(q' - q, d);
    }
  }

  lemma MulAtLeast(k: int, d: int)
    requires k >= 1 && d > 0
    ensures k * d >= d
  {
  }

  /** The four bytes of a 32-bit value, most significant first. */
  function Uint32Bytes(x: uint32): (b: seq<byte>)
    ensures |b| == 4
  {
    [x / 0x100_0000, x / 0x1_0000 % 0x100, x / 0x100 % 0x100, x % 0x100]
  }

  /** Splitting a 32-bit value into bytes and reading them back gives the value. */
  lemma BigEndianOfUint32Bytes(x: uint32)
    ensures BigEndianUint32(Uint32Bytes(x)) == x
  {
  }

  /** ip2int: a 16-byte address contributes its last four bytes, any other
      address its first four; fewer than four bytes make Go panic. */
  function Ip2Int(ip: seq<byte>): (r: uint32)
    requires |ip| >= 4
    ensures |ip| == 16 ==> Uint32Bytes(r) == ip[12..16]
    ensures |ip| != 16 ==> Uint32Bytes(r) == ip[..4]
  {
    if |ip| == 16 then BigEndianUint32(ip[12..16]) else BigEndianUint32(ip)
  }

  /** `uint16(b[20])<<8 + uint16(b[21])`, written with Go's 16-bit wrap-around. */
  function SourcePort(b: seq<byte>): (p: uint16)
    requires |b| > PortLow
    ensures p == 0x100 * (b[PortHigh] as int) + b[PortLow]
    ensures p / 0x100 == b[PortHigh] && p % 0x100 == b[PortLow]
  {
    (((b[PortHigh] as int) * 0x100) % 0x1_0000 + b[PortLow]) % 0x1_0000
  }
}
