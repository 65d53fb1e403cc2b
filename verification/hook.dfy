/** The hook callbacks and the periodic sender of main.go, with the transport's
    Send primitive represented by the list of calls made to it. */
module Hook {
  import opened Types
  import opened Strconv
  import opened Packet

  /** The message sub-type every hook message is registered and sent under. */
  const MsgType: nat := 99
  /** How many counters the periodic sender emits. */
  const SendRounds: nat := 1000

  /** One call of the transport's Send(ip, port, tag, payload). */
  datatype SendCall = SendCall(ip: uint32, port: uint16, tag: nat, payload: seq<byte>)

  /** What a hook callback returns to the transport: nil, or the decode error. */
  datatype HookResult = Handled | Failed(error: DecodeError)

  /** A callback's return value together with the Send calls it made, in order. */
  datatype Reply = Reply(result: HookResult, calls: seq<SendCall>)

  /** The callback `serve` registers: decode the counter, then send the
      incremented counter back to the address and port found in the framing.
      The slices b[12:16], b[20] and b[21] are in bounds because a decoded
      counter needs at least one byte after the framing. */
  function Serve(b: seq<byte>): (r: Reply)
    ensures PacketNumber(b).Err? ==> r == Reply(Failed(PacketNumber(b).error), [])
    ensures PacketNumber(b).Ok? ==>
      && r.result == Handled
      && |b| > PortLow
      && |r.calls| == 1
      && Uint32Bytes(r.calls[0].ip) == b[SourceAddrStart..SourceAddrEnd]
      && r.calls[0].port == 0x100 * (b[PortHigh] as int) + b[PortLow]
      && r.calls[0].tag == MsgType
      && r.calls[0].payload == Itoa(Int64Inc(PacketNumber(b).value))
  {
    match PacketNumber(b)
    case Err(e) => Reply(Failed(e), [])
    case Ok(num) =>
      var clientIP := Ip2Int(b[SourceAddrStart..SourceAddrEnd]);
      var port := SourcePort(b);
      Reply(Handled, [SendCall(clientIP, port, MsgType, Itoa(Int64Inc(num)))])
  }

  /** The callback `handleResponse` registers: decode the counter and report
      success or the decode error; it never sends. */
  function HandleResponse(b: seq<byte>): (r: HookResult)
    ensures r == Handled <==> |b| >= HeaderLen && ValidUint64Text(b[HeaderLen..])
    ensures r.Failed? ==> PacketNumber(b) == Err(r.error)
  {
    match PacketNumber(b)
    case Err(e) => Failed(e)
    case Ok(_) => Handled
  }

  /** `send` with its five-second sleep removed: `ticks` is how many sleeps
      complete before the process stops, so the loop makes at most that many
      of its 1000 calls. Call i carries the decimal text of i. */
  method Send(dest: seq<byte>, port: uint16, ticks: nat) returns (calls: seq<SendCall>)
    requires |dest| >= 4
    ensures |calls| == if ticks < SendRounds then ticks else SendRounds
    ensures forall i :: 0 <= i < |calls| ==>
      && calls[i].ip == Ip2Int(dest)
      && calls[i].port == port
      && calls[i].tag == MsgType
      && ParseUint64(calls[i].payload) == Ok(i)
      && Canonical(calls[i].payload)
  {
    var ip := Ip2Int(dest);
    calls := [];
    var i := 0;
    while i < SendRounds && i < ticks
      invariant i == |calls|
      invariant i <= SendRounds && i <= ticks
      invariant forall j :: 0 <= j < i ==>
        && calls[j].ip == ip
        && calls[j].port == port
        && calls[j].tag == MsgType
        && ParseUint64(calls[j].payload) == Ok(j)
        && Canonical(calls[j].payload)
    {
      var payload := Itoa(i);
      ItoaParseUint64(i);
      calls := calls + [SendCall(ip, port, MsgType, payload)];
      i := i + 1;
    }
  }
}
