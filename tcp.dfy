/**
 * The per-connection TCP state of the user-space stack and its passive-open
 * step: a SYN that arrives for a new flow creates a `Connection` in
 * `SynRcvd` and produces the description of the SYN-ACK reply (TCP header
 * fields and the enclosing IPv4 header fields).
 *
 * The model follows the code as written, including where it departs from
 * RFC 793: the reply acknowledges `recv.nxt + 1`, its ACK flag is never
 * set, the initial send sequence number is the constant 0, and the peer's
 * advertised window is stored in `recv.wnd`.
 */
module Tcp {
  import opened Rust

  /** Lifecycle states; `accept` only ever produces `SynRcvd`. */
  datatype State = Closed | Listen | SynRcvd

  /**
   * Send sequence space (RFC 793, section 3.2, figure 4): `una` is the
   * oldest unacknowledged number, `nxt` the next one to send, `iss` the
   * initial send sequence number. `wl1` and `wl2` are `usize` fields.
   */
  datatype SendSequenceSpace = SendSequenceSpace(
    una: u32,
    nxt: u32,
    wnd: u16,
    up: bool,
    wl1: nat,
    wl2: nat,
    iss: u32)

  /**
   * Receive sequence space (RFC 793, section 3.2, figure 5): `nxt` is the
   * next number expected from the peer, `irs` the peer's initial sequence
   * number.
   */
  datatype RecvSequenceSpace = RecvSequenceSpace(
    nxt: u32,
    wnd: u16,
    up: bool,
    irs: u32)

  datatype Connection = Connection(
    state: State,
    send: SendSequenceSpace,
    recv: RecvSequenceSpace)

  /** An IPv4 address as its four octets, most significant first. */
  type Ipv4Addr = s: seq<u8> | |s| == 4 witness [0, 0, 0, 0]

  /** The fields of an incoming IPv4 header that the connection code reads. */
  datatype Ipv4Packet = Ipv4Packet(source: Ipv4Addr, destination: Ipv4Addr)

  /** The fields of an incoming TCP header that the connection code reads. */
  datatype TcpSegment = TcpSegment(
    sourcePort: u16,
    destinationPort: u16,
    sequenceNumber: u32,
    windowSize: u16,
    syn: bool)

  /** The fields of an outgoing TCP header that the connection code sets. */
  datatype TcpReply = TcpReply(
    sourcePort: u16,
    destinationPort: u16,
    sequenceNumber: u32,
    acknowledgmentNumber: u32,
    windowSize: u16,
    syn: bool,
    ack: bool)

  /** The fields of the outgoing IPv4 header that the connection code sets. */
  datatype Ipv4Reply = Ipv4Reply(
    payloadLen: u16,
    timeToLive: u8,
    protocol: u8,
    source: Ipv4Addr,
    destination: Ipv4Addr)

  /** Which `u32` addition in `accept` overflowed (a panic in a debug build). */
  datatype OverflowSite = RecvNext | SynAckAcknowledgment

  /**
   * What `accept` does with one incoming segment: drop it (`Ok(None)`),
   * open a connection and describe the SYN-ACK to send, or panic on an
   * arithmetic overflow.
   */
  datatype AcceptOutcome =
    | NoConnection
    | Opened(conn: Connection, synAck: TcpReply, ip: Ipv4Reply)
    | OverflowPanic(site: OverflowSite)

  /**
   * The `io::Result<()>` of `on_packet`: `IoErr` stands for an `io::Error`,
   * which could only come from frame I/O; the stub always returns `Ok(())`.
   */
  datatype IoResult = IoOk | IoErr

  const ISS: u32 := 0
  const INITIAL_SEND_WINDOW: u16 := 10
  const REPLY_TTL: u8 := 64
  const IP_PROTOCOL_TCP: u8 := 6

  /**
   * The send space of a new connection: nothing acknowledged yet
   * (`una == iss`) and the SYN occupying exactly one sequence number
   * (`nxt == iss + 1`); `iss + 1` cannot overflow since `iss` is 0.
   */
  function InitialSend(): (s: SendSequenceSpace)
    ensures s.iss == 0 && s.una == s.iss && s.nxt == s.iss + 1
    ensures s.una < s.nxt && s.nxt - s.una == 1
    ensures s.wnd == 10 && !s.up && s.wl1 == 0 && s.wl2 == 0
  {
    var iss := ISS;
    SendSequenceSpace(
      una := iss,
      nxt := iss + 1,
      wnd := INITIAL_SEND_WINDOW,
      up := false,
      wl1 := 0,
      wl2 := 0,
      iss := iss)
  }

  /**
   * The receive space learned from the peer's SYN: its sequence number is
   * the peer's initial sequence number and the next expected number is one
   * past it; the segment's window is kept as `wnd`. `None` when
   * `sequence_number() + 1` overflows.
   */
  function InitialRecv(tcp: TcpSegment): (r: Option<RecvSequenceSpace>)
    ensures r.None? <==> tcp.sequenceNumber == U32_LIMIT - 1
    ensures r.Some? ==>
      && r.value.irs == tcp.sequenceNumber
      && r.value.nxt == tcp.sequenceNumber + 1
      && r.value.wnd == tcp.windowSize
      && !r.value.up
  {
    match CheckedAdd(tcp.sequenceNumber, 1)
    case None => None
    case Some(nxt) =>
      Some(RecvSequenceSpace(nxt := nxt, wnd := tcp.windowSize, up := false, irs := tcp.sequenceNumber))
  }

  /**
   * The modelled fields as etherparse's `TcpHeader::new(source,
   * destination, sequence, window)` leaves them: the acknowledgment number
   * starts at 0 and the SYN and ACK flags start cleared.
   */
  function NewTcpHeader(sourcePort: u16, destinationPort: u16, sequenceNumber: u32, window: u16): TcpReply {
    TcpReply(sourcePort, destinationPort, sequenceNumber, 0, window, false, false)
  }

  /**
   * The SYN-ACK header for connection `c` answering segment `tcp`: the
   * ports are swapped, the sequence number is `iss`, the window is the send
   * window, the acknowledgment number is `recv.nxt + 1`, SYN is set and
   * ACK is left cleared. `None` when `recv.nxt + 1` overflows.
   */
  function SynAck(c: Connection, tcp: TcpSegment): (r: Option<TcpReply>)
    ensures r.None? <==> c.recv.nxt == U32_LIMIT - 1
    ensures r.Some? ==>
      && r.value.sourcePort == tcp.destinationPort
      && r.value.destinationPort == tcp.sourcePort
      && r.value.sequenceNumber == c.send.iss
      && r.value.windowSize == c.send.wnd
      && r.value.acknowledgmentNumber == c.recv.nxt + 1
      && r.value.syn
      && !r.value.ack
  {
    var header := NewTcpHeader(tcp.destinationPort, tcp.sourcePort, c.send.iss, c.send.wnd);
    match CheckedAdd(c.recv.nxt, 1)
    case None => None
    case Some(ackNo) => Some(header.(acknowledgmentNumber := ackNo, syn := true))
  }

  /**
   * The IPv4 header of the reply: the addresses of the incoming packet
   * swapped, octet by octet; TTL 64; protocol TCP (6); payload length the
   * TCP header length cast to `u16`.
   */
  function ReplyEnvelope(ip: Ipv4Packet, tcpHeaderLen: nat): (r: Ipv4Reply)
    ensures r.source == ip.destination && r.destination == ip.source
    ensures r.timeToLive == 64 && r.protocol == 6
    ensures r.payloadLen == AsU16(tcpHeaderLen)
    ensures tcpHeaderLen < U16_LIMIT ==> r.payloadLen == tcpHeaderLen
  {
    var d, s := ip.destination, ip.source;
    Ipv4Reply(
      payloadLen := AsU16(tcpHeaderLen),
      timeToLive := REPLY_TTL,
      protocol := IP_PROTOCOL_TCP,
      source := [d[0], d[1], d[2], d[3]],
      destination := [s[0], s[1], s[2], s[3]])
  }

  /**
   * `Connection::accept` without its I/O. `data` (the payload) is ignored, as
   * in the code; `tcpHeaderLen` stands for `syn_ack.header_len()`.
   */
  function Accept(ip: Ipv4Packet, tcp: TcpSegment, data: seq<u8>, tcpHeaderLen: nat): (r: AcceptOutcome)
    ensures r.NoConnection? <==> !tcp.syn
    ensures r.OverflowPanic? <==> tcp.syn && tcp.sequenceNumber >= U32_LIMIT - 2
    ensures r.OverflowPanic? ==>
      r.site == if tcp.sequenceNumber == U32_LIMIT - 1 then RecvNext else SynAckAcknowledgment
    // the new connection
    ensures r.Opened? ==>
      && r.conn.state == SynRcvd
      && r.conn.send == InitialSend()
      && r.conn.recv.irs == tcp.sequenceNumber
      && r.conn.recv.nxt == tcp.sequenceNumber + 1
      && r.conn.recv.wnd == tcp.windowSize
      && !r.conn.recv.up
    // the SYN-ACK header
    ensures r.Opened? ==>
      && r.synAck.sourcePort == tcp.destinationPort
      && r.synAck.destinationPort == tcp.sourcePort
      && r.synAck.sequenceNumber == r.conn.send.iss
      && r.synAck.windowSize == r.conn.send.wnd
      && r.synAck.acknowledgmentNumber == r.conn.recv.nxt + 1 == tcp.sequenceNumber + 2
      && r.synAck.syn
      && !r.synAck.ack
    // the IPv4 header around it
    ensures r.Opened? ==>
      && r.ip.source == ip.destination
      && r.ip.destination == ip.source
      && r.ip.timeToLive == 64
      && r.ip.protocol == 6
      && r.ip.payloadLen == AsU16(tcpHeaderLen)
      && (tcpHeaderLen < U16_LIMIT ==> r.ip.payloadLen == tcpHeaderLen)
  {
    if !tcp.syn then
      NoConnection
    else
      match InitialRecv(tcp)
      case None => OverflowPanic(RecvNext)
      case Some(recv) =>
        var c := Connection(state := SynRcvd, send := InitialSend(), recv := recv);
        match SynAck(c, tcp)
        case None => OverflowPanic(SynAckAcknowledgment)
        case Some(synAck) => Opened(c, synAck, ReplyEnvelope(ip, tcpHeaderLen))
  }

  /**
   * A TCP header under construction, mirroring the code that creates the
   * SYN-ACK header and then assigns its fields one by one.
   */
  class TcpHeader {
    var sourcePort: u16
    var destinationPort: u16
    var sequenceNumber: u32
    var acknowledgmentNumber: u32
    var windowSize: u16
    var syn: bool
    var ack: bool

    /** `TcpHeader::new(source_port, destination_port, seq, window)`. */
    constructor (src: u16, dst: u16, seqNo: u32, window: u16)
      ensures Fields() == NewTcpHeader(src, dst, seqNo, window)
    {
      sourcePort, destinationPort, sequenceNumber, windowSize := src, dst, seqNo, window;
      acknowledgmentNumber, syn, ack := 0, false, false;
    }

    /** The current field values. */
    function Fields(): TcpReply
      reads this
    {
      TcpReply(sourcePort, destinationPort, sequenceNumber, acknowledgmentNumber, windowSize, syn, ack)
    }
  }

  /**
   * Builds the SYN-ACK header for `c` in place: create it, set the
   * acknowledgment number, then set SYN (twice, as the code does; the ACK
   * flag is never assigned). `None` where `recv.nxt + 1` panics.
   */
  method BuildSynAck(c: Connection, tcp: TcpSegment) returns (r: Option<TcpHeader>)
    ensures r.None? <==> SynAck(c, tcp).None?
    ensures r.Some? ==> fresh(r.value) && r.value.Fields() == SynAck(c, tcp).value
  {
    var header := new TcpHeader(tcp.destinationPort, tcp.sourcePort, c.send.iss, c.send.wnd);
    var ackNo := CheckedAdd(c.recv.nxt, 1);
    if ackNo.None? {
      return None;
    }
    header.acknowledgmentNumber := ackNo.value;
    header.syn := true;
    header.syn := true;
    return Some(header);
  }

  /**
   * `Connection::on_packet`: a stub. The connection `c` it is given (the
   * `&mut self`) comes back unchanged in every field and the result is
   * `Ok(())`, whatever segment arrives.
   */
  method OnPacket(c: Connection, ip: Ipv4Packet, tcp: TcpSegment, data: seq<u8>)
    returns (next: Connection, r: IoResult)
    ensures next == c
    ensures r == IoOk
  {
    next, r := c, IoOk;
  }
}
