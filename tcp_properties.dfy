/**
 * Properties of the passive-open step that relate several calls or all
 * inputs at once: which connections `accept` can create, and that the
 * connection and the SYN-ACK it produces determine the SYN they answer.
 */
module TcpProperties {
  import opened Rust
  import opened Tcp

  /**
   * The shape of a connection just opened by a SYN, stated field by field:
   * in `SynRcvd`, the send space at the fixed initial values, the receive
   * space one past the peer's initial sequence number, and `irs` small
   * enough that both `irs + 1` and `irs + 2` fit in a `u32`.
   */
  ghost predicate FreshlyOpened(c: Connection) {
    && c.state == SynRcvd
    && c.send.iss == 0
    && c.send.una == c.send.iss
    && c.send.nxt == c.send.iss + 1
    && c.send.wnd == 10
    && !c.send.up
    && c.send.wl1 == 0
    && c.send.wl2 == 0
    && c.recv.nxt == c.recv.irs + 1
    && !c.recv.up
    && c.recv.irs < U32_LIMIT - 2
  }

  /** Some incoming segment makes `accept` open exactly the connection `c`. */
  ghost predicate OpenedBySomeSegment(c: Connection) {
    exists ip: Ipv4Packet, tcp: TcpSegment, data: seq<u8>, len: nat ::
      Accept(ip, tcp, data, len).Opened? && Accept(ip, tcp, data, len).conn == c
  }

  /**
   * `accept` creates exactly the freshly opened connections: every connection
   * it returns has that shape, and every connection of that shape is what
   * `accept` returns for the SYN carrying sequence number `irs` and window
   * `recv.wnd`.
   */
  lemma AcceptOpensExactly(c: Connection)
    ensures OpenedBySomeSegment(c) <==> FreshlyOpened(c)
  {
    if FreshlyOpened(c) {
      var ip := Ipv4Packet([0, 0, 0, 0], [0, 0, 0, 0]);
      var tcp := TcpSegment(0, 0, c.recv.irs, c.recv.wnd, true);
      var r := Accept(ip, tcp, [], 20);
      assert r.Opened? && r.conn == c;
    }
  }

  /**
   * The SYN answered by an opened connection, read back from what `accept`
   * returned: addresses and ports swapped back from the reply, sequence
   * number and window from the receive space.
   */
  function AnsweredSegment(o: AcceptOutcome): (Ipv4Packet, TcpSegment)
    requires o.Opened?
  {
    ( Ipv4Packet(source := o.ip.destination, destination := o.ip.source),
      TcpSegment(
        sourcePort := o.synAck.destinationPort,
        destinationPort := o.synAck.sourcePort,
        sequenceNumber := o.conn.recv.irs,
        windowSize := o.conn.recv.wnd,
        syn := true) )
  }

  /**
   * Round trip: the connection and the SYN-ACK that `accept` produces
   * determine the incoming packet and segment exactly, so the reply is
   * addressed back to the sender of the SYN it answers.
   */
  lemma AcceptRecoversSegment(ip: Ipv4Packet, tcp: TcpSegment, data: seq<u8>, len: nat)
    ensures Accept(ip, tcp, data, len).Opened? ==> AnsweredSegment(Accept(ip, tcp, data, len)) == (ip, tcp)
  {
  }
}
