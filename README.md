# Passive open of a user-space TCP connection

This project models the connection core of a small user-space TCP stack,
`src/tcp.rs`, in Dafny, and proves properties of it. The stack reads raw IPv4/TCP frames from a
TUN device. When a SYN arrives for a new flow, `Connection::accept` creates a
connection and sends back a SYN-ACK.

The model covers:

- the lifecycle `State` (`Closed`, `Listen`, `SynRcvd`; no `Estab`, which the code has
  commented out);
- the send and receive sequence spaces of RFC 793, section 3.2 (figures 4 and 5);
- the `Connection` record holding the state and both spaces;
- `accept`, as a total function from the incoming header fields to one of three outcomes:
  - no connection (a segment without SYN);
  - a new connection plus the SYN-ACK's TCP and IPv4 header fields;
  - an overflow panic;
- the field-by-field construction of the SYN-ACK header, as a class with a method;
- `on_packet`, a stub that changes nothing and returns `Ok(())`.

Files:

- `rust.dfy` (module `Rust`): `u8`/`u16`/`u32` as ranges of `int`, `Option`, and two
  operations. `CheckedAdd` is the debug-build `+` on `u32`. `AsU16` is the truncating
  `as u16` cast.
- `tcp.dfy` (module `Tcp`): the data model, `Accept` and its parts, `TcpHeader` /
  `BuildSynAck`, and `OnPacket`.
- `tcp_properties.dfy` (module `TcpProperties`): lemmas that quantify over all inputs.

## Where the code differs from RFC 793

The model follows the code as written. It differs from the RFC in these ways:

- The reply's acknowledgment number is `recv.nxt + 1`, which is the peer's sequence
  number plus 2. RFC 793 acknowledges `RCV.NXT`, which is the peer's sequence number plus 1.
- The reply's ACK flag is never set. The code assigns `syn` twice.
- The initial send sequence number is the constant 0.
- The window from the peer's SYN is stored in `recv.wnd`, not `send.wnd`.
- `send.wnd` is the constant 10. The reply advertises that value.

`Accept`'s contract states each of these as proved facts.

**Arithmetic.** `tcph.sequence_number() + 1` and `c.recv.nxt + 1` are plain `u32`
additions. The model uses debug-build semantics, where an overflowing addition panics.
`Accept` returns `OverflowPanic(RecvNext)` when the sequence number is `0xFFFF_FFFF`. It
returns `OverflowPanic(SynAckAcknowledgment)` when the sequence number is `0xFFFF_FFFE`.
Callers face no precondition on the sequence number. `iss + 1` cannot overflow because
`iss` is 0.

**Parameters that stand for unseen code.** The model takes two inputs that stand for
etherparse code:

- `tcpHeaderLen` stands for `syn_ack.header_len()`. The model takes it as an opaque
  natural number and applies the `as u16` cast to it.
- `NewTcpHeader` gives the fields that `TcpHeader::new` sets from its arguments. The
  acknowledgment number and the SYN and ACK flags are taken to start at zero/false.
  The header's other fields are not represented: the FIN, RST, PSH and URG flags,
  the data offset, the urgent pointer and the options. etherparse is not part of
  this model.

## Model

| member | source | states |
|---|---|---|
| `Rust.CheckedAdd` | src/tcp.rs:102 | A debug-build `u32` `+` panics exactly when the release-build wrapping sum `(a + b) mod 2^32` would fall below `a`. When it does not panic, it yields that wrapping sum. |
| `Rust.AsU16` | src/tcp.rs:126 | `as u16` agrees with its argument modulo 2^16. It is the identity on values below 2^16. |
| `Tcp.InitialSend` | src/tcp.rs:87-99 | The new send space has `iss = 0`, `una = iss` and `nxt = iss + 1`, so `una < nxt` and `nxt - una = 1`. It also has `wnd = 10`, `up = false` and `wl1 = wl2 = 0`. |
| `Tcp.InitialRecv` | src/tcp.rs:100-105 | The receive space has `irs` equal to the SYN's sequence number S, `nxt = S + 1`, `wnd` equal to the segment's window, and `up = false`. Its construction panics exactly when S = 2^32 - 1. |
| `Tcp.SynAck` | src/tcp.rs:113-123 | The SYN-ACK header swaps the incoming ports. Its sequence number is `send.iss`, its window is `send.wnd` and its acknowledgment number is `recv.nxt + 1`. SYN is set, ACK is not. It panics exactly when `recv.nxt = 2^32 - 1`. |
| `Tcp.ReplyEnvelope` | src/tcp.rs:125-141 | The reply's IPv4 source is the incoming destination and its destination is the incoming source, all four octets in order. TTL is 64 and protocol is 6 (TCP). Payload length is the TCP header length cast to `u16` for every length, so it equals the length whenever that fits in 16 bits. |
| `Tcp.Accept` | src/tcp.rs:75-156 | No connection exactly when SYN is clear. A panic exactly when a SYN's S is at least 2^32 - 2, with the overflow site identified. Otherwise a connection in `SynRcvd` with the fixed send space and `irs = S`, `nxt = S + 1`, `wnd = W`. The reply has swapped ports and addresses, `seq = iss`, `window = send.wnd`, `ack = recv.nxt + 1 = S + 2`, SYN set, ACK clear, TTL 64 and protocol TCP. |
| `Tcp.TcpHeader.constructor` | src/tcp.rs:113-118 | A new header holds the given ports, sequence number and window. Its acknowledgment number is 0 and its flags are clear. |
| `Tcp.BuildSynAck` | src/tcp.rs:113-123 | Creating the header and then assigning the acknowledgment number and SYN (twice) gives a fresh header whose fields are exactly `SynAck`'s. It panics in the same case. |
| `Tcp.OnPacket` | src/tcp.rs:158-166 | `on_packet` leaves `state`, `send` and `recv` unchanged for every segment and returns `Ok(())`. |
| `TcpProperties.AcceptOpensExactly` | src/tcp.rs:87-106 | A connection is produced by `accept` for some segment if and only if it has the freshly-opened shape: `SynRcvd`, the fixed send space, `recv.nxt = irs + 1`, `up` clear and `irs < 2^32 - 2`. |
| `TcpProperties.AcceptRecoversSegment` | src/tcp.rs:113-141 | Round trip: the opened connection and its SYN-ACK determine the incoming addresses, ports, sequence number and window. The reply therefore goes back to the SYN's sender. |

## Left out

- Frame I/O: `nic.send` and the `tun_tap::Iface` parameters. They are raw device I/O, so the `io::Error` that `accept` can return from `nic.send` is not modelled either.
- Serialisation of the IPv4 and TCP headers into the 1500-byte buffer, and `header_len()`. These are byte layout done by etherparse. The header length is an input.
- `Ipv4Header::new`'s error and the `.expect` panic on it. This is an etherparse error condition whose rules are not part of this model.
- The buffer slice `&buf[..unwritten]`, which passes the unwritten remainder rather than the written bytes. It belongs to the byte-level send path.
- The checksum. The code leaves it to the kernel, and its own checksum computation is commented out.
- Release-build wrap-around of the two `+ 1` additions. The model follows debug builds, where they panic.
- Behaviour the code does not have: an `Estab` state, wrap-aware sequence comparisons, acknowledgment and window-update checks, SYN retransmission, RST handling, and a connection table keyed by the 4-tuple. No member asserts any of these.
