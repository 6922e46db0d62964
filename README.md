# CellularSocks protocol core in Dafny

CellularSocks is an Android SOCKS5 proxy that sends its clients' traffic out
through the cellular network. This project models and verifies the core of
that proxy, in five modules:

- `Bytes` (bytes.dfy) holds the shared vocabulary:
  - octets, as the unsigned value of a byte;
  - the JVM exceptions that escape the core, as `Res<T> = Ok | Raised(Fault)`;
  - ports as two big-endian bytes;
  - the way `InetAddress.getByAddress` normalises an IPv4-mapped IPv6 address.
- `Socks5Session` (socks5_session.dfy) models one client connection. It covers:
  - method negotiation (section 3 of RFC 1928);
  - the username/password sub-negotiation (section 2 of RFC 1929);
  - request parsing for IPv4, domain and IPv6 destinations (sections 4 and 5 of RFC 1928);
  - the replies (section 6 of RFC 1928);
  - dispatch to CONNECT, UDP ASSOCIATE or "command not supported".

  The client socket is the class `Conn`: a finite input read through a cursor (end of input reads as -1) and an output that replies are appended to. The specification functions `Greeting`, `UserPass`, `ParseRequest`, `Dispatch` and `Run` say what a session reads, writes, reports and returns. The class `Session` performs the same steps on a `Conn`, and each of its methods is proved to agree with the matching function.
- `UdpAssociate` (udp_associate.dfy) models the UDP relay. It covers:
  - the UDP request header of section 7 of RFC 1928, as a decoder and an encoder;
  - the classifier that tells a client's datagram from a remote host's reply;
  - the NAT table, held in the class `UdpRelay`: the NAT map, the last-activity map and their insertion order.

  A datagram updates the table through `Receive`. A GC pass (`Sweep`, whose loop is `Expire`) removes idle entries. `Stop` empties the table.
- `Socks5Server` (socks5_server.dfy) models the gate of the accept loop: the deny list, the allow list, temporary blocks and the session cap, checked in that order. It also models:
  - the one-minute sliding window of authentication failures that installs temporary blocks;
  - the statistics counters updated around every session.

  The class `Server` holds the counters and the two throttle maps.
- `IpAcl` (ip_acl.dfy) models the access-control matcher: exact text rules, and CIDR rules (prefix notation of section 3.1 of RFC 4632) compared byte by byte under a per-byte mask. `InCidr` keeps the loop of the original and is proved against the function `Scan`. `Scan` in turn is proved to decide whether the first `prefix` bits of two addresses agree, for every prefix from 0 up to the address length. The prefix is a 32-bit Int, and `bits -= 8` wraps around: a prefix from -2147483648 to -2147483641 ignores the first byte and then compares all the others in full (`IpAcl.WrappedPrefix`).

The outbound connect, the byte pump (`bridge`), the UDP relay starter, name resolution and the clock appear only as parameters of the model.

A note on the unit tests. Three of them compare the first four bytes of the whole session output with a request reply: 05 00 00 01 for the two CONNECT tests and 05 07 00 01 for BIND. In the code, the method reply 05 00 is written before the request reply. The request reply therefore starts at the third byte of the output. The model follows the code:
- `Socks5Session.ConnectExchange` states that the whole output is 05 00 followed by the success reply;
- `Socks5Session.BindExchange` states that the output is 05 00 followed by the REP 7 error reply.

## Model

Source paths are relative to the repository root.

| member | source | states |
|---|---|---|
| Bytes.LowByte | app/src/main/java/com/example/cellularsocks/core/Socks5Session.kt:112 | `toByte()` keeps exactly the value modulo 256 |
| Bytes.PortOf | app/src/main/java/com/example/cellularsocks/core/Socks5Session.kt:107 | two bytes read as an unsigned big-endian short always give a port in 0..65535 |
| Bytes.PortRoundTrip | app/src/main/java/com/example/cellularsocks/core/UdpAssociate.kt:109-120 | writing a port with `putShort(port.toShort())` and reading it back gives the port modulo 2^16 |
| Bytes.PortBytesOfPort | app/src/main/java/com/example/cellularsocks/core/UdpAssociate.kt:109-120 | reading two bytes as a port and writing that port again gives the same two bytes |
| Bytes.AddressOf | app/src/main/java/com/example/cellularsocks/core/Socks5Session.kt:102-104 | `getByAddress` succeeds iff the array has 4 or 16 bytes and raises UnknownHost otherwise; the address is the input itself iff the input is not IPv4-mapped |
| IpAcl.Split | app/src/main/java/com/example/cellularsocks/util/IpAcl.kt:16 | `split("/")` gives one more piece than there are separators, and no piece contains a separator |
| IpAcl.SplitAtSeparator | app/src/main/java/com/example/cellularsocks/util/IpAcl.kt:16-17 | a text with exactly one separator splits into exactly the text before it and the text after it |
| IpAcl.SplitWithoutSeparator | app/src/main/java/com/example/cellularsocks/util/IpAcl.kt:16 | a text without the separator is a single piece |
| IpAcl.SplitJoin | app/src/main/java/com/example/cellularsocks/util/IpAcl.kt:16 | joining the pieces of `split("/")` with '/' gives back the text that was split |
| IpAcl.ToIntOrNull | app/src/main/java/com/example/cellularsocks/util/IpAcl.kt:20 | `toIntOrNull` gives a value iff the text is an optional sign followed by at least one decimal digit (leading zeros and '+' allowed) whose value lies in the 32-bit Int range, and that value is the one the text denotes |
| IpAcl.ToIntOrNullDecimal | app/src/main/java/com/example/cellularsocks/util/IpAcl.kt:20 | the decimal text of every Int reads back as that Int: unsigned, after '+', or negative after '-' |
| IpAcl.Wrap32 | app/src/main/java/com/example/cellularsocks/util/IpAcl.kt:25 | Int arithmetic: the result lies in the 32-bit range, differs from the exact value by a multiple of 2^32, and equals it when it already fits |
| IpAcl.MaskTopBits | app/src/main/java/com/example/cellularsocks/util/IpAcl.kt:23 | the mask has bit j (from the top) set iff j < bits: 0xFF for bits ≥ 8, 0 for bits ≤ 0, the top `bits` bits otherwise |
| IpAcl.MaskedEqTopAgree | app/src/main/java/com/example/cellularsocks/util/IpAcl.kt:23-24 | two bytes compare equal under the mask for k bits iff their first k bits agree |
| IpAcl.AllBitsAgree | app/src/main/java/com/example/cellularsocks/util/IpAcl.kt:21-28 | all bits of two equally long addresses agree iff the addresses are equal |
| IpAcl.ScanAgrees | app/src/main/java/com/example/cellularsocks/util/IpAcl.kt:21-28 | from byte i on, the byte loop answers whether bits 8i up to the prefix (capped at the address length) agree |
| IpAcl.PrefixMatch | app/src/main/java/com/example/cellularsocks/util/IpAcl.kt:21-28 | for equally long addresses and 0 ≤ prefix ≤ 8·length, the loop answers true iff the first `prefix` bits of base and target agree |
| IpAcl.NonPositivePrefix | app/src/main/java/com/example/cellularsocks/util/IpAcl.kt:21-28 | a prefix from IntMin + 8 up to 0 matches every target that has a first byte to compare |
| IpAcl.WrappedPrefix | app/src/main/java/com/example/cellularsocks/util/IpAcl.kt:21-28 | a prefix from IntMin to IntMin + 7 ignores the first byte, and `bits -= 8` wraps to nearly IntMax, so the answer is whether all later bytes are equal |
| IpAcl.WrappedPrefixExample | app/src/main/java/com/example/cellularsocks/util/IpAcl.kt:6-8 | the rule 10.0.0.0/-2147483648 does not match 99.1.0.0 |
| IpAcl.FullPrefix | app/src/main/java/com/example/cellularsocks/util/IpAcl.kt:21-28 | a prefix of at least 8·length matches iff the target equals the base byte for byte |
| IpAcl.PrefixMonotone | app/src/main/java/com/example/cellularsocks/util/IpAcl.kt:21-28 | a match at prefix p implies a match at every prefix q ≤ p down to IntMin + 8 |
| IpAcl.ShortTargetRaises | app/src/main/java/com/example/cellularsocks/util/IpAcl.kt:22-24 | a target shorter than the base that agrees with it (an IPv4 client against an IPv6 rule) makes a long prefix index past the target's end and raise |
| IpAcl.InCidr | app/src/main/java/com/example/cellularsocks/util/IpAcl.kt:15-29 | `inCidr` returns or raises what `CidrTest` says: false unless the rule splits into two pieces and its prefix is an Int; UnknownHost when either address does not resolve; otherwise the byte loop's answer |
| IpAcl.ScanBytes | app/src/main/java/com/example/cellularsocks/util/IpAcl.kt:21-28 | the loop computes `Scan`, with `bits` counting down by eight as a 32-bit Int, an early false on a masked mismatch and a break once no bits remain |
| IpAcl.ScanStep | app/src/main/java/com/example/cellularsocks/util/IpAcl.kt:25-26 | after a masked agreement, the loop stops with true when the wrapped count of bits left is not positive, and otherwise goes on at the next byte with that count |
| IpAcl.ExactRule | app/src/main/java/com/example/cellularsocks/util/IpAcl.kt:6-8 | a rule without '/' matches exactly the identical address text and never raises |
| IpAcl.TooManySlashes | app/src/main/java/com/example/cellularsocks/util/IpAcl.kt:16-17 | a rule with two or more '/' never matches |
| IpAcl.CidrSteps | app/src/main/java/com/example/cellularsocks/util/IpAcl.kt:15-28 | a rule a/p with a single '/' whose two addresses resolve and whose p is an Int answers what the byte loop answers for that prefix |
| IpAcl.CidrRule | app/src/main/java/com/example/cellularsocks/util/IpAcl.kt:6-29 | a rule `a/p`, with p in decimal and equally long 4- or 16-byte addresses, matches iff the first p bits of the client and of a agree |
| IpAcl.AnyOfSome | app/src/main/java/com/example/cellularsocks/util/IpAcl.kt:12 | when no rule raises, `list.any` is true iff some rule matches |
| IpAcl.AnyOfTrue | app/src/main/java/com/example/cellularsocks/util/IpAcl.kt:12 | a true answer always comes from a rule that matches |
| IpAcl.AnyMatchIff | app/src/main/java/com/example/cellularsocks/util/IpAcl.kt:10-13 | `anyMatch` is false for a null or empty list and, when no rule raises, true iff some rule matches |
| Socks5Session.Returned | app/src/main/java/com/example/cellularsocks/core/Socks5Session.kt:58-81 | `handle` returns (0, 0) on every path except the bridge |
| Socks5Session.ByteAt | app/src/main/java/com/example/cellularsocks/core/Socks5Session.kt:29 | `read()` gives a byte value in 0..255, or -1 exactly at end of input |
| Socks5Session.Take | app/src/main/java/com/example/cellularsocks/core/Socks5Session.kt:103 | `readNBytes(n)` gives the next n bytes, or all that remain when fewer are left |
| Socks5Session.Fill | app/src/main/java/com/example/cellularsocks/core/Socks5Session.kt:30 | `ByteArray(n).also { read(it) }` always holds n bytes |
| Socks5Session.Conn.Read | app/src/main/java/com/example/cellularsocks/core/Socks5Session.kt:29 | reads one byte, or -1 at end of input without moving the cursor |
| Socks5Session.Conn.ReadInto | app/src/main/java/com/example/cellularsocks/core/Socks5Session.kt:97-98 | `read(buf)`: returns -1 at end of input and the count read otherwise; the buffer holds the available bytes then zeros |
| Socks5Session.Conn.ReadNBytes | app/src/main/java/com/example/cellularsocks/core/Socks5Session.kt:103 | `readNBytes` raises IllegalArgument on a negative count and otherwise consumes what it returns |
| Socks5Session.Conn.ReadField | app/src/main/java/com/example/cellularsocks/core/Socks5Session.kt:87-88 | reads a length byte and that many bytes, as `LengthPrefixed` says |
| Socks5Session.Conn.Write | app/src/main/java/com/example/cellularsocks/core/Socks5Session.kt:37 | appends the bytes to the output |
| Socks5Session.Conn.Close | app/src/main/java/com/example/cellularsocks/core/Socks5Session.kt:125 | the client socket is closed |
| Socks5Session.ErrorReply | app/src/main/java/com/example/cellularsocks/core/Socks5Session.kt:111-113 | the error reply is 10 bytes, carries its code at byte 1 and is zero everywhere except VER and ATYP |
| Socks5Session.ErrorReplyDecodes | app/src/main/java/com/example/cellularsocks/core/Socks5Session.kt:111-113 | a client reads an error reply as its code with ATYP 1, address 0.0.0.0 and port 0 |
| Socks5Session.SuccessReply | app/src/main/java/com/example/cellularsocks/core/Socks5Session.kt:115-123 | the success reply is 05 00 00 atyp, the address, then the port big-endian; atyp is 1 for four bytes and 4 otherwise; its length is 6 + the address length |
| Socks5Session.SuccessReplyDecodes | app/src/main/java/com/example/cellularsocks/core/Socks5Session.kt:115-123 | a client reads a success reply for a 4- or 16-byte address as code 0, that address and the port modulo 2^16 |
| Socks5Session.AuthReply | app/src/main/java/com/example/cellularsocks/core/Socks5Session.kt:90 | the status reply is 01 00 on success and 01 01 on failure |
| Socks5Session.ChooseMethod | app/src/main/java/com/example/cellularsocks/core/Socks5Session.kt:31-36 | 0x00 iff no credentials are configured and 0x00 is offered; 0x02 iff credentials are configured and 0x02 is offered; 0xFF otherwise |
| Socks5Session.Greeting | app/src/main/java/com/example/cellularsocks/core/Socks5Session.kt:29-37 | a missing or wrong version writes nothing; a missing NMETHODS raises NegativeArraySize; otherwise the reply is exactly 05 m, and m = 2 only when credentials are configured |
| Socks5Session.LengthPrefixed | app/src/main/java/com/example/cellularsocks/core/Socks5Session.kt:87-88 | a field raises iff its length byte is missing; otherwise it is exactly as long as its length byte says |
| Socks5Session.LengthPrefixedRoundTrip | app/src/main/java/com/example/cellularsocks/core/Socks5Session.kt:87-88 | a length byte followed by that many bytes reads back as exactly those bytes, consumed exactly |
| Socks5Session.UserPass | app/src/main/java/com/example/cellularsocks/core/Socks5Session.kt:85-92 | a sub-version other than 1 answers false with no reply; only a missing length byte raises; after sub-version 1 the reply is the status for the answer |
| Socks5Session.UserPassRoundTrip | app/src/main/java/com/example/cellularsocks/core/Socks5Session.kt:85-92 | a well-formed sub-negotiation is consumed exactly and succeeds, answering 01 00, iff both username and password equal the configured ones; it answers 01 01 otherwise |
| Socks5Session.PortThen | app/src/main/java/com/example/cellularsocks/core/Socks5Session.kt:107 | fewer than two port bytes raise BufferUnderflow; otherwise the port is hi·256 + lo and exactly two bytes are consumed |
| Socks5Session.AddressThenPort | app/src/main/java/com/example/cellularsocks/core/Socks5Session.kt:102-107 | a complete address goes through `getByAddress` and is followed by the port; a truncated one raises UnknownHost |
| Socks5Session.ParseRequest | app/src/main/java/com/example/cellularsocks/core/Socks5Session.kt:96-109 | a short header or an ATYP outside {1, 3, 4} gives no request; VER and RSV are never checked; ATYP 1, 3 and 4 consume 10, 7 + L and 22 bytes; the port is in 0..65535 |
| Socks5Session.RequestRoundTrip | app/src/main/java/com/example/cellularsocks/core/Socks5Session.kt:96-109 | every well-formed request, whatever its VER and RSV bytes, parses back to itself and is consumed exactly |
| Socks5Session.Report | app/src/main/java/com/example/cellularsocks/core/Socks5Session.kt:41 | the failure callback gets the client address exactly when it is set |
| Socks5Session.Dispatch | app/src/main/java/com/example/cellularsocks/core/Socks5Session.kt:47-78 | CONNECT: REP 1 without a socket factory; a failed connect raises with nothing written; a successful one writes the success reply for the local address and bridges the rest of the input. UDP ASSOCIATE: REP 7 without a starter; a starter that raises ends the session; otherwise the success reply carries the relay's bound address and port and the input is read to its end. Any other command: REP 7 |
| Socks5Session.RequestPhase | app/src/main/java/com/example/cellularsocks/core/Socks5Session.kt:46-78 | nothing is written unless a request was parsed |
| Socks5Session.Run | app/src/main/java/com/example/cellularsocks/core/Socks5Session.kt:21-83 | the whole session never reads past the end of its input |
| Socks5Session.AuthPhase | app/src/main/java/com/example/cellularsocks/core/Socks5Session.kt:40-46 | the sub-negotiation, then the request only if it succeeded; the cursor stays within the input |
| Socks5Session.WrongVersion | app/src/main/java/com/example/cellularsocks/core/Socks5Session.kt:29 | a first byte other than 5, or none at all, ends the session after that byte, with nothing written and (0, 0) returned |
| Socks5Session.MethodReply | app/src/main/java/com/example/cellularsocks/core/Socks5Session.kt:30-38 | the output always starts with 05 m for the chosen m; after 0xFF nothing more is read than the methods, and nothing more is written |
| Socks5Session.AuthFailureEndsSession | app/src/main/java/com/example/cellularsocks/core/Socks5Session.kt:40-43 | a failed authentication is reported and ends the session without reading a request; the output is 05 02 or 05 02 01 01 |
| Socks5Session.ReportedIffAuthFailed | app/src/main/java/com/example/cellularsocks/core/Socks5Session.kt:40-43 | the failure callback is called, with the client address, iff it is set and method 2 was chosen and the sub-negotiation answered false |
| Socks5Session.NoServiceWithoutAuth | app/src/main/java/com/example/cellularsocks/core/Socks5Session.kt:40-46 | with credentials configured, no request is answered, bridged or relayed unless the client authenticated |
| Socks5Session.NoAuthExchange | app/src/test/java/com/example/cellularsocks/core/Socks5SessionTest.kt:15-34 | 05 01 00 without credentials: output 05 00, then the session closes for want of a request |
| Socks5Session.UserPassOfferedExchange | app/src/test/java/com/example/cellularsocks/core/Socks5SessionTest.kt:37-56 | 05 01 02 with credentials: output 05 02, then the missing sub-negotiation counts as a reported failure |
| Socks5Session.UserPassAcceptedExchange | app/src/test/java/com/example/cellularsocks/core/Socks5SessionTest.kt:59-82 | user/pass against user/pass: output 05 02 01 00, then the session closes |
| Socks5Session.UserPassRejectedExchange | app/src/test/java/com/example/cellularsocks/core/Socks5SessionTest.kt:85-108 | user/wrong against user/pass: output 05 02 01 01, reported, nothing more read |
| Socks5Session.NoAuthRequest | app/src/main/java/com/example/cellularsocks/core/Socks5Session.kt:46-78 | without credentials, a well-formed request after method 0 is dispatched as parsed, after the reply 05 00 |
| Socks5Session.ConnectExchange | app/src/test/java/com/example/cellularsocks/core/Socks5SessionTest.kt:111-170 | CONNECT 127.0.0.1:1080 or localhost:1080: output 05 00 then the success reply, whose first bytes are 05 00 00 01; then the bridge |
| Socks5Session.BindExchange | app/src/test/java/com/example/cellularsocks/core/Socks5SessionTest.kt:173-196 | BIND: output 05 00 then the REP 7 error reply |
| Socks5Session.UdpAssociateExchange | app/src/main/java/com/example/cellularsocks/core/Socks5Session.kt:60-72 | UDP ASSOCIATE with a relay that starts: output 05 00 then a success reply that decodes to the relay's bound address and port; the control connection is read to its end |
| Socks5Session.Session.Handle | app/src/main/java/com/example/cellularsocks/core/Socks5Session.kt:21-83 | `handle` writes, consumes, reports and returns what `Run` says, and always closes the client |
| Socks5Session.Session.AuthenticateThenServe | app/src/main/java/com/example/cellularsocks/core/Socks5Session.kt:40-46 | the authentication step and what follows it behave as `AuthPhase` says, recording a failure report |
| Socks5Session.Session.ServeRequest | app/src/main/java/com/example/cellularsocks/core/Socks5Session.kt:46-78 | the request step behaves as `RequestPhase` says |
| Socks5Session.Session.Negotiate | app/src/main/java/com/example/cellularsocks/core/Socks5Session.kt:29-38 | the method negotiation behaves as `Greeting` says |
| Socks5Session.Session.HandleUserPass | app/src/main/java/com/example/cellularsocks/core/Socks5Session.kt:85-92 | `handleUserPass` behaves as `UserPass` says |
| Socks5Session.Session.ReadRequest | app/src/main/java/com/example/cellularsocks/core/Socks5Session.kt:96-109 | `parseRequest` on the stream behaves as `ParseRequest` says |
| Socks5Session.Session.ReadAddressThenPort | app/src/main/java/com/example/cellularsocks/core/Socks5Session.kt:102-107 | an address read then a port, as `AddressThenPort` says |
| Socks5Session.Session.ReadPort | app/src/main/java/com/example/cellularsocks/core/Socks5Session.kt:107 | the port read, as `PortThen` says |
| Socks5Session.Session.Respond | app/src/main/java/com/example/cellularsocks/core/Socks5Session.kt:47-78 | the `when (req.cmd)` branch, including the UDP idle-read loop, behaves as `Dispatch` says |
| UdpAssociate.PortAndPayload | app/src/main/java/com/example/cellularsocks/core/UdpAssociate.kt:109-110 | fewer than two bytes at the port offset raise; otherwise the port is the unsigned two bytes there and the payload is everything after them |
| UdpAssociate.ParseSocksUdp | app/src/main/java/com/example/cellularsocks/core/UdpAssociate.kt:92-112 | no packet iff the datagram is shorter than 10 bytes, FRAG ≠ 0 or ATYP ∉ {1, 3, 4}. ATYP 1: the four address bytes, the port at bytes 8-9 and the payload from byte 10. ATYP 4: raises IndexOutOfBounds below 22 bytes; otherwise `getByAddress` of bytes 4-19, the port at bytes 20-21 and the payload from byte 22. ATYP 3 with name length l: raises IndexOutOfBounds when the name runs past the end, UnknownHost when it does not resolve, IndexOutOfBounds when the port bytes are missing; otherwise the resolved address, the port at 5+l and the payload from 7+l |
| UdpAssociate.BuildSocksUdp | app/src/main/java/com/example/cellularsocks/core/UdpAssociate.kt:114-122 | 00 00 00 atyp, then the address, the port and the data; atyp is 1 for four bytes and 4 otherwise; the length is 6 + address length + data length |
| UdpAssociate.BuiltIsClientShaped | app/src/main/java/com/example/cellularsocks/core/UdpAssociate.kt:90 | every reply the relay wraps looks like a client datagram to the classifier |
| UdpAssociate.BuildParseRoundTrip | app/src/main/java/com/example/cellularsocks/core/UdpAssociate.kt:92-122 | decoding a built header gives back the address, the port modulo 2^16 and the data; an IPv4-mapped address comes back as its IPv4 form |
| UdpAssociate.RsvIgnored | app/src/main/java/com/example/cellularsocks/core/UdpAssociate.kt:92-98 | the two RSV bytes are never checked: any values there decode the same |
| UdpAssociate.FirstClient | app/src/main/java/com/example/cellularsocks/core/UdpAssociate.kt:55 | `firstOrNull` finds no client iff none is mapped to the remote; otherwise it finds the first one in iteration order |
| UdpAssociate.ClientDatagram | app/src/main/java/com/example/cellularsocks/core/UdpAssociate.kt:46-52 | a decoded client datagram overwrites the client's NAT entry and activity, adds no duplicate key, leaves other clients unchanged and forwards the payload |
| UdpAssociate.RemoteDatagram | app/src/main/java/com/example/cellularsocks/core/UdpAssociate.kt:53-62 | a reply from a source no client is mapped to is dropped with nothing changed; with a consistent table, a source some client is mapped to always has a first such client in iteration order (`firstOrNull`), the wrapped reply goes to that client, and only its activity is refreshed |
| UdpAssociate.UndecodableDropped | app/src/main/java/com/example/cellularsocks/core/UdpAssociate.kt:47 | a client-shaped datagram that does not decode changes nothing and sends nothing |
| UdpAssociate.ReceivedConsistent | app/src/main/java/com/example/cellularsocks/core/UdpAssociate.kt:46-62 | every datagram keeps the two maps on the same keys, each listed once in order |
| UdpAssociate.Survivors | app/src/main/java/com/example/cellularsocks/core/UdpAssociate.kt:71-78 | the keys a GC pass keeps are exactly those not idle for longer than the timeout |
| UdpAssociate.SweptExactly | app/src/main/java/com/example/cellularsocks/core/UdpAssociate.kt:67-79 | a GC pass removes from both maps exactly the keys idle for longer than the timeout and keeps every other entry as it was |
| UdpAssociate.SurvivorsNoDuplicates | app/src/main/java/com/example/cellularsocks/core/UdpAssociate.kt:71-78 | the kept keys are still listed once each |
| UdpAssociate.SweptConsistent | app/src/main/java/com/example/cellularsocks/core/UdpAssociate.kt:71-78 | a GC pass keeps the two maps on the same keys |
| UdpAssociate.SweepKeysRemoves | app/src/main/java/com/example/cellularsocks/core/UdpAssociate.kt:71-78 | after visiting some keys, the iterator has removed exactly the visited expired keys from both maps |
| UdpAssociate.SweepKeysAll | app/src/main/java/com/example/cellularsocks/core/UdpAssociate.kt:71-78 | visiting every key gives the GC pass |
| UdpAssociate.Expire | app/src/main/java/com/example/cellularsocks/core/UdpAssociate.kt:70-78 | the iterator loop with `remove` computes the GC pass |
| UdpAssociate.UdpRelay.constructor | app/src/main/java/com/example/cellularsocks/core/UdpAssociate.kt:10-21 | a new relay has empty maps |
| UdpAssociate.UdpRelay.Receive | app/src/main/java/com/example/cellularsocks/core/UdpAssociate.kt:40-63 | one `pump` iteration updates the table and sends what `Received` says, keeping the maps on the same keys |
| UdpAssociate.UdpRelay.Sweep | app/src/main/java/com/example/cellularsocks/core/UdpAssociate.kt:67-79 | one `gcLoop` pass leaves the table `Swept` says, keeping the maps on the same keys |
| UdpAssociate.UdpRelay.Stop | app/src/main/java/com/example/cellularsocks/core/UdpAssociate.kt:82-86 | `stop` empties both maps |
| Socks5Server.Updated | app/src/main/java/com/example/cellularsocks/core/Socks5Server.kt:120-127 | the active count becomes max(0, old + delta); the totals move by exactly their deltas |
| Socks5Server.SessionNet | app/src/main/java/com/example/cellularsocks/core/Socks5Server.kt:80-100 | a session leaves the active count where it was and counts one more session, even when `handle` throws; its bytes are added only when it returns |
| Socks5Server.AdmittedIff | app/src/main/java/com/example/cellularsocks/core/Socks5Server.kt:57-80 | a client is admitted iff the deny list does not match, the allow list is absent or matches, it is not blocked and the server is below its cap |
| Socks5Server.DenyWins | app/src/main/java/com/example/cellularsocks/core/Socks5Server.kt:57-58 | a deny-list match refuses the client whatever the allow list, blocks and count say |
| Socks5Server.EmptyAllowListRefuses | app/src/main/java/com/example/cellularsocks/core/Socks5Server.kt:58 | a present but empty allow list refuses every client the deny list lets through |
| Socks5Server.AclBeforeBlockAndCap | app/src/main/java/com/example/cellularsocks/core/Socks5Server.kt:57-78 | a client refused by the allow list is refused for that reason even when it is also blocked or the server is full |
| Socks5Server.BlockExpiry | app/src/main/java/com/example/cellularsocks/core/Socks5Server.kt:66 | a block holds iff now is before its expiry, so at the expiry instant the client is free again |
| Socks5Server.Recent | app/src/main/java/com/example/cellularsocks/core/Socks5Server.kt:112 | `removeIf { it < cutoff }` keeps exactly the timestamps not older than the cutoff |
| Socks5Server.RecentKeepsAll | app/src/main/java/com/example/cellularsocks/core/Socks5Server.kt:112 | nothing is removed when nothing is older than the cutoff |
| Socks5Server.AuthFailWindow | app/src/main/java/com/example/cellularsocks/core/Socks5Server.kt:106-118 | with a threshold of at least 1, after a failure the client's window is shorter than the threshold and holds only the last minute; other clients' windows and blocks do not change |
| Socks5Server.AuthFailBlocks | app/src/main/java/com/example/cellularsocks/core/Socks5Server.kt:113-117 | reaching the threshold blocks the client until now + tempBlockMinutes·60000 and empties its window; otherwise no block changes |
| Socks5Server.AppendKeepsAll | app/src/main/java/com/example/cellularsocks/core/Socks5Server.kt:109-112 | failures from the last minute all survive when one more is added |
| Socks5Server.FailureRemembered | app/src/main/java/com/example/cellularsocks/core/Socks5Server.kt:106-118 | a failure that stays under the threshold is appended to a window of recent failures |
| Socks5Server.FailureBlocks | app/src/main/java/com/example/cellularsocks/core/Socks5Server.kt:106-118 | a failure that reaches the threshold installs the block |
| Socks5Server.ReplayBelowThreshold | app/src/main/java/com/example/cellularsocks/core/Socks5Server.kt:106-118 | fewer failures than the threshold within one minute are all remembered and install no block |
| Socks5Server.ThresholdFailuresBlock | app/src/main/java/com/example/cellularsocks/core/Socks5Server.kt:106-118 | `threshold` failures within one minute block the client from the last of them for `tempBlockMinutes` minutes |
| Socks5Server.Server.constructor | app/src/main/java/com/example/cellularsocks/core/Socks5Server.kt:27-41 | a new server has zero counters and empty throttle maps |
| Socks5Server.Server.Admit | app/src/main/java/com/example/cellularsocks/core/Socks5Server.kt:57-78 | the accept loop's checks decide what `Screen` decides |
| Socks5Server.Server.UpdateStats | app/src/main/java/com/example/cellularsocks/core/Socks5Server.kt:120-127 | `updateStats` sets the counters to `Updated` and touches nothing else |
| Socks5Server.Server.RecordAuthFail | app/src/main/java/com/example/cellularsocks/core/Socks5Server.kt:106-118 | `recordAuthFail` leaves the throttle `AfterAuthFail` says and the counters unchanged |
| Socks5Server.Server.Launch | app/src/main/java/com/example/cellularsocks/core/Socks5Server.kt:80-100 | the launched coroutine's three updates give `Accounted`; the active count ends where it began |
| Socks5Server.Server.Accept | app/src/main/java/com/example/cellularsocks/core/Socks5Server.kt:49-100 | a refused client changes nothing; an admitted one is served, its reported failure is recorded and its session is accounted |

## Left out

- Socket options and the 12 s connect timeout are left out. A connect that times out raises like any failed connect, which the model covers as ConnectFailed.
- The 15 s read timeout on the client socket is left out. In the original, 15 s without a byte from the client makes a read raise. During negotiation, authentication or the request, the session then ends through the catch at the end of `handle`: no further reply and no `onAuthFailed` report. In the UDP ASSOCIATE wait loop, the timeout counts as end of input: the association ends after 15 s of silence on the control connection, not only when the client closes it. The model's input is finite and already complete, so a silent client looks like one that closed its side. Two cases differ from the original's timeout. If the input ends before the sub-negotiation's version byte, the model reports an authentication failure without comparing anything. If it ends inside the password, the model compares the zero-filled password and reports the failure. If the input ends at the username length byte, inside the username or at the password length byte, the model ends the session like the timeout does: `ByteArray(-1)` raises, with no status reply and no report.
- Short reads on the client socket are left out. `read(buf)` is modelled as a `ByteArrayInputStream` read: it fills the buffer with every byte still available, up to its size. A TCP socket may return fewer bytes. Then the rest of the method list or credential buffer stays zero, or the 4-byte request header check fails and the session closes early. The model does not capture these outcomes, which depend on how the client's bytes were split into segments.
- Write and flush failures on the client socket are left out. Writes always succeed in the model.
- `onState` status messages are left out. They are logging only.
- The byte pump (`Pump.kt`, `bridge`) is not part of this model. It is a parameter that returns the two byte counts for the client bytes still unread. Half-close and concurrent copying are left out.
- The outbound connect is a parameter: either it succeeds or it raises (ConnectFailed). The factory's socket options are left out.
- The UDP relay starter is a parameter that returns the bound address and port or raises. `UdpAssociate.start` (socket bind, cellular binding, launching the coroutines) is left out, since it is platform I/O.
- Name resolution (`InetAddress.getByName`) is a resolver parameter. The dotted or colon text of `hostAddress` is left out: hosts stay as address bytes or raw name bytes.
- Socks5Session.UserPass: compares the raw username and password bytes rather than their UTF-8 decodings. Two malformed byte sequences that decode to the same replacement characters would compare equal in the original but not here.
- IpAcl.ToIntOrNull: accepts ASCII digits only. Kotlin also accepts digits from other Unicode scripts.
- Integer widths are unbounded. The statistics counters (`Int` and `Long`) and the `now + tempBlockMinutes * 60000` sum do not wrap in the model. The casts and wrap-arounds that change results are modelled explicitly: `toByte`, `toShort`, `and 0xFFFF`, and the Int `bits -= 8` of `inCidr` (`IpAcl.Wrap32`).
- Concurrency is left out. The model runs one step at a time, so it does not capture:
  - the race between the session-cap check and the increment in the launched coroutine;
  - unsynchronised access to the NAT maps from `pump` and `gcLoop`;
  - sessions that interleave.
- The clock (`System.currentTimeMillis`) and `delay` are left out. The time is a `now` parameter, and `gcLoop` is modelled as one sweep per call of `UdpRelay.Sweep`.
- `DatagramSocket.receive` and `send` are left out. A received datagram is a parameter and a sent one is a return value.
- UdpAssociate.UdpRelay.Receive: always refreshes the reply's client activity. In the original, a `send` that throws skips that refresh.
- `ServerSocket` bind, accept and `shutdown` are left out. `Server.Accept` models one pass of the accept loop for an accepted client. An exception from the ACL matcher ends `serve` in the original; in the model it becomes the `Crashed` decision.
- Socks5Server.Server.Accept: runs the session through its specification function `Socks5Session.Run`. It does not run the `Session` class, which `Session.Handle` is proved to agree with.
- Socks5Server.Server.Accept: records a reported authentication failure at a `failedAt` time supplied by the caller.
