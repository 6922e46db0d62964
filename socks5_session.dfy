/** One SOCKS5 session on the server side: method negotiation (section 3 of
    RFC 1928), username/password sub-negotiation (section 2 of RFC 1929),
    request parsing (sections 4 and 5 of RFC 1928), replies (section 6 of
    RFC 1928) and dispatch to CONNECT, UDP ASSOCIATE or "command not
    supported".

    The client socket is a finite input byte sequence read through a
    cursor, where the end of input reads as -1, and an output sequence the
    replies are appended to. The outbound connect, the bridge and the UDP
    relay starter are parameters. The specification functions (Greeting,
    UserPass, ParseRequest, Dispatch, Run) say what a session reads, writes
    and returns; the class Session does it step by step and is proved to
    agree with them. */
module Socks5Session {
  import opened Bytes

  /*********************************************************************
   * Values
   *********************************************************************/

  /** The configured username and password, as the bytes a client sends. */
  datatype Credentials = Credentials(username: seq<Byte>, password: seq<Byte>)

  /** The destination of a request: an address (4 or 16 bytes, as
      `getByAddress` leaves it) or a domain name (its raw bytes). */
  datatype Host = Address(addr: seq<Byte>) | Domain(name: seq<Byte>)

  /** A parsed request: command byte, destination host and port. */
  datatype Request = Request(cmd: Byte, host: Host, port: int)

  /** The byte counts `bridge` returns: client to remote, remote to client. */
  datatype Transfer = Transfer(up: nat, down: nat)

  /** `starter(localAddress, 0)`: the bound relay address and port, or None
      where starting the relay raises. */
  type Starter = (seq<Byte>, int) -> Option<(seq<Byte>, int)>

  /** Everything a session is constructed with, besides the client socket.
      `egress` is the socket factory (None where the provider returns
      null), given as whether the connect to a destination succeeds;
      `onAuthFailed` says whether that callback is set; `bridge` gives the
      counts the byte pump returns for the client bytes still unread. */
  datatype Env = Env(
    auth: Option<Credentials>,
    clientIp: string,
    onAuthFailed: bool,
    egress: Option<(Host, int) -> bool>,
    udpStarter: Option<Starter>,
    localAddr: seq<Byte>,
    localPort: int,
    bridge: seq<Byte> -> Transfer)

  /** How a session ended: through `close()`, through an exception caught
      in `handle`, after bridging, or after the UDP control connection
      reached end of input. */
  datatype Outcome = Closed | Failed(fault: Fault) | Bridged(transfer: Transfer) | UdpEnded

  /** What one step of the session did: its value or the exception it
      raised, the bytes it wrote, and where it left the read cursor. */
  datatype Step<+T> = Step(result: Res<T>, written: seq<Byte>, pos: nat)

  /** What a whole session did: everything written, how it ended, the
      client address passed to `onAuthFailed` (if it was called), and
      where it left the read cursor. */
  datatype SessionRun = SessionRun(written: seq<Byte>, outcome: Outcome, reported: Option<string>, pos: nat)

  /** The pair `handle` returns. */
  function Returned(o: Outcome): (t: Transfer)
    ensures t != Transfer(0, 0) ==> o.Bridged?
  {
    if o.Bridged? then o.transfer else Transfer(0, 0)
  }

  /*********************************************************************
   * The input stream
   *********************************************************************/

  /** `read()`: the next byte as 0..255, or -1 at end of input. */
  function ByteAt(input: seq<Byte>, pos: nat): (b: int)
    ensures -1 <= b < 256
    ensures b == -1 <==> pos >= |input|
  {
    if pos < |input| then input[pos] as int else -1
  }

  function Next(input: seq<Byte>, pos: nat): nat
  {
    if pos < |input| then pos + 1 else pos
  }

  /** `readNBytes(n)` for n >= 0: up to n bytes, fewer at end of input. */
  function Take(input: seq<Byte>, pos: nat, n: nat): (s: seq<Byte>)
    requires pos <= |input|
    ensures |s| <= n && pos + |s| <= |input|
    ensures |s| == n || pos + |s| == |input|
    ensures s == input[pos..pos + |s|]
  {
    if |input| - pos <= n then input[pos..] else input[pos..pos + n]
  }

  function Zeros(n: nat): (s: seq<Byte>)
    ensures |s| == n && forall i | 0 <= i < n :: s[i] == 0
  {
    seq(n, _ => 0)
  }

  /** The contents of `ByteArray(n).also { read(it) }`: the bytes
      available, up to n, then zeros where the read came up short. */
  function Fill(input: seq<Byte>, pos: nat, n: nat): (s: seq<Byte>)
    requires pos <= |input|
    ensures |s| == n
  {
    Take(input, pos, n) + Zeros(n - |Take(input, pos, n)|)
  }

  /** The client socket: its input, the read cursor, what has been written
      to it and whether it has been closed. */
  class Conn {
    const input: seq<Byte>
    var pos: nat
    var output: seq<Byte>
    var closed: bool

    ghost predicate Valid()
      reads this
    {
      pos <= |input|
    }

    constructor (input: seq<Byte>)
      ensures this.input == input && pos == 0 && output == [] && !closed
      ensures Valid()
    {
      this.input := input;
      pos := 0;
      output := [];
      closed := false;
    }

    /** `inp.read()`. */
    method Read() returns (b: int)
      requires Valid()
      modifies this`pos
      ensures Valid()
      ensures b == ByteAt(input, old(pos)) && pos == Next(input, old(pos))
    {
      if pos < |input| {
        b := input[pos] as int;
        pos := pos + 1;
      } else {
        b := -1;
      }
    }

    /** `inp.read(buf)` on a fresh array of n bytes: the count read (-1 at
      end of input when n > 0) and the array's contents afterwards. */
    method ReadInto(n: nat) returns (count: int, buf: seq<Byte>)
      requires Valid()
      modifies this`pos
      ensures Valid()
      ensures buf == Fill(input, old(pos), n)
      ensures pos == old(pos) + |Take(input, old(pos), n)|
      ensures count == if n > 0 && old(pos) == |input| then -1 else |Take(input, old(pos), n)|
    {
      var got := Take(input, pos, n);
      count := if n > 0 && pos == |input| then -1 else |got|;
      buf := got + Zeros(n - |got|);
      pos := pos + |got|;
    }

    /** `inp.readNBytes(n)`, which raises on a negative n. */
    method ReadNBytes(n: int) returns (r: Res<seq<Byte>>)
      requires Valid()
      modifies this`pos
      ensures Valid()
      ensures n < 0 ==> r == Raised(IllegalArgument) && pos == old(pos)
      ensures n >= 0 ==> r == Ok(Take(input, old(pos), n)) && pos == old(pos) + |r.value|
    {
      if n < 0 {
        return Raised(IllegalArgument);
      }
      var got := Take(input, pos, n);
      pos := pos + |got|;
      return Ok(got);
    }

    /** `val len = read(); ByteArray(len).also { read(it) }`. */
    method ReadField() returns (r: Res<seq<Byte>>)
      requires Valid()
      modifies this`pos
      ensures Valid()
      ensures var f := LengthPrefixed(input, old(pos)); r == f.result && pos == f.pos
    {
      var len := Read();
      if len < 0 {
        return Raised(NegativeArraySize);
      }
      var count, buf := ReadInto(len);
      return Ok(buf);
    }

    method Write(bytes: seq<Byte>)
      modifies this`output
      ensures output == old(output) + bytes
    {
      output := output + bytes;
    }

    method Close()
      modifies this`closed
      ensures closed
    {
      closed := true;
    }
  }

  /*********************************************************************
   * Replies
   *********************************************************************/

  /** `reply(out, rep)`: an error reply, always with ATYP 1 and an all-zero
      address and port. */
  function ErrorReply(rep: Byte): (s: seq<Byte>)
    ensures |s| == 10 && s[1] == rep
    ensures forall i | 0 <= i < 10 && i != 1 && i != 3 && i != 0 :: s[i] == 0
  {
    [5, rep, 0, 1, 0, 0, 0, 0, 0, 0]
  }

  /** `replySuccessBound(out, addr, port)`: VER 5, REP 0, RSV 0, ATYP 1 for
      a four-byte address and 4 otherwise, the address, the port. */
  function SuccessReply(addr: seq<Byte>, port: int): (s: seq<Byte>)
    ensures |s| == 6 + |addr|
    ensures s[..4] == [5, 0, 0, if |addr| == 4 then 1 else 4]
    ensures s[4..4 + |addr|] == addr
    ensures PortOf(s[4 + |addr|], s[5 + |addr|]) == port % 65536
  {
    PortRoundTrip(port);
    [5, 0, 0, if |addr| == 4 then 1 else 4] + addr + PortBytes(port)
  }

  /** The reply sub-negotiation status: 0 for success, 1 for failure. */
  function AuthReply(ok: bool): (s: seq<Byte>)
    ensures |s| == 2 && s[0] == 1 && (s[1] == 0 <==> ok)
  {
    [1, if ok then 0 else 1]
  }

  /** How a client reads a reply (section 6 of RFC 1928): REP, the bound
      address (4 bytes for ATYP 1, 16 for ATYP 4) and the bound port. */
  function DecodeReply(s: seq<Byte>): Option<(Byte, seq<Byte>, int)>
  {
    if |s| < 4 || s[0] != 5 || s[2] != 0 then None
    else
      var n := if s[3] == 1 then 4 else if s[3] == 4 then 16 else 0;
      if n == 0 || |s| != 6 + n then None
      else Some((s[1], s[4..4 + n], PortOf(s[4 + n], s[5 + n])))
  }

  /** An error reply reads back as its code with the zero address. */
  lemma ErrorReplyDecodes(rep: Byte)
    ensures DecodeReply(ErrorReply(rep)) == Some((rep, [0, 0, 0, 0], 0))
  {
    assert ErrorReply(rep)[4..8] == [0, 0, 0, 0];
  }

  /** A success reply for a four- or sixteen-byte address reads back as
      code 0 with that address and the port modulo 2^16. */
  lemma SuccessReplyDecodes(addr: seq<Byte>, port: int)
    requires |addr| == 4 || |addr| == 16
    ensures DecodeReply(SuccessReply(addr, port)) == Some((0, addr, port % 65536))
  {
    var s := SuccessReply(addr, port);
    assert s[3] == s[..4][3];
  }

  /*********************************************************************
   * Method negotiation
   *********************************************************************/

  /** The method chosen from those offered: no authentication when no
      credentials are configured, username/password when they are, and
      0xFF (no acceptable method) when the needed one is not offered. */
  function ChooseMethod(auth: Option<Credentials>, methods: seq<Byte>): (m: Byte)
    ensures m == 0x00 <==> auth.None? && 0x00 in methods
    ensures m == 0x02 <==> auth.Some? && 0x02 in methods
    ensures m == 0x00 || m == 0x02 || m == 0xFF
  {
    if auth.None? && 0x00 in methods then 0x00
    else if auth.Some? && 0x02 in methods then 0x02
    else 0xFF
  }

  /** The greeting: VER (anything but 5 ends the session with nothing
      written), NMETHODS (-1 at end of input makes `ByteArray(-1)` raise),
      the methods, then the reply [5, chosen]. The result is None for a
      wrong version and the chosen method otherwise. */
  function Greeting(auth: Option<Credentials>, input: seq<Byte>): (g: Step<Option<Byte>>)
    ensures g.pos <= |input|
    ensures g.result == Ok(None) <==> |input| == 0 || input[0] != 5
    ensures g.result == Ok(None) ==> g.written == []
    ensures g.result.Raised? ==> g.written == [] && g.result.fault == NegativeArraySize
    ensures g.result.Ok? && g.result.value.Some? ==>
              g.written == [5, g.result.value.value] && (g.result.value.value == 2 ==> auth.Some?)
  {
    var ver := ByteAt(input, 0);
    var p := Next(input, 0);
    if ver != 5 then Step(Ok(None), [], p)
    else
      var n := ByteAt(input, p);
      var p1 := Next(input, p);
      if n < 0 then Step(Raised(NegativeArraySize), [], p1)
      else
        var chosen := ChooseMethod(auth, Fill(input, p1, n));
        Step(Ok(Some(chosen)), [5, chosen], p1 + |Take(input, p1, n)|)
  }

  /*********************************************************************
   * Username/password sub-negotiation
   *********************************************************************/

  /** A length byte, then `ByteArray(len).also { read(it) }`: a length of
      -1 at end of input makes `ByteArray(-1)` raise. */
  function LengthPrefixed(input: seq<Byte>, pos: nat): (f: Step<seq<Byte>>)
    requires pos <= |input|
    ensures f.written == [] && pos <= f.pos <= |input|
    ensures f.result.Raised? <==> pos == |input|
    ensures f.result.Raised? ==> f.result.fault == NegativeArraySize
    ensures f.result.Ok? ==> |f.result.value| == input[pos] as int
  {
    var len := ByteAt(input, pos);
    var p := Next(input, pos);
    if len < 0 then Step(Raised(NegativeArraySize), [], p)
    else Step(Ok(Fill(input, p, len)), [], p + |Take(input, p, len)|)
  }

  /** A length byte followed by that many bytes reads back as exactly
      those bytes. */
  lemma LengthPrefixedRoundTrip(field: seq<Byte>, input: seq<Byte>, pos: nat)
    requires |field| < 256 && pos + 1 + |field| <= |input|
    requires input[pos..pos + 1 + |field|] == [LowByte(|field|)] + field
    ensures LengthPrefixed(input, pos) == Step(Ok(field), [], pos + 1 + |field|)
  {
    var e := [LowByte(|field|)] + field;
    SliceByte(input, pos, e, 0);
    LowByteSmall(|field|);
    SliceRange(input, pos, e, 1, 1 + |field|);
    assert e[1..1 + |field|] == field;
    LengthPrefixedBranch(input, pos, |field|);
  }

  /** A length byte n with n bytes after it: those bytes are the field. */
  lemma LengthPrefixedBranch(input: seq<Byte>, pos: nat, n: nat)
    requires pos + 1 + n <= |input| && input[pos] as int == n
    ensures LengthPrefixed(input, pos) == Step(Ok(input[pos + 1..pos + 1 + n]), [], pos + 1 + n)
  {
    assert ByteAt(input, pos) == n && Next(input, pos) == pos + 1;
    FillAvailable(input, pos + 1, n);
  }

  /** `handleUserPass`: a sub-version other than 1 answers false with no
      reply; otherwise UNAME and PASSWD are read as length-prefixed fields
      and the reply says whether both equal the configured credentials. */
  function UserPass(creds: Credentials, input: seq<Byte>, pos: nat): (a: Step<bool>)
    requires pos <= |input|
    ensures pos <= a.pos <= |input|
    ensures a.result.Raised? ==> a.written == [] && a.result.fault == NegativeArraySize
    ensures a.result.Ok? && ByteAt(input, pos) != 1 ==> a.result == Ok(false) && a.written == []
    ensures a.result.Ok? && ByteAt(input, pos) == 1 ==> a.written == AuthReply(a.result.value)
  {
    if ByteAt(input, pos) != 1 then Step(Ok(false), [], Next(input, pos))
    else
      var u := LengthPrefixed(input, pos + 1);
      match u.result
      case Raised(f) => Step(Raised(f), [], u.pos)
      case Ok(user) =>
        var w := LengthPrefixed(input, u.pos);
        match w.result
        case Raised(f) => Step(Raised(f), [], w.pos)
        case Ok(pass) =>
          var ok := user == creds.username && pass == creds.password;
          Step(Ok(ok), AuthReply(ok), w.pos)
  }

  /** The sub-negotiation request a client sends (section 2 of RFC 1929). */
  function EncodeUserPass(user: seq<Byte>, pass: seq<Byte>): (s: seq<Byte>)
    requires |user| < 256 && |pass| < 256
    ensures |s| == 3 + |user| + |pass|
  {
    [1, LowByte(|user|)] + user + [LowByte(|pass|)] + pass
  }

  lemma FillAvailable(input: seq<Byte>, pos: nat, n: nat)
    requires pos + n <= |input|
    ensures Take(input, pos, n) == input[pos..pos + n] && Fill(input, pos, n) == input[pos..pos + n]
  {
    assert Zeros(0) == [];
  }

  /** Byte i of an encoding found at pos in the input. */
  lemma SliceByte(input: seq<Byte>, pos: nat, e: seq<Byte>, i: nat)
    requires pos + |e| <= |input| && input[pos..pos + |e|] == e && i < |e|
    ensures input[pos + i] == e[i]
  {
    assert input[pos..pos + |e|][i] == input[pos + i];
  }

  /** Bytes a up to b of an encoding found at pos in the input. */
  lemma SliceRange(input: seq<Byte>, pos: nat, e: seq<Byte>, a: nat, b: nat)
    requires pos + |e| <= |input| && input[pos..pos + |e|] == e && a <= b <= |e|
    ensures input[pos + a..pos + b] == e[a..b]
  {
    forall k | 0 <= k < b - a ensures input[pos + a..pos + b][k] == e[a..b][k] {
      SliceByte(input, pos, e, a + k);
    }
  }

  /** A well-formed sub-negotiation request is consumed exactly, and it
      succeeds iff both fields equal the configured ones. */
  lemma UserPassRoundTrip(creds: Credentials, user: seq<Byte>, pass: seq<Byte>, input: seq<Byte>, pos: nat)
    requires |user| < 256 && |pass| < 256
    requires pos + 3 + |user| + |pass| <= |input|
    requires input[pos..pos + 3 + |user| + |pass|] == EncodeUserPass(user, pass)
    ensures var ok := user == creds.username && pass == creds.password;
            UserPass(creds, input, pos) == Step(Ok(ok), AuthReply(ok), pos + 3 + |user| + |pass|)
  {
    UserPassFields(user, pass, input, pos);
    UserPassBranch(creds, user, pass, input, pos, pos + 2 + |user|, pos + 3 + |user| + |pass|);
  }

  /** The two length-prefixed fields of an encoded sub-negotiation
      request read back as the user name and the password. */
  lemma UserPassFields(user: seq<Byte>, pass: seq<Byte>, input: seq<Byte>, pos: nat)
    requires |user| < 256 && |pass| < 256
    requires pos + 3 + |user| + |pass| <= |input|
    requires input[pos..pos + 3 + |user| + |pass|] == EncodeUserPass(user, pass)
    ensures input[pos] == 1
    ensures LengthPrefixed(input, pos + 1) == Step(Ok(user), [], pos + 2 + |user|)
    ensures LengthPrefixed(input, pos + 2 + |user|) == Step(Ok(pass), [], pos + 3 + |user| + |pass|)
  {
    UserPassLayout(user, pass, input, pos);
    LengthPrefixedRoundTrip(user, input, pos + 1);
    LengthPrefixedRoundTrip(pass, input, pos + 2 + |user|);
  }

  /** Where the fields of an encoded sub-negotiation request lie. */
  lemma UserPassLayout(user: seq<Byte>, pass: seq<Byte>, input: seq<Byte>, pos: nat)
    requires |user| < 256 && |pass| < 256
    requires pos + 3 + |user| + |pass| <= |input|
    requires input[pos..pos + 3 + |user| + |pass|] == EncodeUserPass(user, pass)
    ensures input[pos] == 1
    ensures input[pos + 1..pos + 2 + |user|] == [LowByte(|user|)] + user
    ensures input[pos + 2 + |user|..pos + 3 + |user| + |pass|] == [LowByte(|pass|)] + pass
  {
    var e := EncodeUserPass(user, pass);
    var u, p := |user|, |pass|;
    var fu, fp := [LowByte(u)] + user, [LowByte(p)] + pass;
    assert e == [1] + fu + fp;
    assert e[1..2 + u] == fu && e[2 + u..3 + u + p] == fp;
    SliceByte(input, pos, e, 0);
    SliceRange(input, pos, e, 1, 2 + u);
    SliceRange(input, pos, e, 2 + u, 3 + u + p);
  }

  /** The sub-version 1 branch of the sub-negotiation, once both fields
      have been read. */
  lemma UserPassBranch(creds: Credentials, user: seq<Byte>, pass: seq<Byte>, input: seq<Byte>, pos: nat, q1: nat, q2: nat)
    requires pos < |input| && input[pos] == 1 && q1 <= |input|
    requires LengthPrefixed(input, pos + 1) == Step(Ok(user), [], q1)
    requires LengthPrefixed(input, q1) == Step(Ok(pass), [], q2)
    ensures var ok := user == creds.username && pass == creds.password;
            UserPass(creds, input, pos) == Step(Ok(ok), AuthReply(ok), q2)
  {
    assert ByteAt(input, pos) == 1;
  }

  /*********************************************************************
   * Requests
   *********************************************************************/

  /** The two port bytes after the address: fewer than two make
      `ByteBuffer.getShort` raise. */
  function PortThen(input: seq<Byte>, pos: nat, cmd: Byte, host: Host): (s: Step<Option<Request>>)
    requires pos <= |input|
    ensures s.written == [] && pos <= s.pos <= |input|
    ensures s.result.Ok? <==> pos + 2 <= |input|
    ensures s.result.Raised? ==> s.result.fault == BufferUnderflow
    ensures s.result.Ok? ==>
              (s.pos == pos + 2 && s.result == Ok(Some(Request(cmd, host, PortOf(input[pos], input[pos + 1])))))
  {
    var pb := Take(input, pos, 2);
    var q := pos + |pb|;
    if |pb| < 2 then Step(Raised(BufferUnderflow), [], q)
    else Step(Ok(Some(Request(cmd, host, PortOf(pb[0], pb[1])))), [], q)
  }

  /** An n-byte address through `getByAddress`, then the port. */
  function AddressThenPort(input: seq<Byte>, pos: nat, n: nat, cmd: Byte): (s: Step<Option<Request>>)
    requires pos <= |input| && (n == 4 || n == 16)
    ensures s.written == [] && pos <= s.pos <= |input|
    ensures pos + n <= |input| ==> s == PortThen(input, pos + n, cmd, Address(AddressOf(input[pos..pos + n]).value))
    ensures pos + n > |input| && |input| - pos != 4 ==> s == Step(Raised(UnknownHost), [], |input|)
  {
    var raw := Take(input, pos, n);
    var q := pos + |raw|;
    match AddressOf(raw)
    case Raised(f) => Step(Raised(f), [], q)
    case Ok(a) => PortThen(input, q, cmd, Address(a))
  }

  /** `parseRequest`: the 4-byte header (VER and RSV are never checked),
      then the address by ATYP (1: four bytes, 3: a length byte and that
      many name bytes, 4: sixteen bytes), then the port. A header read
      shorter than four bytes, or another ATYP, gives no request. */
  function ParseRequest(input: seq<Byte>, pos: nat): (s: Step<Option<Request>>)
    requires pos <= |input|
    ensures s.written == [] && pos <= s.pos <= |input|
    ensures s.result == Ok(None) <==> pos + 4 > |input| || input[pos + 3] !in {1, 3, 4}
    ensures s.result.Ok? && s.result.value.Some? ==>
              s.result.value.value.cmd == input[pos + 1] && 0 <= s.result.value.value.port < 65536
    ensures s.result.Ok? && s.result.value.Some? && input[pos + 3] == 1 ==> s.pos == pos + 10
    ensures s.result.Ok? && s.result.value.Some? && input[pos + 3] == 4 ==> s.pos == pos + 22
    ensures s.result.Ok? && s.result.value.Some? && input[pos + 3] == 3 ==>
              pos + 4 < |input| && s.pos == pos + 7 + input[pos + 4] as int
  {
    if |input| - pos < 4 then Step(Ok(None), [], |input|)
    else
      var cmd, atyp := input[pos + 1], input[pos + 3];
      var p := pos + 4;
      if atyp == 1 then AddressThenPort(input, p, 4, cmd)
      else if atyp == 3 then
        var l := ByteAt(input, p);
        var p1 := Next(input, p);
        if l < 0 then Step(Raised(IllegalArgument), [], p1)
        else
          var name := Take(input, p1, l);
          PortThen(input, p1 + |name|, cmd, Domain(name))
      else if atyp == 4 then AddressThenPort(input, p, 16, cmd)
      else Step(Ok(None), [], p)
  }

  /** A request a client can send: the port in range, an address of four
      bytes or of sixteen that is not IPv4-mapped (which would come back as
      four), a name of fewer than 256 bytes. */
  predicate WellFormed(req: Request)
  {
    && 0 <= req.port < 65536
    && match req.host
       case Address(a) => |a| == 4 || (|a| == 16 && !IsV4Mapped(a))
       case Domain(n) => |n| < 256
  }

  /** The request bytes a client sends (section 4 of RFC 1928), with any
      version and reserved byte. */
  function EncodeRequest(ver: Byte, rsv: Byte, req: Request): (s: seq<Byte>)
    requires WellFormed(req)
    ensures |s| >= 7 && s[1] == req.cmd
  {
    var addr := match req.host
      case Address(a) => [if |a| == 4 then 1 else 4] + a
      case Domain(n) => [3, LowByte(|n|)] + n;
    [ver, req.cmd, rsv] + addr + PortBytes(req.port)
  }

  /** Every well-formed request, whatever its version and reserved bytes,
      parses back to itself and is consumed exactly. */
  lemma RequestRoundTrip(ver: Byte, rsv: Byte, req: Request, input: seq<Byte>, pos: nat)
    requires WellFormed(req)
    requires pos + |EncodeRequest(ver, rsv, req)| <= |input|
    requires input[pos..pos + |EncodeRequest(ver, rsv, req)|] == EncodeRequest(ver, rsv, req)
    ensures ParseRequest(input, pos) == Step(Ok(Some(req)), [], pos + |EncodeRequest(ver, rsv, req)|)
  {
    if req.host.Address? {
      AddressRoundTrip(ver, rsv, req, input, pos);
    } else {
      DomainRoundTrip(ver, rsv, req, input, pos);
    }
  }

  lemma AddressRoundTrip(ver: Byte, rsv: Byte, req: Request, input: seq<Byte>, pos: nat)
    requires WellFormed(req) && req.host.Address?
    requires pos + |EncodeRequest(ver, rsv, req)| <= |input|
    requires input[pos..pos + |EncodeRequest(ver, rsv, req)|] == EncodeRequest(ver, rsv, req)
    ensures ParseRequest(input, pos) == Step(Ok(Some(req)), [], pos + |EncodeRequest(ver, rsv, req)|)
  {
    AddressLayout(ver, rsv, req, input, pos);
    AddressRequest(req, input, pos);
  }

  /** Where the fields of an encoded address request sit in the input. */
  lemma AddressLayout(ver: Byte, rsv: Byte, req: Request, input: seq<Byte>, pos: nat)
    requires WellFormed(req) && req.host.Address?
    requires pos + |EncodeRequest(ver, rsv, req)| <= |input|
    requires input[pos..pos + |EncodeRequest(ver, rsv, req)|] == EncodeRequest(ver, rsv, req)
    ensures var n := |req.host.addr|;
            && |EncodeRequest(ver, rsv, req)| == 6 + n
            && input[pos + 1] == req.cmd && input[pos + 3] == (if n == 4 then 1 else 4)
            && input[pos + 4..pos + 4 + n] == req.host.addr
            && PortOf(input[pos + 4 + n], input[pos + 5 + n]) == req.port
  {
    var e := EncodeRequest(ver, rsv, req);
    var pb := PortBytes(req.port);
    var a := req.host.addr;
    var n := |a|;
    assert e == [ver, req.cmd, rsv, if n == 4 then 1 else 4] + a + pb;
    assert e[1] == req.cmd && e[3] == (if n == 4 then 1 else 4);
    assert e[4..4 + n] == a && e[4 + n] == pb[0] && e[5 + n] == pb[1];
    SliceByte(input, pos, e, 1);
    SliceByte(input, pos, e, 3);
    SliceRange(input, pos, e, 4, 4 + n);
    SliceByte(input, pos, e, 4 + n);
    SliceByte(input, pos, e, 5 + n);
    PortBytesRead(req.port);
  }

  lemma DomainRoundTrip(ver: Byte, rsv: Byte, req: Request, input: seq<Byte>, pos: nat)
    requires WellFormed(req) && req.host.Domain?
    requires pos + |EncodeRequest(ver, rsv, req)| <= |input|
    requires input[pos..pos + |EncodeRequest(ver, rsv, req)|] == EncodeRequest(ver, rsv, req)
    ensures ParseRequest(input, pos) == Step(Ok(Some(req)), [], pos + |EncodeRequest(ver, rsv, req)|)
  {
    DomainLayout(ver, rsv, req, input, pos);
    DomainRequest(req, input, pos);
  }

  /** Where the fields of an encoded domain request sit in the input. */
  lemma DomainLayout(ver: Byte, rsv: Byte, req: Request, input: seq<Byte>, pos: nat)
    requires WellFormed(req) && req.host.Domain?
    requires pos + |EncodeRequest(ver, rsv, req)| <= |input|
    requires input[pos..pos + |EncodeRequest(ver, rsv, req)|] == EncodeRequest(ver, rsv, req)
    ensures var n := |req.host.name|;
            && |EncodeRequest(ver, rsv, req)| == 7 + n
            && input[pos + 1] == req.cmd && input[pos + 3] == 3 && input[pos + 4] as int == n
            && input[pos + 5..pos + 5 + n] == req.host.name
            && PortOf(input[pos + 5 + n], input[pos + 6 + n]) == req.port
  {
    var e := EncodeRequest(ver, rsv, req);
    var pb := PortBytes(req.port);
    var name := req.host.name;
    var n := |name|;
    assert e == [ver, req.cmd, rsv, 3, LowByte(n)] + name + pb;
    assert e[1] == req.cmd && e[3] == 3 && e[4] == LowByte(n);
    assert e[5..5 + n] == name && e[5 + n] == pb[0] && e[6 + n] == pb[1];
    SliceByte(input, pos, e, 1);
    SliceByte(input, pos, e, 3);
    SliceByte(input, pos, e, 4);
    LowByteSmall(n);
    SliceRange(input, pos, e, 5, 5 + n);
    SliceByte(input, pos, e, 5 + n);
    SliceByte(input, pos, e, 6 + n);
    PortBytesRead(req.port);
  }

  lemma AddressRequest(req: Request, input: seq<Byte>, pos: nat)
    requires WellFormed(req) && req.host.Address?
    requires var n := |req.host.addr|;
             && pos + 6 + n <= |input|
             && input[pos + 1] == req.cmd && input[pos + 3] == (if n == 4 then 1 else 4)
             && input[pos + 4..pos + 4 + n] == req.host.addr
             && PortOf(input[pos + 4 + n], input[pos + 5 + n]) == req.port
    ensures ParseRequest(input, pos) == Step(Ok(Some(req)), [], pos + 6 + |req.host.addr|)
  {
    FillAvailable(input, pos + 4, |req.host.addr|);
  }

  lemma DomainRequest(req: Request, input: seq<Byte>, pos: nat)
    requires WellFormed(req) && req.host.Domain?
    requires var n := |req.host.name|;
             && pos + 7 + n <= |input|
             && input[pos + 1] == req.cmd && input[pos + 3] == 3 && input[pos + 4] as int == n
             && input[pos + 5..pos + 5 + n] == req.host.name
             && PortOf(input[pos + 5 + n], input[pos + 6 + n]) == req.port
    ensures ParseRequest(input, pos) == Step(Ok(Some(req)), [], pos + 7 + |req.host.name|)
  {
    FillAvailable(input, pos + 5, |req.host.name|);
    DomainBranch(input, pos, req);
  }

  /** The ATYP 3 branch of the parse, once the name has been read. */
  lemma DomainBranch(input: seq<Byte>, pos: nat, req: Request)
    requires req.host.Domain? && pos + 5 <= |input| && input[pos + 3] == 3 && input[pos + 1] == req.cmd
    requires Take(input, pos + 5, input[pos + 4] as int) == req.host.name && pos + 7 + |req.host.name| <= |input|
    requires PortOf(input[pos + 5 + |req.host.name|], input[pos + 6 + |req.host.name|]) == req.port
    ensures ParseRequest(input, pos) == Step(Ok(Some(req)), [], pos + 7 + |req.host.name|)
  {
    assert ByteAt(input, pos + 4) == input[pos + 4] as int;
    assert req == Request(req.cmd, Domain(req.host.name), req.port);
  }

  lemma PortBytesRead(port: int)
    requires 0 <= port < 65536
    ensures PortOf(PortBytes(port)[0], PortBytes(port)[1]) == port
  {
    PortRoundTrip(port);
  }

  /*********************************************************************
   * Dispatch and the whole session
   *********************************************************************/

  /** The client address handed to `onAuthFailed`, if that callback is set. */
  function Report(env: Env): (r: Option<string>)
    ensures r.Some? <==> env.onAuthFailed
  {
    if env.onAuthFailed then Some(env.clientIp) else None
  }

  /** After a request: CONNECT without a socket factory answers REP 1;
      a failed connect raises; a successful one answers with the local
      address and bridges. UDP ASSOCIATE without a starter answers REP 7;
      a starter that raises ends the session; otherwise the reply carries
      the relay's address and the control connection is read to its end.
      Any other command answers REP 7. */
  function Dispatch(env: Env, input: seq<Byte>, pos: nat, req: Request): (s: SessionRun)
    requires pos <= |input|
    ensures s.reported == None && pos <= s.pos <= |input|
    ensures s.outcome.Closed? ==> s.written == ErrorReply(if req.cmd == 1 then 1 else 7)
    ensures s.outcome.Failed? ==> s.written == []
    ensures s.outcome.Bridged? ==> req.cmd == 1 && s.written == SuccessReply(env.localAddr, env.localPort)
    ensures s.outcome.UdpEnded? ==> req.cmd == 3 && s.pos == |input|
    ensures req.cmd == 1 && env.egress.None? ==> s.outcome == Closed
    ensures req.cmd == 3 && env.udpStarter.None? ==> s.outcome == Closed
    ensures req.cmd != 1 && req.cmd != 3 ==> s.outcome == Closed
    ensures req.cmd == 1 && env.egress.Some? && env.egress.value(req.host, req.port)
            ==> s.outcome == Bridged(env.bridge(input[pos..])) && s.pos == |input|
    ensures req.cmd == 1 && env.egress.Some? && !env.egress.value(req.host, req.port)
            ==> s.outcome == Failed(ConnectFailed)
    ensures req.cmd == 3 && env.udpStarter.Some? && env.udpStarter.value(env.localAddr, 0).Some?
            ==> s.outcome == UdpEnded
                && s.written == SuccessReply(env.udpStarter.value(env.localAddr, 0).value.0, env.udpStarter.value(env.localAddr, 0).value.1)
    ensures req.cmd == 3 && env.udpStarter.Some? && env.udpStarter.value(env.localAddr, 0).None?
            ==> s.outcome == Failed(BindFailed)
  {
    if req.cmd == 1 then
      match env.egress
      case None => SessionRun(ErrorReply(1), Closed, None, pos)
      case Some(connect) =>
        if !connect(req.host, req.port) then SessionRun([], Failed(ConnectFailed), None, pos)
        else SessionRun(SuccessReply(env.localAddr, env.localPort), Bridged(env.bridge(input[pos..])), None, |input|)
    else if req.cmd == 3 then
      match env.udpStarter
      case None => SessionRun(ErrorReply(7), Closed, None, pos)
      case Some(start) =>
        match start(env.localAddr, 0)
        case None => SessionRun([], Failed(BindFailed), None, pos)
        case Some(bound) => SessionRun(SuccessReply(bound.0, bound.1), UdpEnded, None, |input|)
    else SessionRun(ErrorReply(7), Closed, None, pos)
  }

  /** The request phase after negotiation: no reply at all unless a
      request was parsed. */
  function RequestPhase(env: Env, input: seq<Byte>, pos: nat): (s: SessionRun)
    requires pos <= |input|
    ensures s.reported == None && s.pos <= |input|
    ensures s.written != [] ==> ParseRequest(input, pos).result.Ok? && ParseRequest(input, pos).result.value.Some?
  {
    var p := ParseRequest(input, pos);
    match p.result
    case Raised(f) => SessionRun([], Failed(f), None, p.pos)
    case Ok(None) => SessionRun([], Closed, None, p.pos)
    case Ok(Some(req)) => Dispatch(env, input, p.pos, req)
  }

  /** A later part of the session, after `out` has been written. */
  function After(out: seq<Byte>, s: SessionRun): SessionRun
  {
    s.(written := out + s.written)
  }

  /** `handle()` on a client whose bytes are `input`. */
  function Run(env: Env, input: seq<Byte>): (s: SessionRun)
    ensures s.pos <= |input|
  {
    var g := Greeting(env.auth, input);
    match g.result
    case Raised(f) => SessionRun(g.written, Failed(f), None, g.pos)
    case Ok(None) => SessionRun(g.written, Closed, None, g.pos)
    case Ok(Some(chosen)) =>
      if chosen == 0xFF then SessionRun(g.written, Closed, None, g.pos)
      else if chosen == 2 then After(g.written, AuthPhase(env, input, g.pos))
      else After(g.written, RequestPhase(env, input, g.pos))
  }

  /** The rest of `handle()` once method 2 was chosen: the
      sub-negotiation, then, if it succeeded, the request. */
  function AuthPhase(env: Env, input: seq<Byte>, pos: nat): (s: SessionRun)
    requires pos <= |input| && env.auth.Some?
    ensures s.pos <= |input|
  {
    var a := UserPass(env.auth.value, input, pos);
    match a.result
    case Raised(f) => SessionRun(a.written, Failed(f), None, a.pos)
    case Ok(false) => SessionRun(a.written, Closed, Report(env), a.pos)
    case Ok(true) => After(a.written, RequestPhase(env, input, a.pos))
  }

  /*********************************************************************
   * What a session does
   *********************************************************************/

  /** A first byte other than 5 (or none at all) ends the session with
      nothing written, after reading that one byte. */
  lemma WrongVersion(env: Env, input: seq<Byte>)
    requires |input| == 0 || input[0] != 5
    ensures Run(env, input) == SessionRun([], Closed, None, if |input| == 0 then 0 else 1)
    ensures Returned(Run(env, input).outcome) == Transfer(0, 0)
  {
  }

  /** After a version byte 5 and NMETHODS, the first two bytes written are
      always [5, m] for the method m chosen from the offered ones; after
      m = 0xFF nothing more is read than the offered methods, and nothing
      more is written. */
  lemma MethodReply(env: Env, input: seq<Byte>)
    requires |input| >= 2 && input[0] == 5
    ensures var m := ChooseMethod(env.auth, Fill(input, 2, input[1] as int));
            var s := Run(env, input);
            && |s.written| >= 2 && s.written[..2] == [5, m]
            && (m == 0xFF ==> s == SessionRun([5, 0xFF], Closed, None, 2 + |Take(input, 2, input[1] as int)|))
  {
    var g := Greeting(env.auth, input);
    var m := ChooseMethod(env.auth, Fill(input, 2, input[1] as int));
    assert g == Step(Ok(Some(m)), [5, m], 2 + |Take(input, 2, input[1] as int)|);
    var s := Run(env, input);
    if m != 0xFF && m != 2 {
      assert s == After([5, m], RequestPhase(env, input, g.pos));
    } else if m == 2 {
      assert s == After([5, m], AuthPhase(env, input, g.pos));
    }
  }

  /** A failed authentication (a wrong sub-version, or credentials that do
      not match) ends the session right after the sub-negotiation: it is
      reported to `onAuthFailed` (when set) with the client address, no
      request is read and nothing is written after the status reply. */
  lemma AuthFailureEndsSession(env: Env, input: seq<Byte>)
    requires Greeting(env.auth, input).result == Ok(Some(2))
    requires UserPass(env.auth.value, input, Greeting(env.auth, input).pos).result == Ok(false)
    ensures var a := UserPass(env.auth.value, input, Greeting(env.auth, input).pos);
            Run(env, input) == SessionRun([5, 2] + a.written, Closed, Report(env), a.pos)
    ensures Run(env, input).written == [5, 2] || Run(env, input).written == [5, 2, 1, 1]
  {
  }

  /** `onAuthFailed` is called exactly when it is set and authentication
      failed, and only ever with the client address. */
  lemma ReportedIffAuthFailed(env: Env, input: seq<Byte>)
    ensures Run(env, input).reported.Some? <==>
              && env.onAuthFailed
              && Greeting(env.auth, input).result == Ok(Some(2))
              && UserPass(env.auth.value, input, Greeting(env.auth, input).pos).result == Ok(false)
    ensures Run(env, input).reported.Some? ==> Run(env, input).reported == Some(env.clientIp)
  {
    var g := Greeting(env.auth, input);
    if g.result.Ok? && g.result.value.Some? && g.result.value.value != 0xFF {
      if g.result.value.value == 2 {
        var a := UserPass(env.auth.value, input, g.pos);
        if a.result == Ok(true) {
          assert Run(env, input).reported == RequestPhase(env, input, a.pos).reported;
        }
      } else {
        assert Run(env, input) == After(g.written, RequestPhase(env, input, g.pos));
      }
    }
  }

  /** With credentials configured, no request is answered, bridged or
      relayed unless the client authenticated with them. */
  lemma NoServiceWithoutAuth(env: Env, input: seq<Byte>)
    requires env.auth.Some?
    requires |Run(env, input).written| > 4 || Run(env, input).outcome.Bridged? || Run(env, input).outcome.UdpEnded?
    ensures Greeting(env.auth, input).result == Ok(Some(2))
    ensures UserPass(env.auth.value, input, Greeting(env.auth, input).pos).result == Ok(true)
  {
    var g := Greeting(env.auth, input);
    var s := Run(env, input);
    assert g.result.Ok? && g.result.value.Some?;
  }

  /*********************************************************************
   * The exchanges of the unit tests
   *********************************************************************/

  /** No credentials, the client offers method 0 and sends nothing else:
      the reply is 05 00 and the session closes for want of a request. */
  lemma NoAuthExchange(env: Env)
    requires env.auth.None?
    ensures Run(env, [5, 1, 0]) == SessionRun([5, 0], Closed, None, 3)
  {
    var input: seq<Byte> := [5, 1, 0];
    assert Fill(input, 2, 1) == [0];
  }

  /** Credentials configured, the client offers method 2 and sends
      nothing else: the reply is 05 02, and the sub-negotiation reads -1
      for its version, so it fails without a status reply. */
  lemma UserPassOfferedExchange(env: Env)
    requires env.auth.Some?
    ensures Run(env, [5, 1, 2]) == SessionRun([5, 2], Closed, Report(env), 3)
  {
    var input: seq<Byte> := [5, 1, 2];
    assert Fill(input, 2, 1) == [2];
  }

  const User: seq<Byte> := [0x75, 0x73, 0x65, 0x72]
  const Pass: seq<Byte> := [0x70, 0x61, 0x73, 0x73]
  const Wrong: seq<Byte> := [0x77, 0x72, 0x6f, 0x6e, 0x67]

  /** user/pass against user/pass: 05 02 then 01 00, and no request follows. */
  lemma UserPassAcceptedExchange(env: Env)
    requires env.auth == Some(Credentials(User, Pass))
    ensures Run(env, [5, 1, 2] + EncodeUserPass(User, Pass)).written == [5, 2, 1, 0]
    ensures Run(env, [5, 1, 2] + EncodeUserPass(User, Pass)).outcome == Closed
  {
    var input := [5, 1, 2] + EncodeUserPass(User, Pass);
    assert Fill(input, 2, 1) == [2];
    assert Greeting(env.auth, input) == Step(Ok(Some(2)), [5, 2], 3);
    assert input[3..3 + |EncodeUserPass(User, Pass)|] == EncodeUserPass(User, Pass);
    UserPassRoundTrip(env.auth.value, User, Pass, input, 3);
    AuthenticatedThen(env, input, [5, 2], [1, 0], |input|);
    assert [5, 2] + [1, 0] + [] == [5, 2, 1, 0];
    assert RequestPhase(env, input, |input|) == SessionRun([], Closed, None, |input|);
  }

  lemma AuthenticatedThen(env: Env, input: seq<Byte>, gw: seq<Byte>, aw: seq<Byte>, q: nat)
    requires |input| >= 3 && q <= |input| && env.auth.Some?
    requires Greeting(env.auth, input) == Step(Ok(Some(2)), gw, 3)
    requires UserPass(env.auth.value, input, 3) == Step(Ok(true), aw, q)
    ensures Run(env, input) == After(gw + aw, RequestPhase(env, input, q))
  {
    RunWithMethod2(env, input, gw);
    AuthAccepted(env, input, 3, aw, q);
    AfterAfter(gw, aw, RequestPhase(env, input, q));
  }

  lemma RunWithMethod2(env: Env, input: seq<Byte>, gw: seq<Byte>)
    requires |input| >= 3 && env.auth.Some?
    requires Greeting(env.auth, input) == Step(Ok(Some(2)), gw, 3)
    ensures Run(env, input) == After(gw, AuthPhase(env, input, 3))
  {
  }

  lemma AuthAccepted(env: Env, input: seq<Byte>, pos: nat, aw: seq<Byte>, q: nat)
    requires pos <= q <= |input| && env.auth.Some?
    requires UserPass(env.auth.value, input, pos) == Step(Ok(true), aw, q)
    ensures AuthPhase(env, input, pos) == After(aw, RequestPhase(env, input, q))
  {
  }

  lemma AfterAfter(a: seq<Byte>, b: seq<Byte>, s: SessionRun)
    ensures After(a, After(b, s)) == After(a + b, s)
  {
    assert a + (b + s.written) == (a + b) + s.written;
  }

  /** user/wrong against user/pass: 05 02 then 01 01, reported. */
  lemma UserPassRejectedExchange(env: Env)
    requires env.auth == Some(Credentials(User, Pass))
    ensures Run(env, [5, 1, 2] + EncodeUserPass(User, Wrong))
         == SessionRun([5, 2, 1, 1], Closed, Report(env), 3 + |EncodeUserPass(User, Wrong)|)
  {
    var input := [5, 1, 2] + EncodeUserPass(User, Wrong);
    assert Fill(input, 2, 1) == [2];
    assert Greeting(env.auth, input) == Step(Ok(Some(2)), [5, 2], 3);
    assert input[3..3 + |EncodeUserPass(User, Wrong)|] == EncodeUserPass(User, Wrong);
    assert Wrong != Pass by { assert |Wrong| != |Pass|; }
    UserPassRoundTrip(env.auth.value, User, Wrong, input, 3);
    assert UserPass(env.auth.value, input, 3) == Step(Ok(false), [1, 1], 3 + |EncodeUserPass(User, Wrong)|);
  }

  const Loopback: seq<Byte> := [127, 0, 0, 1]
  const Localhost: seq<Byte> := [0x6c, 0x6f, 0x63, 0x61, 0x6c, 0x68, 0x6f, 0x73, 0x74]

  /** With no credentials, a client that offers method 0 and then sends a
      well-formed request gets 05 00 followed by what the dispatch of that
      request writes. */
  lemma NoAuthRequest(env: Env, req: Request)
    requires env.auth.None? && WellFormed(req)
    ensures var input := [5, 1, 0] + EncodeRequest(5, 0, req);
            Run(env, input) == After([5, 0], Dispatch(env, input, |input|, req))
  {
    var e := EncodeRequest(5, 0, req);
    var input := [5, 1, 0] + e;
    assert Fill(input, 2, 1) == [0];
    assert input[3..3 + |e|] == e;
    RequestRoundTrip(5, 0, req, input, 3);
    assert Greeting(env.auth, input) == Step(Ok(Some(0)), [5, 0], 3);
    NoAuthThenRequest(env, input, req, |input|);
  }

  lemma NoAuthThenRequest(env: Env, input: seq<Byte>, req: Request, q: nat)
    requires |input| >= 3 && q <= |input|
    requires Greeting(env.auth, input) == Step(Ok(Some(0)), [5, 0], 3)
    requires ParseRequest(input, 3) == Step(Ok(Some(req)), [], q)
    ensures Run(env, input) == After([5, 0], Dispatch(env, input, q, req))
  {
    assert RequestPhase(env, input, 3) == Dispatch(env, input, q, req);
  }

  /** The CONNECT exchanges of the unit tests (127.0.0.1:1080 and
      localhost:1080): the success reply with the local IPv4 address, then
      the bridge. The whole output begins with the method reply 05 00, so
      the request reply starts at its third byte. */
  lemma ConnectExchange(env: Env, host: Host)
    requires env.auth.None? && |env.localAddr| == 4
    requires host == Address(Loopback) || host == Domain(Localhost)
    requires env.egress.Some? && env.egress.value(host, 1080)
    ensures var s := Run(env, [5, 1, 0] + EncodeRequest(5, 0, Request(1, host, 1080)));
            && s.written == [5, 0] + SuccessReply(env.localAddr, env.localPort)
            && s.written[2..6] == [5, 0, 0, 1]
            && s.outcome == Bridged(env.bridge([]))
  {
    var req := Request(1, host, 1080);
    var input := [5, 1, 0] + EncodeRequest(5, 0, req);
    NoAuthRequest(env, req);
    assert input[|input|..] == [];
    var r := SuccessReply(env.localAddr, env.localPort);
    assert Dispatch(env, input, |input|, req) == SessionRun(r, Bridged(env.bridge([])), None, |input|);
    assert ([5, 0] + r)[2..6] == r[..4];
  }

  /** UDP ASSOCIATE with a relay that starts: 05 00, then the success reply
      carrying the relay's bound address and port, which a client decodes
      back; the control connection is then read to its end. */
  lemma UdpAssociateExchange(env: Env, host: Host, port: int, bound: (seq<Byte>, int))
    requires env.auth.None? && WellFormed(Request(3, host, port))
    requires |bound.0| == 4 || |bound.0| == 16
    requires env.udpStarter.Some? && env.udpStarter.value(env.localAddr, 0) == Some(bound)
    ensures var input := [5, 1, 0] + EncodeRequest(5, 0, Request(3, host, port));
            var s := Run(env, input);
            && s.written == [5, 0] + SuccessReply(bound.0, bound.1)
            && s.outcome == UdpEnded && s.pos == |input|
            && DecodeReply(s.written[2..]) == Some((0, bound.0, bound.1 % 65536))
  {
    var input := [5, 1, 0] + EncodeRequest(5, 0, Request(3, host, port));
    NoAuthRequest(env, Request(3, host, port));
    var r := SuccessReply(bound.0, bound.1);
    assert ([5, 0] + r)[2..] == r;
    SuccessReplyDecodes(bound.0, bound.1);
  }

  /** The BIND exchange of the unit tests: 05 00, then REP 7. */
  lemma BindExchange(env: Env)
    requires env.auth.None?
    ensures Run(env, [5, 1, 0] + EncodeRequest(5, 0, Request(2, Address(Loopback), 1080))).written
         == [5, 0] + ErrorReply(7)
  {
    NoAuthRequest(env, Request(2, Address(Loopback), 1080));
  }

  lemma Associative(a: seq<Byte>, b: seq<Byte>, c: seq<Byte>)
    ensures (a + b) + c == a + (b + c)
  {
  }

  /*********************************************************************
   * The session, step by step
   *********************************************************************/

  class Session {
    const conn: Conn
    const env: Env
    /** The client addresses `onAuthFailed` has been called with. */
    var authFailures: seq<string>

    constructor (conn: Conn, env: Env)
      ensures this.conn == conn && this.env == env && authFailures == []
    {
      this.conn := conn;
      this.env := env;
      authFailures := [];
    }

    /** `handle()`: runs the whole session and closes the client, whatever
      happens. */
    method Handle() returns (t: Transfer)
      requires conn.Valid() && conn.pos == 0
      modifies conn, this`authFailures
      ensures conn.Valid() && conn.closed
      ensures var s := Run(env, conn.input);
              && conn.output == old(conn.output) + s.written
              && conn.pos == s.pos
              && t == Returned(s.outcome)
              && authFailures == old(authFailures) + (if s.reported.Some? then [s.reported.value] else [])
    {
      ghost var g := Greeting(env.auth, conn.input);
      var greeting := Negotiate();
      if greeting.Raised? || greeting.value.None? || greeting.value.value == 0xFF {
        conn.Close();
        return Transfer(0, 0);
      }
      ghost var mid := conn.output;
      ghost var r: SessionRun;
      if greeting.value.value == 2 {
        r := AuthPhase(env, conn.input, conn.pos);
        t := AuthenticateThenServe();
      } else {
        r := RequestPhase(env, conn.input, conn.pos);
        t := ServeRequest();
      }
      conn.Close();
      assert Run(env, conn.input) == After(g.written, r);
      Associative(old(conn.output), g.written, r.written);
    }

    /** The rest of `handle()` after method 2 was chosen. */
    method AuthenticateThenServe() returns (t: Transfer)
      requires conn.Valid() && env.auth.Some?
      modifies conn`pos, conn`output, this`authFailures
      ensures conn.Valid()
      ensures var r := AuthPhase(env, conn.input, old(conn.pos));
              && conn.output == old(conn.output) + r.written && conn.pos == r.pos && t == Returned(r.outcome)
              && authFailures == old(authFailures) + (if r.reported.Some? then [r.reported.value] else [])
    {
      ghost var a := UserPass(env.auth.value, conn.input, conn.pos);
      var ok := HandleUserPass(env.auth.value);
      if ok.Raised? {
        return Transfer(0, 0);
      }
      if !ok.value {
        if env.onAuthFailed {
          authFailures := authFailures + [env.clientIp];
        }
        return Transfer(0, 0);
      }
      ghost var mid := conn.output;
      ghost var r := RequestPhase(env, conn.input, conn.pos);
      t := ServeRequest();
      Associative(old(conn.output), a.written, r.written);
    }

    /** The REQUEST part of `handle()`: parse, then answer the command. */
    method ServeRequest() returns (t: Transfer)
      requires conn.Valid()
      modifies conn`pos, conn`output
      ensures conn.Valid()
      ensures var r := RequestPhase(env, conn.input, old(conn.pos));
              conn.output == old(conn.output) + r.written && conn.pos == r.pos && t == Returned(r.outcome)
    {
      ghost var r := RequestPhase(env, conn.input, conn.pos);
      var req := ReadRequest();
      if req.Raised? || req.value.None? {
        return Transfer(0, 0);
      }
      var o := Respond(req.value.value);
      return Returned(o);
    }

    /** The method negotiation at the head of `handle()`. */
    method Negotiate() returns (chosen: Res<Option<Byte>>)
      requires conn.Valid() && conn.pos == 0
      modifies conn`pos, conn`output
      ensures conn.Valid()
      ensures var g := Greeting(env.auth, conn.input);
              chosen == g.result && conn.pos == g.pos && conn.output == old(conn.output) + g.written
    {
      var ver := conn.Read();
      if ver != 5 {
        return Ok(None);
      }
      var n := conn.Read();
      if n < 0 {
        return Raised(NegativeArraySize);
      }
      var count, methods := conn.ReadInto(n);
      var m := ChooseMethod(env.auth, methods);
      conn.Write([5, m]);
      return Ok(Some(m));
    }

    /** `handleUserPass`. */
    method HandleUserPass(creds: Credentials) returns (ok: Res<bool>)
      requires conn.Valid()
      modifies conn`pos, conn`output
      ensures conn.Valid()
      ensures var a := UserPass(creds, conn.input, old(conn.pos));
              ok == a.result && conn.pos == a.pos && conn.output == old(conn.output) + a.written
    {
      var v := conn.Read();
      if v != 1 {
        return Ok(false);
      }
      var user := conn.ReadField();
      if user.Raised? {
        return Raised(user.fault);
      }
      var pass := conn.ReadField();
      if pass.Raised? {
        return Raised(pass.fault);
      }
      var matched := user.value == creds.username && pass.value == creds.password;
      conn.Write(AuthReply(matched));
      return Ok(matched);
    }

    /** `parseRequest(inp)` on the live stream. */
    method ReadRequest() returns (r: Res<Option<Request>>)
      requires conn.Valid()
      modifies conn`pos
      ensures conn.Valid()
      ensures var s := ParseRequest(conn.input, old(conn.pos)); r == s.result && conn.pos == s.pos
    {
      var count, header := conn.ReadInto(4);
      if count != 4 {
        return Ok(None);
      }
      var cmd, atyp := header[1], header[3];
      if atyp == 1 {
        r := ReadAddressThenPort(4, cmd);
      } else if atyp == 3 {
        var l := conn.Read();
        var name := conn.ReadNBytes(l);
        if name.Raised? {
          return Raised(name.fault);
        }
        r := ReadPort(cmd, Domain(name.value));
      } else if atyp == 4 {
        r := ReadAddressThenPort(16, cmd);
      } else {
        return Ok(None);
      }
    }

    /** An n-byte address through `getByAddress`, then the port. */
    method ReadAddressThenPort(n: nat, cmd: Byte) returns (r: Res<Option<Request>>)
      requires conn.Valid() && (n == 4 || n == 16)
      modifies conn`pos
      ensures conn.Valid()
      ensures var s := AddressThenPort(conn.input, old(conn.pos), n, cmd); r == s.result && conn.pos == s.pos
    {
      var raw := conn.ReadNBytes(n);
      var a := AddressOf(raw.value);
      if a.Raised? {
        return Raised(a.fault);
      }
      r := ReadPort(cmd, Address(a.value));
    }

    /** `ByteBuffer.wrap(inp.readNBytes(2)).short`. */
    method ReadPort(cmd: Byte, host: Host) returns (r: Res<Option<Request>>)
      requires conn.Valid()
      modifies conn`pos
      ensures conn.Valid()
      ensures var s := PortThen(conn.input, old(conn.pos), cmd, host); r == s.result && conn.pos == s.pos
    {
      var pb := conn.ReadNBytes(2);
      if |pb.value| < 2 {
        return Raised(BufferUnderflow);
      }
      return Ok(Some(Request(cmd, host, PortOf(pb.value[0], pb.value[1]))));
    }

    /** The `when (req.cmd)` of `handle`, up to the value it returns. */
    method Respond(req: Request) returns (o: Outcome)
      requires conn.Valid()
      modifies conn`pos, conn`output
      ensures conn.Valid()
      ensures var s := Dispatch(env, conn.input, old(conn.pos), req);
              o == s.outcome && conn.pos == s.pos && conn.output == old(conn.output) + s.written
    {
      if req.cmd == 1 {
        if env.egress.None? {
          conn.Write(ErrorReply(1));
          return Closed;
        }
        var connect := env.egress.value;
        if !connect(req.host, req.port) {
          return Failed(ConnectFailed);
        }
        conn.Write(SuccessReply(env.localAddr, env.localPort));
        var rest := conn.input[conn.pos..];
        conn.pos := |conn.input|;
        return Bridged(env.bridge(rest));
      } else if req.cmd == 3 {
        if env.udpStarter.None? {
          conn.Write(ErrorReply(7));
          return Closed;
        }
        var start := env.udpStarter.value;
        var bound := start(env.localAddr, 0);
        if bound.None? {
          return Failed(BindFailed);
        }
        conn.Write(SuccessReply(bound.value.0, bound.value.1));
        while true
          invariant conn.Valid()
          invariant conn.output == old(conn.output) + SuccessReply(bound.value.0, bound.value.1)
          decreases |conn.input| - conn.pos
        {
          var b := conn.Read();
          if b == -1 {
            break;
          }
        }
        return UdpEnded;
      } else {
        conn.Write(ErrorReply(7));
        return Closed;
      }
    }
  }
}
