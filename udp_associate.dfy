/** The UDP ASSOCIATE relay: the UDP request header of section 7 of
    RFC 1928 (encoder and decoder), the heuristic that tells a client's
    datagram from a remote host's reply, and the NAT table that maps each
    client endpoint to the remote endpoint it last addressed, with the
    time it was last active. The clock is a `now` parameter, name
    resolution a parameter, and sending a datagram is returning it. */
module UdpAssociate {
  import opened Bytes

  /** An `InetSocketAddress`: address bytes and port. */
  datatype Endpoint = Endpoint(addr: seq<Byte>, port: int)

  /** A decoded client datagram: destination address, port and payload. */
  datatype UdpPacket = UdpPacket(host: seq<Byte>, port: int, payload: seq<Byte>)

  /** A datagram the relay sends. */
  datatype Datagram = Datagram(to: Endpoint, data: seq<Byte>)

  /** `InetAddress.getByName` on the bytes of a domain name: its address,
      or None where the lookup raises. */
  type NameResolver = seq<Byte> -> Option<seq<Byte>>

  /*********************************************************************
   * The UDP request header
   *********************************************************************/

  /** The classifier: at least ten bytes and a zero third byte (FRAG) make
      a datagram client-shaped, whoever sent it. */
  predicate IsSocksUdpHeader(d: seq<Byte>)
  {
    |d| >= 10 && d[2] == 0
  }

  /** The port at `idx` and the payload after it; `ByteBuffer.wrap(d,
      idx, 2)` raises when fewer than two bytes are left. */
  function PortAndPayload(d: seq<Byte>, idx: nat, host: seq<Byte>): (r: Res<Option<UdpPacket>>)
    requires idx <= |d|
    ensures r.Ok? <==> idx + 2 <= |d|
    ensures r.Raised? ==> r.fault == IndexOutOfBounds
    ensures r.Ok? ==> r == Ok(Some(UdpPacket(host, PortOf(d[idx], d[idx + 1]), d[idx + 2..])))
  {
    if idx + 2 > |d| then Raised(IndexOutOfBounds)
    else Ok(Some(UdpPacket(host, PortOf(d[idx], d[idx + 1]), d[idx + 2..])))
  }

  /** `parseSocksUdp`: RSV is not checked; fewer than ten bytes, a non-zero
      FRAG or an unknown ATYP give no packet; ATYP 1 reads four address
      bytes, ATYP 3 a length byte and a name to resolve, ATYP 4 sixteen
      address bytes (raising when they run past the end); then the port,
      and the payload is everything after it. */
  function ParseSocksUdp(d: seq<Byte>, resolve: NameResolver): (r: Res<Option<UdpPacket>>)
    ensures r == Ok(None) <==> |d| < 10 || d[2] != 0 || d[3] !in {1, 3, 4}
    ensures r.Ok? && r.value.Some? ==>
              var pk := r.value.value;
              && |pk.payload| + 2 <= |d|
              && d[|d| - |pk.payload|..] == pk.payload
              && pk.port == PortOf(d[|d| - |pk.payload| - 2], d[|d| - |pk.payload| - 1])
    ensures r.Ok? && r.value.Some? && d[3] == 1 ==> r.value.value.host == d[4..8] && |r.value.value.payload| == |d| - 10
    ensures |d| >= 10 && d[2] == 0 && d[3] == 1 ==> r == Ok(Some(UdpPacket(d[4..8], PortOf(d[8], d[9]), d[10..])))
    ensures |d| >= 10 && d[2] == 0 && d[3] == 4 && |d| < 22 ==> r == Raised(IndexOutOfBounds)
    ensures |d| >= 22 && d[2] == 0 && d[3] == 4 ==> r == Ok(Some(UdpPacket(AddressOf(d[4..20]).value, PortOf(d[20], d[21]), d[22..])))
    ensures |d| >= 10 && d[2] == 0 && d[3] == 3 && 5 + d[4] as int > |d| ==> r == Raised(IndexOutOfBounds)
    ensures |d| >= 10 && d[2] == 0 && d[3] == 3 && 5 + d[4] as int <= |d| ==>
              r == match resolve(d[5..5 + d[4] as int])
                   case None => Raised(UnknownHost)
                   case Some(a) =>
                     if 7 + d[4] as int > |d| then Raised(IndexOutOfBounds)
                     else Ok(Some(UdpPacket(a, PortOf(d[5 + d[4] as int], d[6 + d[4] as int]), d[7 + d[4] as int..])))
  {
    if |d| < 10 || d[2] != 0 then Ok(None)
    else if d[3] == 1 then PortAndPayload(d, 8, d[4..8])
    else if d[3] == 3 then
      var l := d[4] as int;
      if 5 + l > |d| then Raised(IndexOutOfBounds)
      else
        match resolve(d[5..5 + l])
        case None => Raised(UnknownHost)
        case Some(a) => PortAndPayload(d, 5 + l, a)
    else if d[3] == 4 then
      if |d| < 20 then Raised(IndexOutOfBounds)
      else PortAndPayload(d, 20, AddressOf(d[4..20]).value)
    else Ok(None)
  }

  /** `buildSocksUdp`: RSV 0, FRAG 0, ATYP 1 for a four-byte address and 4
      otherwise, the address, the port, then the data. */
  function BuildSocksUdp(host: seq<Byte>, port: int, data: seq<Byte>): (r: seq<Byte>)
    ensures |r| == 6 + |host| + |data|
    ensures r[..4] == [0, 0, 0, if |host| == 4 then 1 else 4]
    ensures r[4..4 + |host|] == host && r[6 + |host|..] == data
  {
    [0, 0, 0, if |host| == 4 then 1 else 4] + host + PortBytes(port) + data
  }

  /** Whatever the relay wraps for a client with an address of four bytes
      or more is itself client-shaped. */
  lemma BuiltIsClientShaped(host: seq<Byte>, port: int, data: seq<Byte>)
    requires |host| >= 4
    ensures IsSocksUdpHeader(BuildSocksUdp(host, port, data))
  {
    var r := BuildSocksUdp(host, port, data);
    assert r[2] == r[..4][2];
  }

  /** Decoding a header built for a four-byte or a non-mapped sixteen-byte
      address gives back the address, the port (modulo 2^16) and the data;
      an IPv4-mapped sixteen-byte address comes back as the IPv4 address
      it embeds. */
  lemma BuildParseRoundTrip(host: seq<Byte>, port: int, data: seq<Byte>, resolve: NameResolver)
    requires |host| == 4 || |host| == 16
    ensures ParseSocksUdp(BuildSocksUdp(host, port, data), resolve)
         == Ok(Some(UdpPacket(AddressOf(host).value, port % 65536, data)))
    ensures !IsV4Mapped(host) ==>
              ParseSocksUdp(BuildSocksUdp(host, port, data), resolve) == Ok(Some(UdpPacket(host, port % 65536, data)))
  {
    var r := BuildSocksUdp(host, port, data);
    var n := |host|;
    var pb := PortBytes(port);
    assert r == [0, 0, 0, if n == 4 then 1 else 4] + host + pb + data;
    assert r[2] == 0 && r[3] == (if n == 4 then 1 else 4);
    assert r[4 + n] == pb[0] && r[5 + n] == pb[1];
    PortRoundTrip(port);
    if n == 4 {
      assert r[4..8] == host;
      assert r[10..] == data;
    } else {
      assert r[4..20] == host;
      assert r[22..] == data;
    }
  }

  /** The two RSV bytes are never looked at: whatever they hold, the
      datagram decodes the same. */
  lemma RsvIgnored(d: seq<Byte>, a: Byte, b: Byte, resolve: NameResolver)
    requires |d| >= 2
    ensures ParseSocksUdp([a, b] + d[2..], resolve) == ParseSocksUdp(d, resolve)
  {
    var e := [a, b] + d[2..];
    assert |e| == |d|;
    assert forall i | 2 <= i < |d| :: e[i] == d[i];
    if |d| >= 10 && d[2] == 0 {
      if d[3] == 1 {
        assert e[4..8] == d[4..8] && e[10..] == d[10..];
      } else if d[3] == 4 && |d| >= 22 {
        assert e[4..20] == d[4..20] && e[22..] == d[22..];
      } else if d[3] == 3 {
        var l := d[4] as int;
        if 7 + l <= |d| {
          assert e[5..5 + l] == d[5..5 + l] && e[7 + l..] == d[7 + l..];
        } else if 5 + l <= |d| {
          assert e[5..5 + l] == d[5..5 + l];
        }
      }
    }
  }

  /*********************************************************************
   * The NAT table
   *********************************************************************/

  /** The NAT map, the last-activity map, and the iteration order of the
      two (both are insertion-ordered and always hold the same keys). */
  datatype Table = Table(natMap: map<Endpoint, Endpoint>, lastActive: map<Endpoint, int>, order: seq<Endpoint>)

  predicate NoDuplicates(s: seq<Endpoint>)
  {
    forall i, j | 0 <= i < j < |s| :: s[i] != s[j]
  }

  /** Both maps hold the same keys, and `order` lists each key once. */
  predicate Consistent(t: Table)
  {
    && t.natMap.Keys == t.lastActive.Keys
    && NoDuplicates(t.order)
    && (forall i | 0 <= i < |t.order| :: t.order[i] in t.natMap)
    && (forall k | k in t.natMap :: k in t.order)
  }

  /** `nat.entries.firstOrNull { it.value == remote }?.key`: the first
      client, in iteration order, whose NAT entry is `remote`. */
  function FirstClient(keys: seq<Endpoint>, natMap: map<Endpoint, Endpoint>, remote: Endpoint): (c: Option<Endpoint>)
    ensures c.None? <==> forall i | 0 <= i < |keys| :: keys[i] !in natMap || natMap[keys[i]] != remote
    ensures c.Some? ==> exists i | 0 <= i < |keys| ::
              && keys[i] == c.value && c.value in natMap && natMap[c.value] == remote
              && forall j | 0 <= j < i :: keys[j] !in natMap || natMap[keys[j]] != remote
  {
    if keys == [] then None
    else if keys[0] in natMap && natMap[keys[0]] == remote then Some(keys[0])
    else
      var c := FirstClient(keys[1..], natMap, remote);
      if c.Some? then
        ghost var i :| 0 <= i < |keys[1..]| && keys[1..][i] == c.value && c.value in natMap && natMap[c.value] == remote
                       && forall j | 0 <= j < i :: keys[1..][j] !in natMap || natMap[keys[1..][j]] != remote;
        assert keys[i + 1] == c.value;
        assert forall j | 0 <= j < i + 1 :: keys[j] !in natMap || natMap[keys[j]] != remote by {
          forall j | 0 <= j < i + 1 ensures keys[j] !in natMap || natMap[keys[j]] != remote {
            if j > 0 { assert keys[j] == keys[1..][j - 1]; }
          }
        }
        c
      else
        assert forall i | 0 <= i < |keys| :: keys[i] !in natMap || natMap[keys[i]] != remote by {
          forall i | 0 <= i < |keys| ensures keys[i] !in natMap || natMap[keys[i]] != remote {
            if i > 0 { assert keys[i] == keys[1..][i - 1]; }
          }
        }
        c
  }

  /** The reply `data` from `src`, wrapped and sent to `client`, whose
      activity alone is refreshed. */
  function ReplyTo(t: Table, client: Endpoint, src: Endpoint, data: seq<Byte>, now: int): (Table, Option<Datagram>)
  {
    (t.(lastActive := t.lastActive[client := now]), Some(Datagram(client, BuildSocksUdp(src.addr, src.port, data))))
  }

  /** One datagram through `pump`, received from `src` at `now`: the new
      table and the datagram sent, if any. A client-shaped datagram that
      decodes sets the client's NAT entry and activity and forwards the
      payload; one that does not decode is dropped. Any other datagram is
      a reply: wrapped and returned to the first client mapped to its
      source, whose activity alone is refreshed, or dropped. */
  function Received(t: Table, src: Endpoint, data: seq<Byte>, now: int, resolve: NameResolver): (Table, Option<Datagram>)
  {
    if IsSocksUdpHeader(data) then
      match ParseSocksUdp(data, resolve)
      case Ok(Some(pk)) =>
        var dst := Endpoint(pk.host, pk.port);
        var order := if src in t.natMap then t.order else t.order + [src];
        (Table(t.natMap[src := dst], t.lastActive[src := now], order), Some(Datagram(dst, pk.payload)))
      case _ => (t, None)
    else
      match FirstClient(t.order, t.natMap, src)
      case None => (t, None)
      case Some(client) => ReplyTo(t, client, src, data, now)
  }

  /** A client datagram that decodes to (host, port, payload) maps the
      client to (host, port) and stamps it with `now`, overwriting its
      previous entry and leaving every other client's entries as they
      were; the payload goes to (host, port). */
  lemma ClientDatagram(t: Table, src: Endpoint, data: seq<Byte>, now: int, resolve: NameResolver)
    requires Consistent(t) && IsSocksUdpHeader(data)
    requires ParseSocksUdp(data, resolve).Ok? && ParseSocksUdp(data, resolve).value.Some?
    ensures var pk := ParseSocksUdp(data, resolve).value.value;
            var (t', sent) := Received(t, src, data, now, resolve);
            && t'.natMap[src] == Endpoint(pk.host, pk.port) && t'.lastActive[src] == now
            && t'.natMap.Keys == t.natMap.Keys + {src}
            && (forall k | k in t.natMap && k != src :: t'.natMap[k] == t.natMap[k] && t'.lastActive[k] == t.lastActive[k])
            && |t'.order| == |t.order| + (if src in t.natMap then 0 else 1)
            && sent == Some(Datagram(Endpoint(pk.host, pk.port), pk.payload))
  {
  }

  /** A reply whose source no client is mapped to is dropped, and nothing
      changes; otherwise only the first such client in iteration order has
      its activity refreshed, and the wrapped reply goes to it. */
  lemma RemoteDatagram(t: Table, src: Endpoint, data: seq<Byte>, now: int, resolve: NameResolver)
    requires !IsSocksUdpHeader(data)
    ensures Consistent(t) && (exists k | k in t.natMap :: t.natMap[k] == src) ==>
              FirstClient(t.order, t.natMap, src).Some?
    ensures var c := FirstClient(t.order, t.natMap, src);
            c.Some? ==> Received(t, src, data, now, resolve) == ReplyTo(t, c.value, src, data, now)
    ensures var (t', sent) := Received(t, src, data, now, resolve);
            && ((forall k | k in t.natMap :: t.natMap[k] != src) && (forall k | k in t.order :: k in t.natMap)
                ==> t' == t && sent == None)
            && t'.natMap == t.natMap && t'.order == t.order
            && (sent.Some? ==>
                  var c := sent.value.to;
                  && c in t.natMap && t.natMap[c] == src
                  && t'.lastActive == t.lastActive[c := now]
                  && sent.value.data == BuildSocksUdp(src.addr, src.port, data))
  {
    var c := FirstClient(t.order, t.natMap, src);
    if (forall k | k in t.natMap :: t.natMap[k] != src) && (forall k | k in t.order :: k in t.natMap) {
      assert c.None?;
    }
    if Consistent(t) && (exists k | k in t.natMap :: t.natMap[k] == src) {
      var k :| k in t.natMap && t.natMap[k] == src;
      var i :| 0 <= i < |t.order| && t.order[i] == k;
    }
  }

  /** A client-shaped datagram that does not decode changes nothing and
      sends nothing. */
  lemma UndecodableDropped(t: Table, src: Endpoint, data: seq<Byte>, now: int, resolve: NameResolver)
    requires IsSocksUdpHeader(data)
    requires !(ParseSocksUdp(data, resolve).Ok? && ParseSocksUdp(data, resolve).value.Some?)
    ensures Received(t, src, data, now, resolve) == (t, None)
  {
  }

  /** Every datagram keeps the table consistent. */
  lemma ReceivedConsistent(t: Table, src: Endpoint, data: seq<Byte>, now: int, resolve: NameResolver)
    requires Consistent(t)
    ensures Consistent(Received(t, src, data, now, resolve).0)
  {
    var t' := Received(t, src, data, now, resolve).0;
    if IsSocksUdpHeader(data) && ParseSocksUdp(data, resolve).Ok? && ParseSocksUdp(data, resolve).value.Some? && src !in t.natMap {
      assert t'.order == t.order + [src];
      forall i, j | 0 <= i < j < |t'.order| ensures t'.order[i] != t'.order[j] {
        if j == |t.order| {
          assert t.order[i] in t.natMap;
        }
      }
    } else if !IsSocksUdpHeader(data) {
      var c := FirstClient(t.order, t.natMap, src);
      if c.Some? {
        assert c.value in t.natMap;
      }
    }
  }

  /** The keys a GC pass at `now` removes: idle for longer than the
      timeout. */
  function Expired(lastActive: map<Endpoint, int>, now: int, timeout: int): set<Endpoint>
  {
    set k | k in lastActive && now - lastActive[k] > timeout
  }

  /** The keys of `keys` that a GC pass at `now` keeps, in order. */
  function Survivors(keys: seq<Endpoint>, lastActive: map<Endpoint, int>, now: int, timeout: int): (s: seq<Endpoint>)
    ensures forall k :: k in s <==> k in keys && (k !in lastActive || now - lastActive[k] <= timeout)
    ensures |s| <= |keys|
  {
    if keys == [] then []
    else
      var init := keys[..|keys| - 1];
      var k := keys[|keys| - 1];
      var rest := Survivors(init, lastActive, now, timeout);
      assert forall x :: x in keys <==> x == k || x in init by {
        assert keys == init + [k];
      }
      if k in lastActive && now - lastActive[k] > timeout then rest else rest + [k]
  }

  /** A GC pass: every expired key leaves both maps and the order. */
  function Swept(t: Table, now: int, timeout: int): Table
  {
    var gone := Expired(t.lastActive, now, timeout);
    Table(t.natMap - gone, t.lastActive - gone, Survivors(t.order, t.lastActive, now, timeout))
  }

  /** A GC pass removes exactly the keys idle for longer than the timeout
      and leaves every other entry as it was. */
  lemma SweptExactly(t: Table, now: int, timeout: int)
    requires Consistent(t)
    ensures var t' := Swept(t, now, timeout);
            && (forall k :: k in t'.natMap <==> k in t.natMap && now - t.lastActive[k] <= timeout)
            && (forall k | k in t'.natMap :: t'.natMap[k] == t.natMap[k] && t'.lastActive[k] == t.lastActive[k])
            && t'.natMap.Keys == t'.lastActive.Keys
  {
  }

  lemma {:induction false} SurvivorsNoDuplicates(keys: seq<Endpoint>, lastActive: map<Endpoint, int>, now: int, timeout: int)
    requires NoDuplicates(keys)
    ensures NoDuplicates(Survivors(keys, lastActive, now, timeout))
  {
    if keys != [] {
      var init := keys[..|keys| - 1];
      var k := keys[|keys| - 1];
      SurvivorsNoDuplicates(init, lastActive, now, timeout);
      forall j | 0 <= j < |init| ensures init[j] != k {
        assert init[j] == keys[j];
      }
      assert k !in Survivors(init, lastActive, now, timeout);
    }
  }

  /** A GC pass keeps the table consistent. */
  lemma SweptConsistent(t: Table, now: int, timeout: int)
    requires Consistent(t)
    ensures Consistent(Swept(t, now, timeout))
  {
    SurvivorsNoDuplicates(t.order, t.lastActive, now, timeout);
    var t' := Swept(t, now, timeout);
    forall i | 0 <= i < |t'.order| ensures t'.order[i] in t'.natMap {
      assert t'.order[i] in t'.order;
    }
  }

  /** The GC loop after visiting `keys`: the visited expired keys are
      gone from both maps, and the visited survivors are listed in order. */
  function SweepKeys(t: Table, keys: seq<Endpoint>, now: int, timeout: int): Table
  {
    if keys == [] then Table(t.natMap, t.lastActive, [])
    else
      SweepOne(t, SweepKeys(t, keys[..|keys| - 1], now, timeout), keys[|keys| - 1], now, timeout)
  }

  /** One key of the sweep, judged by its time in `t`: removed from both
      maps of `r` when expired, kept at the end of the order otherwise. */
  function SweepOne(t: Table, r: Table, k: Endpoint, now: int, timeout: int): Table
  {
    if k in t.lastActive && now - t.lastActive[k] > timeout then Table(r.natMap - {k}, r.lastActive - {k}, r.order)
    else Table(r.natMap, r.lastActive, r.order + [k])
  }

  lemma SweepKeysStep(t: Table, keys: seq<Endpoint>, i: nat, now: int, timeout: int)
    requires i < |keys|
    ensures SweepKeys(t, keys[..i + 1], now, timeout)
         == SweepOne(t, SweepKeys(t, keys[..i], now, timeout), keys[i], now, timeout)
  {
    assert keys[..i + 1][..i] == keys[..i];
  }

  /** The expired keys among `keys`. */
  function ExpiredAmong(keys: seq<Endpoint>, lastActive: map<Endpoint, int>, now: int, timeout: int): set<Endpoint>
  {
    set k | k in keys && k in lastActive && now - lastActive[k] > timeout
  }

  lemma {:induction false} SweepKeysRemoves(t: Table, keys: seq<Endpoint>, now: int, timeout: int)
    ensures SweepKeys(t, keys, now, timeout)
         == Table(t.natMap - ExpiredAmong(keys, t.lastActive, now, timeout),
                  t.lastActive - ExpiredAmong(keys, t.lastActive, now, timeout),
                  Survivors(keys, t.lastActive, now, timeout))
  {
    if keys != [] {
      var init := keys[..|keys| - 1];
      var k := keys[|keys| - 1];
      SweepKeysRemoves(t, init, now, timeout);
      ExpiredAmongLast(keys, t.lastActive, now, timeout);
      var g0 := ExpiredAmong(init, t.lastActive, now, timeout);
      if k in t.lastActive && now - t.lastActive[k] > timeout {
        RemoveOneMore(t.natMap, g0, k);
        RemoveOneMore(t.lastActive, g0, k);
      }
    }
  }

  lemma ExpiredAmongLast(keys: seq<Endpoint>, lastActive: map<Endpoint, int>, now: int, timeout: int)
    requires keys != []
    ensures ExpiredAmong(keys, lastActive, now, timeout)
         == ExpiredAmong(keys[..|keys| - 1], lastActive, now, timeout)
            + (if keys[|keys| - 1] in lastActive && now - lastActive[keys[|keys| - 1]] > timeout
               then {keys[|keys| - 1]} else {})
  {
    assert forall x :: x in keys <==> x in keys[..|keys| - 1] || x == keys[|keys| - 1] by {
      assert keys == keys[..|keys| - 1] + [keys[|keys| - 1]];
    }
  }

  lemma RemoveOneMore<V>(m: map<Endpoint, V>, gone: set<Endpoint>, k: Endpoint)
    ensures (m - gone) - {k} == m - (gone + {k})
  {
  }

  /** Walking the whole order removes exactly the expired keys. */
  lemma SweepKeysAll(t: Table, now: int, timeout: int)
    requires Consistent(t)
    ensures SweepKeys(t, t.order, now, timeout) == Swept(t, now, timeout)
  {
    SweepKeysRemoves(t, t.order, now, timeout);
    assert ExpiredAmong(t.order, t.lastActive, now, timeout) == Expired(t.lastActive, now, timeout);
  }

  /*********************************************************************
   * The relay
   *********************************************************************/

  /** The loop of one GC pass: walk the activity entries in order and
      remove each one idle for longer than `timeout` from both maps. */
  method Expire(t: Table, now: int, timeout: int)
    returns (natMap: map<Endpoint, Endpoint>, lastActive: map<Endpoint, int>, order: seq<Endpoint>)
    requires Consistent(t)
    ensures Table(natMap, lastActive, order) == Swept(t, now, timeout)
  {
    natMap, lastActive := t.natMap, t.lastActive;
    var keys := t.order;
    var kept: seq<Endpoint> := [];
    var i := 0;
    while i < |keys|
      invariant 0 <= i <= |keys| && keys == t.order
      invariant Table(natMap, lastActive, kept) == SweepKeys(t, keys[..i], now, timeout)
      invariant forall j | i <= j < |keys| :: keys[j] in lastActive && lastActive[keys[j]] == t.lastActive[keys[j]]
    {
      var k := keys[i];
      SweepKeysStep(t, keys, i, now, timeout);
      if now - lastActive[k] > timeout {
        natMap := natMap - {k};
        lastActive := lastActive - {k};
        forall j | i + 1 <= j < |keys| ensures keys[j] in lastActive && lastActive[keys[j]] == t.lastActive[keys[j]] {
          assert keys[j] != k;
        }
      } else {
        kept := kept + [k];
      }
      i := i + 1;
    }
    assert keys[..i] == keys;
    SweepKeysAll(t, now, timeout);
    order := kept;
  }

  class UdpRelay {
    const natTimeoutMs: int
    var natMap: map<Endpoint, Endpoint>
    var lastActive: map<Endpoint, int>
    /** The keys of both maps in insertion order: the order in which
      `firstOrNull` and the GC iterator visit them. */
    var order: seq<Endpoint>

    function State(): Table
      reads this
    {
      Table(natMap, lastActive, order)
    }

    ghost predicate Valid()
      reads this
    {
      Consistent(State())
    }

    /** A relay with empty maps and the given NAT timeout (60000 ms by
      default). */
    constructor (natTimeoutMs: int)
      ensures this.natTimeoutMs == natTimeoutMs && State() == Table(map[], map[], [])
      ensures Valid()
    {
      this.natTimeoutMs := natTimeoutMs;
      natMap := map[];
      lastActive := map[];
      order := [];
    }

    /** One iteration of the `pump` loop, for a datagram `data` from `src`
      received at `now`; returns the datagram it sends, if any. */
    method Receive(src: Endpoint, data: seq<Byte>, now: int, resolve: NameResolver) returns (sent: Option<Datagram>)
      requires Valid()
      modifies this
      ensures Valid()
      ensures (State(), sent) == Received(old(State()), src, data, now, resolve)
    {
      ReceivedConsistent(State(), src, data, now, resolve);
      if IsSocksUdpHeader(data) {
        var parsed := ParseSocksUdp(data, resolve);
        if parsed.Raised? || parsed.value.None? {
          return None;
        }
        var pk := parsed.value.value;
        var dst := Endpoint(pk.host, pk.port);
        if src !in natMap {
          order := order + [src];
        }
        natMap := natMap[src := dst];
        lastActive := lastActive[src := now];
        return Some(Datagram(dst, pk.payload));
      } else {
        var client := FirstClient(order, natMap, src);
        if client.None? {
          return None;
        }
        var resp := BuildSocksUdp(src.addr, src.port, data);
        lastActive := lastActive[client.value := now];
        return Some(Datagram(client.value, resp));
      }
    }

    /** One pass of `gcLoop` at `now`: every entry idle for longer than
      the timeout leaves both maps. */
    method Sweep(now: int)
      requires Valid()
      modifies this
      ensures Valid()
      ensures State() == Swept(old(State()), now, natTimeoutMs)
    {
      SweptConsistent(State(), now, natTimeoutMs);
      natMap, lastActive, order := Expire(State(), now, natTimeoutMs);
    }

    /** `stop()`: both maps emptied. */
    method Stop()
      modifies this
      ensures State() == Table(map[], map[], []) && Valid()
    {
      natMap := map[];
      lastActive := map[];
      order := [];
    }
  }
}
