/** Host discovery (NetworkInspector/scanner/host_discovery.py): the ICMP echo
    request and its checksum, the two-tier liveness probe, and the
    aggregation over a network's hosts. */
module HostDiscovery {
  import opened Net
  import opened Sorting

  type Byte = b: int | 0 <= b < 256

  // ---------------------------------------------------------------------
  // The ICMP echo request (create_icmp_packet)
  // ---------------------------------------------------------------------

  /** `struct.pack('bbHHh', 8, 0, checksum, 0, 1)` on a little-endian host:
      type 8 (echo request), code 0, the checksum, identifier 0 and
      sequence number 1, eight bytes with no padding. */
  function EchoHeader(checksum: int): (h: seq<Byte>)
    requires 0 <= checksum <= 0xffff
    ensures |h| == 8
    ensures h[0] == 8 && h[1] == 0
    ensures Word(h[2], h[3]) == checksum
    ensures h[4..] == [0, 0, 1, 0]
  {
    [8, 0, checksum % 0x100, checksum / 0x100, 0, 0, 1, 0]
  }

  /** Two bytes read as a little-endian 16-bit word: `b[i] + (b[i+1] << 8)`. */
  function Word(lo: Byte, hi: Byte): int
  {
    lo as int + (hi as int) * 0x100
  }

  /** The running sum of the checksum loop: bytes paired little-endian into
      16-bit words, a trailing odd byte added on its own, no carry folded. */
  function WordSum(b: seq<Byte>): nat
  {
    if |b| == 0 then 0
    else if |b| == 1 then b[0]
    else Word(b[0], b[1]) + WordSum(b[2..])
  }

  lemma {:induction false} WordSumAppend(a: seq<Byte>, b: seq<Byte>)
    requires |a| % 2 == 0
    ensures WordSum(a + b) == WordSum(a) + WordSum(b)
  {
    if a == [] {
      assert a + b == b;
    } else {
      var ab := a + b;
      assert ab[0] == a[0] && ab[1] == a[1];
      assert ab[2..] == a[2..] + b;
      WordSumAppend(a[2..], b);
    }
  }

  /** A byte left over after the last full word is added as it is. */
  lemma TrailingOddByte(b: seq<Byte>, x: Byte)
    requires |b| % 2 == 0
    ensures WordSum(b + [x]) == WordSum(b) + x
  {
    WordSumAppend(b, [x]);
  }

  /** The end-around-carry fold of section 1 of RFC 1071, repeated until the
      sum fits in 16 bits. */
  function Fold(s: nat): (f: nat)
    ensures f <= 0xffff
    ensures f == 0 <==> s == 0
    ensures f % 0xffff == s % 0xffff
    decreases s
  {
    if s <= 0xffff then s
    else
      FoldStep(s);
      Fold(s / 0x10000 + s % 0x10000)
  }

  /** One fold keeps the value modulo 0xffff, since 0x10000 is 1 modulo 0xffff. */
  lemma FoldStep(s: nat)
    requires s > 0xffff
    ensures 0 < s / 0x10000 + s % 0x10000 < s
    ensures (s / 0x10000 + s % 0x10000) % 0xffff == s % 0xffff
  {
    var q, r := s / 0x10000, s % 0x10000;
    assert s == 0x10000 * q + r;
    assert q + r == s - 0xffff * q;
    ModMinusMultiple(s, q);
  }

  lemma ModMinusMultiple(x: int, k: int)
    ensures (x - 0xffff * k) % 0xffff == x % 0xffff
  {
    var a, b := x / 0xffff, x % 0xffff;
    assert x - 0xffff * k == 0xffff * (a - k) + b;
  }

  /** `~x & 0xffff` on a Python integer: -x-1 reduced to its low 16 bits. */
  function Complement16(x: int): (c: int)
    ensures 0 <= c <= 0xffff
    ensures 0 <= x <= 0xffff ==> c == 0xffff - x
  {
    (-x - 1) % 0x10000
  }

  /** The checksum as lines 19-20 compute it: one fold of the carries, then
      the complement. */
  function SingleFoldChecksum(s: nat): (c: int)
    ensures 0 <= c <= 0xffff
  {
    Complement16(s / 0x10000 + s % 0x10000)
  }

  /** The sum whose single fold leaves no new carry. */
  predicate NoSecondCarry(s: nat)
  {
    s / 0x10000 + s % 0x10000 <= 0xffff
  }

  lemma SingleFoldSuffices(s: nat)
    requires NoSecondCarry(s)
    ensures Fold(s) == s / 0x10000 + s % 0x10000
  {
    if s > 0xffff {
      assert Fold(s) == Fold(s / 0x10000 + s % 0x10000);
    }
  }

  /** The summing loop of `create_icmp_packet` over a buffer of any length. */
  method SumWords(buf: seq<Byte>) returns (checksum: nat)
    ensures checksum == WordSum(buf)
  {
    checksum := 0;
    var i := 0;
    while i < |buf|
      invariant 0 <= i
      invariant i <= |buf| ==> checksum + WordSum(buf[i..]) == WordSum(buf)
      invariant i > |buf| ==> checksum == WordSum(buf)
      decreases |buf| - i
    {
      if i + 1 < |buf| {
        assert buf[i..][2..] == buf[i + 2..];
        checksum := checksum + Word(buf[i], buf[i + 1]);
      } else {
        checksum := checksum + buf[i];
      }
      i := i + 2;
    }
  }

  /** `create_icmp_packet()`, with the eight bytes that `struct.pack('d',
      time.time())` produces taken as the parameter `payload`. */
  method CreateIcmpPacket(payload: seq<Byte>) returns (packet: seq<Byte>)
    requires |payload| == 8
    ensures |packet| == 16 && packet[8..] == payload
    ensures packet == EchoHeader(SingleFoldChecksum(WordSum(EchoHeader(0) + payload))) + payload
  {
    var header := EchoHeader(0);
    var data := payload;
    var checksum: int := SumWords(header + data);
    checksum := checksum / 0x10000 + checksum % 0x10000;
    checksum := (-checksum - 1) % 0x10000;
    header := EchoHeader(checksum);
    packet := header + data;
  }

  /** The receiver's check of section 1 of RFC 1071: the folded sum of every
      word of the packet, checksum included, is all ones. */
  predicate ChecksumVerifies(packet: seq<Byte>)
  {
    Fold(WordSum(packet)) == 0xffff
  }

  /** Putting c in the checksum field adds c to the packet's sum. */
  lemma PacketSum(c: int, payload: seq<Byte>)
    requires 0 <= c <= 0xffff
    ensures WordSum(EchoHeader(c) + payload) == 9 + c + WordSum(payload)
  {
    var h := EchoHeader(c);
    WordSumAppend(h, payload);
    assert WordSum(h[6..]) == 1 by { assert h[6..][2..] == []; }
    assert WordSum(h[4..]) == 1 by { assert h[4..][2..] == h[6..]; }
    assert WordSum(h[2..]) == c + 1 by { assert h[2..][2..] == h[4..]; }
  }

  /** Adding the complement of the folded sum makes the folded total 0xffff. */
  lemma ComplementCancels(s: nat)
    ensures Fold(s + (0xffff - Fold(s))) == 0xffff
  {
    var t := s + (0xffff - Fold(s));
    assert t > 0;
    ModMinusMultiple(s - Fold(s), -1);
    assert (s - Fold(s)) % 0xffff == 0 by {
      var a, b := s / 0xffff, Fold(s) / 0xffff;
      assert s - Fold(s) == 0xffff * (a - b) + (s % 0xffff - Fold(s) % 0xffff);
      ModMinusMultiple(s - Fold(s), a - b);
    }
    assert t % 0xffff == 0;
  }

  /** When the single fold leaves no carry, the packet built by
      `create_icmp_packet` passes the receiver's check. */
  lemma SingleFoldVerifies(payload: seq<Byte>)
    requires |payload| == 8
    requires NoSecondCarry(WordSum(EchoHeader(0) + payload))
    ensures ChecksumVerifies(EchoHeader(SingleFoldChecksum(WordSum(EchoHeader(0) + payload))) + payload)
  {
    var s := WordSum(EchoHeader(0) + payload);
    SingleFoldSuffices(s);
    var c := SingleFoldChecksum(s);
    assert c == 0xffff - Fold(s);
    PacketSum(0, payload);
    PacketSum(c, payload);
    ComplementCancels(s);
  }

  /** A payload whose sum needs a second fold: the eight bytes
      `struct.pack('d', 1705457114.2010355)` gives for a clock reading of
      January 2024. The single fold yields
      0x10000, its low 16 bits complement to 0xffff, and the receiver's check
      folds the finished packet to 1 instead of 0xffff. */
  lemma SingleFoldCounterexample()
    ensures var payload: seq<Byte> := [0xc4, 0xdd, 0x8c, 0x76, 0xcd, 0x69, 0xd9, 0x41];
      var s := WordSum(EchoHeader(0) + payload);
      && !NoSecondCarry(s)
      && SingleFoldChecksum(s) == 0xffff
      && Fold(WordSum(EchoHeader(SingleFoldChecksum(s)) + payload)) == 1
  {
    var payload: seq<Byte> := [0xc4, 0xdd, 0x8c, 0x76, 0xcd, 0x69, 0xd9, 0x41];
    assert payload[2..][2..][2..][2..] == [];
    assert WordSum(payload) == 0xddc4 + 0x768c + 0x69cd + 0x41d9;
    PacketSum(0, payload);
    var s := WordSum(EchoHeader(0) + payload);
    assert s == 131071;
    PacketSum(0xffff, payload);
    assert WordSum(EchoHeader(0xffff) + payload) == 196606;
    assert Fold(196606) == Fold(65536) == Fold(1) == 1;
  }

  /** The checksum as RFC 1071 defines it: the complement of the fully
      folded sum. */
  function InternetChecksum(s: nat): (c: int)
    ensures 0 <= c <= 0xffff
    ensures NoSecondCarry(s) ==> c == SingleFoldChecksum(s)
  {
    if NoSecondCarry(s) then
      SingleFoldSuffices(s);
      Complement16(Fold(s))
    else
      Complement16(Fold(s))
  }

  /** The echo request with the carry folded until none is left: it passes
      the receiver's check for every payload. */
  function CorrectedIcmpPacket(payload: seq<Byte>): (packet: seq<Byte>)
    requires |payload| == 8
    ensures |packet| == 16 && packet[8..] == payload
    ensures ChecksumVerifies(packet)
  {
    var c := InternetChecksum(WordSum(EchoHeader(0) + payload));
    CorrectedChecksumVerifies(payload);
    EchoHeader(c) + payload
  }

  lemma CorrectedChecksumVerifies(payload: seq<Byte>)
    ensures ChecksumVerifies(EchoHeader(InternetChecksum(WordSum(EchoHeader(0) + payload))) + payload)
  {
    var s := WordSum(EchoHeader(0) + payload);
    var f := Fold(s);
    var c := InternetChecksum(s);
    assert c == Complement16(f);
    assert c == 0xffff - f;
    PacketSum(0, payload);
    PacketSum(c, payload);
    assert WordSum(EchoHeader(c) + payload) == s + (0xffff - f);
    ComplementCancels(s);
  }

  // ---------------------------------------------------------------------
  // The liveness probe (tcp_ping_host, ping_host)
  // ---------------------------------------------------------------------

  /** What the ICMP attempt of `ping_host` does: a reply arrives, or the
      attempt raises `socket.timeout`, `socket.error` or `PermissionError`
      (all three handled by the fallback), or some other exception that
      escapes the call. */
  datatype Icmp = Reply | Timeout | RawSocketError | PermissionDenied | Unexpected
  {
    /** The failures the `except` clause of `ping_host` catches. */
    predicate FallsBack()
    {
      Timeout? || RawSocketError? || PermissionDenied?
    }
  }

  /** The fallback ports, tried in this order. */
  const CommonPorts: seq<int> := [80, 443, 22, 445]

  /** The ports a TCP probe connected to, in order, and what it did. */
  datatype Attempt = Attempt(tried: seq<int>, outcome: Outcome)

  /** A connect that failed without raising out of the probe: a nonzero
      result code, or a `socket.error` the probe catches. */
  predicate Refused(c: Connect)
  {
    c.SocketError? || (c.Code? && c.errno != 0)
  }

  /** The fallback loop over a port list: stop with True at the first
      completed handshake, move on past a refusal, let any other exception
      escape. */
  function TryPorts(host: Host, ports: seq<int>, connect: (Host, int) -> Connect): (a: Attempt)
    ensures |a.tried| <= |ports| && a.tried == ports[..|a.tried|]
  {
    if ports == [] then
      Attempt([], Returned(false))
    else
      match connect(host, ports[0])
      case Code(errno) =>
        if errno == 0 then Attempt([ports[0]], Returned(true))
        else var rest := TryPorts(host, ports[1..], connect);
          Attempt([ports[0]] + rest.tried, rest.outcome)
      case SocketError =>
        var rest := TryPorts(host, ports[1..], connect);
        Attempt([ports[0]] + rest.tried, rest.outcome)
      case Fault =>
        Attempt([ports[0]], Raised)
  }

  /** `tcp_ping_host(ip)` as a value: the loopback address is alive without
      any connect; any other host goes through the common ports. */
  function TcpPing(host: Host, connect: (Host, int) -> Connect): Attempt
  {
    if host == Loopback then Attempt([], Returned(true))
    else TryPorts(host, CommonPorts, connect)
  }

  /** `tcp_ping_host(ip)`: the loop with its early returns. `tried` records
      the ports it connected to. */
  method TcpPingHost(host: Host, connect: (Host, int) -> Connect)
    returns (outcome: Outcome, tried: seq<int>)
    ensures Attempt(tried, outcome) == TcpPing(host, connect)
  {
    if host == Loopback {
      return Returned(true), [];
    }
    var ports := CommonPorts;
    tried := [];
    for i := 0 to |ports|
      invariant tried == ports[..i]
      invariant TryPorts(host, ports, connect)
        == Attempt(tried + TryPorts(host, ports[i..], connect).tried,
                   TryPorts(host, ports[i..], connect).outcome)
    {
      var port := ports[i];
      assert ports[i..][1..] == ports[i + 1..];
      tried := tried + [port];
      match connect(host, port)
      case Code(errno) =>
        if errno == 0 {
          return Returned(true), tried;
        }
      case SocketError =>
      case Fault =>
        return Raised, tried;
    }
    assert ports[|ports|..] == [];
    outcome := Returned(false);
  }

  /** The order of the fallback: every port before the last one tried was
      refused; the probe answers True exactly when the last port tried
      completed its handshake, answers False exactly when every port was
      tried and refused, and raises exactly when the last port tried raised
      something other than `socket.error`. */
  lemma {:induction false} FallbackOrder(host: Host, ports: seq<int>, connect: (Host, int) -> Connect)
    ensures var a := TryPorts(host, ports, connect);
      && (forall k :: 0 <= k < |a.tried| - 1 ==> Refused(connect(host, a.tried[k])))
      && (a.outcome == Returned(true) <==>
            a.tried != [] && connect(host, a.tried[|a.tried| - 1]) == Code(0))
      && (a.outcome == Raised <==>
            a.tried != [] && connect(host, a.tried[|a.tried| - 1]) == Connect.Fault)
      && (a.outcome == Returned(false) <==>
            a.tried == ports && forall k :: 0 <= k < |ports| ==> Refused(connect(host, ports[k])))
  {
    if ports != [] {
      FallbackOrder(host, ports[1..], connect);
      var rest := TryPorts(host, ports[1..], connect);
      if Refused(connect(host, ports[0])) {
        var a := TryPorts(host, ports, connect);
        assert a.tried == [ports[0]] + rest.tried;
        if rest.tried != [] {
          assert a.tried[|a.tried| - 1] == rest.tried[|rest.tried| - 1];
        }
        if rest.outcome == Returned(false) {
          assert a.tried == ports by { assert ports == [ports[0]] + ports[1..]; }
        }
        if a.tried == ports {
          assert rest.tried == ports[1..];
          assert forall k :: 1 <= k < |ports| ==> ports[k] == ports[1..][k - 1];
        }
      }
    }
  }

  /** A transport that accepts only port 22 sees ports 80 and 443 tried, in
      that order, before 22 answers. */
  lemma OnlySshAnswers(host: Host, connect: (Host, int) -> Connect)
    requires host != Loopback
    requires Refused(connect(host, 80)) && Refused(connect(host, 443))
    requires connect(host, 22) == Code(0)
    ensures TcpPing(host, connect) == Attempt([80, 443, 22], Returned(true))
  {
    assert CommonPorts[0] == 80 && CommonPorts[1] == 443 && CommonPorts[2] == 22;
    FirstAnswerIsTaken(host, CommonPorts, connect, 2);
    assert CommonPorts[..3] == [80, 443, 22];
  }

  /** What one `ping_host` call did: whether it attempted ICMP, the fallback
      ports it connected to, and its outcome. */
  datatype Probe = Probe(icmpTried: bool, tried: seq<int>, outcome: Outcome)

  /** `ping_host(ip)`: loopback is alive without any probe; otherwise an ICMP
      reply means alive, a timeout, socket error or missing privilege hands
      the decision to `tcp_ping_host`, and any other exception escapes. */
  function PingHost(host: Host, icmp: Host -> Icmp, connect: (Host, int) -> Connect): (p: Probe)
    ensures host == Loopback ==> p == Probe(false, [], Returned(true))
    ensures host != Loopback ==> p.icmpTried
    ensures p.tried != [] ==> host != Loopback && icmp(host).FallsBack()
    ensures host != Loopback && icmp(host) == Reply ==> p == Probe(true, [], Returned(true))
    ensures host != Loopback && icmp(host) == Unexpected ==> p == Probe(true, [], Raised)
    ensures host != Loopback && icmp(host).FallsBack() ==>
      p == Probe(true, TcpPing(host, connect).tried, TcpPing(host, connect).outcome)
  {
    if host == Loopback then
      Probe(false, [], Returned(true))
    else
      match icmp(host)
      case Reply => Probe(true, [], Returned(true))
      case Unexpected => Probe(true, [], Raised)
      case _ =>
        var fallback := TcpPing(host, connect);
        Probe(true, fallback.tried, fallback.outcome)
  }

  /** After a handled ICMP failure, a host whose ports 80 and 443 refuse
      and whose port 22 completes the handshake is found alive by the third
      connect, and port 445 is never tried. */
  lemma PingHostSshFallback(host: Host, icmp: Host -> Icmp, connect: (Host, int) -> Connect)
    requires host != Loopback && icmp(host).FallsBack()
    requires Refused(connect(host, 80)) && Refused(connect(host, 443))
    requires connect(host, 22) == Code(0)
    ensures PingHost(host, icmp, connect) == Probe(true, [80, 443, 22], Returned(true))
  {
    OnlySshAnswers(host, connect);
  }

  /** After a handled ICMP failure, a host that refuses every common port
      is reported down once all four ports were tried, and a host whose
      first port raises something other than `socket.error` makes the
      probe raise after that one connect. */
  lemma PingHostFallbackFails(host: Host, icmp: Host -> Icmp, connect: (Host, int) -> Connect)
    requires host != Loopback && icmp(host).FallsBack()
    ensures (forall k :: 0 <= k < |CommonPorts| ==> Refused(connect(host, CommonPorts[k]))) ==>
      PingHost(host, icmp, connect) == Probe(true, CommonPorts, Returned(false))
    ensures connect(host, 80) == Connect.Fault ==>
      PingHost(host, icmp, connect) == Probe(true, [80], Raised)
  {
    FallbackOrder(host, CommonPorts, connect);
    assert CommonPorts[0] == 80;
    assert CommonPorts[1..][0] == 443;
  }

  /** The liveness decision in terms of the oracles alone: a host other than
      loopback is alive exactly when ICMP gets a reply, or ICMP fails in a
      handled way and some common port completes its handshake after every
      earlier one was refused; the fallback is consulted only after a
      handled ICMP failure. */
  lemma PingHostDecision(host: Host, icmp: Host -> Icmp, connect: (Host, int) -> Connect)
    requires host != Loopback
    ensures var p := PingHost(host, icmp, connect);
      && (p.outcome == Returned(true) <==>
            || icmp(host) == Reply
            || (&& icmp(host).FallsBack()
                && exists k :: 0 <= k < |CommonPorts| && connect(host, CommonPorts[k]) == Code(0)
                     && forall j :: 0 <= j < k ==> Refused(connect(host, CommonPorts[j]))))
      && (p.tried != [] ==> icmp(host).FallsBack())
  {
    var p := PingHost(host, icmp, connect);
    FallbackOrder(host, CommonPorts, connect);
    var a := TryPorts(host, CommonPorts, connect);
    if icmp(host).FallsBack() {
      assert p.outcome == a.outcome;
      if a.outcome == Returned(true) {
        var k := |a.tried| - 1;
        assert a.tried == CommonPorts[..|a.tried|];
        assert connect(host, CommonPorts[k]) == Code(0);
        assert forall j :: 0 <= j < k ==> Refused(connect(host, CommonPorts[j])) by {
          forall j | 0 <= j < k
            ensures Refused(connect(host, CommonPorts[j]))
          {
            assert CommonPorts[j] == a.tried[j];
          }
        }
      }
      if exists k :: 0 <= k < |CommonPorts| && connect(host, CommonPorts[k]) == Code(0)
                     && forall j :: 0 <= j < k ==> Refused(connect(host, CommonPorts[j])) {
        var k :| 0 <= k < |CommonPorts| && connect(host, CommonPorts[k]) == Code(0)
                 && forall j :: 0 <= j < k ==> Refused(connect(host, CommonPorts[j]));
        FirstAnswerIsTaken(host, CommonPorts, connect, k);
      }
    }
  }

  /** If the port at index k answers and every earlier one is refused, the
      fallback stops there with True. */
  lemma {:induction false} FirstAnswerIsTaken(host: Host, ports: seq<int>, connect: (Host, int) -> Connect, k: nat)
    requires k < |ports| && connect(host, ports[k]) == Code(0)
    requires forall j :: 0 <= j < k ==> Refused(connect(host, ports[j]))
    ensures TryPorts(host, ports, connect) == Attempt(ports[..k + 1], Returned(true))
  {
    if k > 0 {
      FirstAnswerIsTaken(host, ports[1..], connect, k - 1);
      assert [ports[0]] + ports[1..][..k] == ports[..k + 1];
    }
  }

  // ---------------------------------------------------------------------
  // Aggregation (discover_hosts)
  // ---------------------------------------------------------------------

  /** The test `discover_hosts` applies to each finished probe: the host
      counts as active only when `ping_host` returned True. */
  function Alive(icmp: Host -> Icmp, connect: (Host, int) -> Connect): int -> bool
  {
    h => 0 <= h < 0x1_0000_0000 && PingHost(h, icmp, connect).outcome == Returned(true)
  }

  /** `discover_hosts(network)` over the addresses `network.hosts()`
      yields; the pool's `as_completed` hands back the probes in
      `completion` order, any permutation of the submitted hosts. */
  method DiscoverHosts(hosts: seq<Host>, completion: seq<Host>,
                       icmp: Host -> Icmp, connect: (Host, int) -> Connect)
    returns (active: seq<Host>)
    requires multiset(completion) == multiset(hosts)
    ensures active == Sort(Filter(hosts, Alive(icmp, connect)))
  {
    var keep := Alive(icmp, connect);
    var found: seq<Host> := [];
    for i := 0 to |completion|
      invariant found == Filter(completion[..i], keep)
    {
      var ip := completion[i];
      var probe := PingHost(ip, icmp, connect);
      if probe.outcome == Returned(true) {
        found := found + [ip];
      }
      // a probe that raised is skipped by `except Exception: continue`
      assert completion[..i + 1][..i] == completion[..i];
    }
    assert completion[..|completion|] == completion;
    CompletionOrderIrrelevant(completion, hosts, keep);
    SortedFilterWithin(hosts, keep);
    active := Sort(found);
  }

  /** What discovery reports: the hosts whose probe returned True, ascending,
      no more of them than were probed, and nothing else (a probe that
      raised counts as not alive); over distinct addresses, as
      `network.hosts()` yields them, no host is listed twice. */
  lemma DiscoveryResult(hosts: seq<Host>, icmp: Host -> Icmp, connect: (Host, int) -> Connect)
    ensures var r := Sort(Filter(hosts, Alive(icmp, connect)));
      && Ascending(r)
      && |r| <= |hosts|
      && (forall h: Host :: h in r <==> h in hosts && PingHost(h, icmp, connect).outcome == Returned(true))
      && (Distinct(hosts) ==> StrictlyAscending(r))
  {
    var keep := Alive(icmp, connect);
    var r := Sort(Filter(hosts, keep));
    SortedFilter(hosts, keep);
    if Distinct(hosts) {
      DistinctOccursOnce(hosts);
      forall x
        ensures multiset(r)[x] <= 1
      {
      }
      AscendingOnceIsStrict(r);
    }
  }
}
