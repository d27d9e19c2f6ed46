/** The command-line driver (NetworkInspector/network_scanner.py): the port
    specification parser and the order in which `main` validates input,
    discovers hosts and scans them. */
module NetworkScanner {
  import opened Wrappers
  import opened Sorting
  import opened PyStr
  import opened Net
  import HostDiscovery
  import PortScanner

  // ---------------------------------------------------------------------
  // parse_ports
  // ---------------------------------------------------------------------

  /** `list(range(lo, hi))`. */
  function Range(lo: int, hi: int): (r: seq<int>)
    ensures |r| == if lo < hi then hi - lo else 0
    ensures forall k :: 0 <= k < |r| ==> r[k] == lo + k
  {
    if lo < hi then seq(hi - lo, k => lo + k) else []
  }

  /** The ports scanned when no specification is given. */
  const DefaultPorts: seq<int> := Range(1, 1001)

  /** What one comma-separated part adds to the list: `start-end` adds
      `range(start, end + 1)`, anything else must be a single integer; None
      when `int()` or the two-way unpacking raises ValueError. */
  function PartPorts(part: string): Option<seq<int>>
  {
    if '-' in part then
      RangePorts(Split(part, '-'))
    else
      match ParseInt(part)
      case Some(port) => Some([port])
      case None => None
  }

  /** `start, end = map(int, sides)`, then `range(start, end + 1)`. */
  function RangePorts(sides: seq<string>): Option<seq<int>>
  {
    if |sides| != 2 then None
    else
      var start, end := ParseInt(sides[0]), ParseInt(sides[1]);
      if start.Some? && end.Some? then Some(Range(start.value, end.value + 1)) else None
  }

  /** A `start-end` part whose two sides parse adds the inclusive range. */
  lemma RangePart(part: string, start: int, end: int)
    requires '-' in part && |Split(part, '-')| == 2
    requires ParseInt(Split(part, '-')[0]) == Some(start)
    requires ParseInt(Split(part, '-')[1]) == Some(end)
    ensures PartPorts(part) == Some(Range(start, end + 1))
  {
    RangeSides(Split(part, '-'), start, end);
  }

  lemma RangeSides(sides: seq<string>, start: int, end: int)
    requires |sides| == 2
    requires ParseInt(sides[0]) == Some(start) && ParseInt(sides[1]) == Some(end)
    ensures RangePorts(sides) == Some(Range(start, end + 1))
  {
    var a, b := ParseInt(sides[0]), ParseInt(sides[1]);
    assert a.value == start && b.value == end;
    assert RangePorts(sides) == Some(Range(a.value, b.value + 1));
  }

  /** The list the loop of `parse_ports` builds by handing each part to
      `parsePart`, in order, duplicates kept; None as soon as one part
      raises. */
  function Gather(parts: seq<string>, parsePart: string -> Option<seq<int>>): Option<seq<int>>
  {
    if parts == [] then Some([])
    else
      match Gather(parts[..|parts| - 1], parsePart)
      case None => None
      case Some(ports) =>
        match parsePart(parts[|parts| - 1])
        case None => None
        case Some(more) => Some(ports + more)
  }

  /** The value of `parse_ports(ports_str)`: ValueError if some part is
      malformed, otherwise the sorted distinct ports the parts name. */
  function PortSpec(text: Option<string>): Result<seq<int>>
  {
    if text.None? || text.value == [] then
      Ok(DefaultPorts)
    else
      match Gather(Split(text.value, ','), PartPorts)
      case None => ValueError
      case Some(ports) => Ok(SortedDistinct(ports))
  }

  /** `parse_ports(ports_str)`, absent or empty text giving the default. */
  method ParsePorts(text: Option<string>) returns (r: Result<seq<int>>)
    ensures r == PortSpec(text)
  {
    if text.None? || text.value == [] {
      return Ok(Range(1, 1001));
    }
    var ports: seq<int> := [];
    var parts := Split(text.value, ',');
    for i := 0 to |parts|
      invariant Gather(parts[..i], PartPorts) == Some(ports)
    {
      var next := ParsePart(parts[i]);
      GatherStep(parts, i, PartPorts);
      if next.None? {
        GatherPrefixFails(parts, i + 1, PartPorts);
        return ValueError;
      }
      ports := ports + next.value;
    }
    GatherAll(parts, PartPorts);
    r := Ok(SortedDistinct(ports));
  }

  /** One iteration of the loop in `parse_ports`: the ports one part adds,
      or None where `int()` or the unpacking of `part.split('-')` raises. */
  method ParsePart(part: string) returns (next: Option<seq<int>>)
    ensures next == PartPorts(part)
  {
    if '-' in part {
      var sides := Split(part, '-');
      if |sides| != 2 {
        return None;
      }
      var start := ParseInt(sides[0]);
      var end := ParseInt(sides[1]);
      if start.None? || end.None? {
        return None;
      }
      RangePart(part, start.value, end.value);
      return Some(Range(start.value, end.value + 1));
    }
    var port := ParseInt(part);
    if port.None? {
      return None;
    }
    return Some([port.value]);
  }

  lemma GatherStep(parts: seq<string>, i: int, parsePart: string -> Option<seq<int>>)
    requires 0 <= i < |parts| && Gather(parts[..i], parsePart).Some?
    ensures Gather(parts[..i + 1], parsePart) ==
      if parsePart(parts[i]).Some?
      then Some(Gather(parts[..i], parsePart).value + parsePart(parts[i]).value)
      else None
  {
    var prefix := parts[..i + 1];
    assert |prefix| == i + 1 && prefix[i] == parts[i];
    assert prefix[..i] == parts[..i];
  }

  lemma GatherAll(parts: seq<string>, parsePart: string -> Option<seq<int>>)
    ensures Gather(parts[..|parts|], parsePart) == Gather(parts, parsePart)
  {
    assert parts[..|parts|] == parts;
  }

  /** The parts gather to a list exactly when every one of them parses. */
  lemma {:induction false} GatherDefined(parts: seq<string>, parsePart: string -> Option<seq<int>>)
    ensures Gather(parts, parsePart).Some? <==>
      forall k :: 0 <= k < |parts| ==> parsePart(parts[k]).Some?
  {
    if parts != [] {
      var n := |parts| - 1;
      var init := parts[..n];
      GatherDefined(init, parsePart);
      assert forall k :: 0 <= k < n ==> init[k] == parts[k];
    }
  }

  lemma GatherPrefixFails(parts: seq<string>, j: int, parsePart: string -> Option<seq<int>>)
    requires 0 <= j <= |parts| && Gather(parts[..j], parsePart).None?
    ensures Gather(parts, parsePart).None?
  {
    var prefix := parts[..j];
    GatherDefined(prefix, parsePart);
    GatherDefined(parts, parsePart);
    var k :| 0 <= k < j && parsePart(prefix[k]).None?;
    assert prefix[k] == parts[k];
  }

  /** The gathered list holds exactly the ports some part names, when
      `names` says which ports each part names. */
  lemma {:induction false} GatherMembers(parts: seq<string>, parsePart: string -> Option<seq<int>>,
                                         names: (string, int) -> bool, x: int)
    requires Gather(parts, parsePart).Some?
    requires forall p :: parsePart(p).Some? ==> (x in parsePart(p).value <==> names(p, x))
    ensures x in Gather(parts, parsePart).value <==> exists p :: p in parts && names(p, x)
  {
    if parts != [] {
      var n := |parts| - 1;
      var init, last := parts[..n], parts[n];
      assert Gather(parts, parsePart).value
        == Gather(init, parsePart).value + parsePart(last).value;
      GatherMembers(init, parsePart, names, x);
      if x in Gather(parts, parsePart).value {
        if x in Gather(init, parsePart).value {
          var p :| p in init && names(p, x);
          var k :| 0 <= k < n && init[k] == p;
          assert parts[k] == p;
        } else {
          assert last in parts && names(last, x);
        }
      }
      if exists p :: p in parts && names(p, x) {
        var p :| p in parts && names(p, x);
        var k :| 0 <= k <= n && parts[k] == p;
        if k < n {
          assert init[k] == p;
        }
      }
    }
  }

  lemma GatherSingle(part: string, parsePart: string -> Option<seq<int>>)
    ensures Gather([part], parsePart) == parsePart(part)
  {
    assert [part][..0] == [];
    if parsePart(part).Some? {
      assert [] + parsePart(part).value == parsePart(part).value;
    }
  }

  /** Parts that each add one port gather to those ports, in order. */
  lemma {:induction false} GatherSingles(parts: seq<string>, parsePart: string -> Option<seq<int>>,
                                         ports: seq<int>)
    requires |parts| == |ports|
    requires forall k :: 0 <= k < |parts| ==> parsePart(parts[k]) == Some([ports[k]])
    ensures Gather(parts, parsePart) == Some(ports)
  {
    if parts != [] {
      var n := |parts| - 1;
      GatherSingles(parts[..n], parsePart, ports[..n]);
      assert ports == ports[..n] + [ports[n]];
    }
  }

  /** The ports a part names, read as a set: every integer from start to
      end inclusive for `start-end` (none when start > end), the one
      integer otherwise. */
  predicate Denotes(part: string, x: int)
  {
    if '-' in part then
      var sides := Split(part, '-');
      && |sides| == 2
      && ParseInt(sides[0]).Some? && ParseInt(sides[1]).Some?
      && ParseInt(sides[0]).value <= x <= ParseInt(sides[1]).value
    else
      ParseInt(part) == Some(x)
  }

  /** The list a part adds holds exactly the ports it names. */
  lemma PartMembers(part: string, x: int)
    requires PartPorts(part).Some?
    ensures x in PartPorts(part).value <==> Denotes(part, x)
  {
    if '-' in part {
      var sides := Split(part, '-');
      var start, end := ParseInt(sides[0]).value, ParseInt(sides[1]).value;
      var r := Range(start, end + 1);
      RangePart(part, start, end);
      assert Denotes(part, x) <==> start <= x <= end;
      if start <= x <= end {
        assert r[x - start] == x;
      }
      if x in r {
        var k :| 0 <= k < |r| && r[k] == x;
      }
    } else {
      assert PartPorts(part).value == [ParseInt(part).value];
    }
  }

  /** Absent or empty text gives exactly 1, 2, ..., 1000. */
  lemma DefaultIsFirstThousand(text: Option<string>)
    requires text.None? || text.value == []
    ensures PortSpec(text).Ok?
    ensures |PortSpec(text).value| == 1000
    ensures forall k :: 0 <= k < 1000 ==> PortSpec(text).value[k] == k + 1
  {
  }

  /** The parsed list is strictly ascending: no port twice, even where
      ranges and single ports overlap. */
  lemma ResultStrictlyAscending(text: Option<string>)
    requires PortSpec(text).Ok?
    ensures StrictlyAscending(PortSpec(text).value)
  {
  }

  /** Set semantics: a port is in the result exactly when some part names
      it. */
  lemma ResultIsUnionOfParts(s: string, x: int)
    requires s != [] && PortSpec(Some(s)).Ok?
    ensures x in PortSpec(Some(s)).value <==> exists p :: p in Split(s, ',') && Denotes(p, x)
  {
    forall p | PartPorts(p).Some?
      ensures x in PartPorts(p).value <==> Denotes(p, x)
    {
      PartMembers(p, x);
    }
    GatherMembers(Split(s, ','), PartPorts, Denotes, x);
  }

  /** Malformed parts: a part with more than one `-`, an empty part, and a
      part with nothing before or after its `-` (so `-5` is not a negative
      port) each raise ValueError. */
  lemma MalformedPart(part: string)
    requires || Count(part, '-') >= 2
             || part == []
             || part[0] == '-'
             || part[|part| - 1] == '-'
    ensures PartPorts(part).None?
  {
    if part == [] {
    } else if Count(part, '-') >= 2 {
      CountPositive(part, '-');
    } else if part[0] == '-' {
      SplitLeadingSeparator(part, '-');
    } else {
      SplitTrailingSeparator(part, '-');
    }
  }

  /** One malformed part makes the whole specification raise ValueError. */
  lemma MalformedPartRejected(s: string, k: int)
    requires s != [] && 0 <= k < |Split(s, ',')|
    requires PartPorts(Split(s, ',')[k]).None?
    ensures PortSpec(Some(s)) == ValueError
  {
    GatherDefined(Split(s, ','), PartPorts);
  }

  /** No range check: every parsed port is a non-negative integer, and
      any non-negative integer, 0 and 70000 included, parses to itself. */
  lemma ResultNonNegative(text: Option<string>)
    requires PortSpec(text).Ok?
    ensures forall x :: x in PortSpec(text).value ==> x >= 0
  {
    if text.Some? && text.value != [] {
      var parts := Split(text.value, ',');
      forall x | x in PortSpec(text).value
        ensures x >= 0
      {
        ResultIsUnionOfParts(text.value, x);
        var p :| p in parts && Denotes(p, x);
        if '-' in p {
          var sides := Split(p, '-');
          assert '-' !in sides[0];
        }
      }
    }
  }

  lemma SinglePortUnchecked(n: nat)
    ensures PortSpec(Some(Decimal(n))) == Ok([n])
  {
    var s := Decimal(n);
    DecimalPart(n);
    SplitWithoutSeparator(s, ',');
    GatherSingles([s], PartPorts, [n]);
    StrictlyAscendingUnique(SortedDistinct([n]), [n]);
  }

  /** Order independence: texts whose comma-separated parts are the same
      up to order parse to the same result. */
  lemma OrderIndependent(s: string, t: string)
    requires s != [] && t != []
    requires multiset(Split(s, ',')) == multiset(Split(t, ','))
    ensures PortSpec(Some(s)) == PortSpec(Some(t))
  {
    var ps, qs := Split(s, ','), Split(t, ',');
    assert forall p :: p in ps <==> p in qs by {
      forall p
        ensures p in ps <==> p in qs
      {
        assert p in ps <==> p in multiset(ps);
        assert p in qs <==> p in multiset(qs);
      }
    }
    SameParts(ps, qs, PartPorts);
    if Gather(ps, PartPorts).Some? {
      var a, b := SortedDistinct(Gather(ps, PartPorts).value), SortedDistinct(Gather(qs, PartPorts).value);
      forall x
        ensures x in a <==> x in b
      {
        ResultIsUnionOfParts(s, x);
        ResultIsUnionOfParts(t, x);
      }
      StrictlyAscendingUnique(a, b);
    }
  }

  /** Parts drawn from the same set either all parse or not. */
  lemma SameParts(ps: seq<string>, qs: seq<string>, parsePart: string -> Option<seq<int>>)
    requires forall p :: p in ps <==> p in qs
    ensures Gather(ps, parsePart).Some? <==> Gather(qs, parsePart).Some?
  {
    GatherDefined(ps, parsePart);
    GatherDefined(qs, parsePart);
    if Gather(ps, parsePart).Some? {
      forall k | 0 <= k < |qs|
        ensures parsePart(qs[k]).Some?
      {
        assert qs[k] in ps;
        var j :| 0 <= j < |ps| && ps[j] == qs[k];
      }
    }
    if Gather(qs, parsePart).Some? {
      forall k | 0 <= k < |ps|
        ensures parsePart(ps[k]).Some?
      {
        assert ps[k] in qs;
        var j :| 0 <= j < |qs| && qs[j] == ps[k];
      }
    }
  }

  /** The decimal texts of a list of non-negative ports. */
  function Decimals(ports: seq<int>): (texts: seq<string>)
    requires forall k :: 0 <= k < |ports| ==> ports[k] >= 0
    ensures |texts| == |ports|
    ensures forall k :: 0 <= k < |ports| ==> texts[k] == Decimal(ports[k])
  {
    if ports == [] then [] else [Decimal(ports[0])] + Decimals(ports[1..])
  }

  /** A decimal part adds exactly its own value. */
  lemma DecimalPart(n: nat)
    ensures ',' !in Decimal(n) && '-' !in Decimal(n)
    ensures PartPorts(Decimal(n)) == Some([n])
  {
    ParseDecimal(n);
  }

  /** Re-parsing the comma-joined output of a non-empty result gives the
      same list. */
  lemma Reparse(text: Option<string>)
    requires PortSpec(text).Ok? && PortSpec(text).value != []
    ensures var r := PortSpec(text).value;
      (forall k :: 0 <= k < |r| ==> r[k] >= 0) && PortSpec(Some(Join(Decimals(r), ','))) == Ok(r)
  {
    var r := PortSpec(text).value;
    ResultNonNegative(text);
    assert forall k :: 0 <= k < |r| ==> r[k] in r;
    ResultStrictlyAscending(text);
    ReparseList(r);
  }

  /** A strictly ascending, non-empty list of non-negative ports, written out
      in decimal and joined with commas, parses back to itself. */
  lemma ReparseList(r: seq<int>)
    requires r != [] && StrictlyAscending(r)
    requires forall k :: 0 <= k < |r| ==> r[k] >= 0
    ensures PortSpec(Some(Join(Decimals(r), ','))) == Ok(r)
  {
    var joined := Join(Decimals(r), ',');
    JoinedDecimals(r);
    DecimalsGather(r);
    assert PortSpec(Some(joined)) == Ok(SortedDistinct(r));
    StrictlyAscendingUnique(SortedDistinct(r), r);
  }

  /** The comma-joined decimals are not empty and split back into the
      decimals. */
  lemma JoinedDecimals(r: seq<int>)
    requires r != []
    requires forall k :: 0 <= k < |r| ==> r[k] >= 0
    ensures Join(Decimals(r), ',') != []
    ensures Split(Join(Decimals(r), ','), ',') == Decimals(r)
  {
    var texts := Decimals(r);
    forall k | 0 <= k < |texts|
      ensures ',' !in texts[k]
    {
      DecimalPart(r[k]);
    }
    SplitJoin(texts, ',');
    var joined := Join(texts, ',');
    if joined == [] {
      SplitWithoutSeparator(joined, ',');
      assert false;
    }
  }

  /** Each decimal part adds its own port, so together they add the list. */
  lemma DecimalsGather(r: seq<int>)
    requires forall k :: 0 <= k < |r| ==> r[k] >= 0
    ensures Gather(Decimals(r), PartPorts) == Some(r)
  {
    var texts := Decimals(r);
    forall k | 0 <= k < |texts|
      ensures PartPorts(texts[k]) == Some([r[k]])
    {
      DecimalPart(r[k]);
    }
    GatherSingles(texts, PartPorts, r);
  }

  lemma ReversedRangeSides()
    ensures Split("5-3", '-') == [Decimal(5), Decimal(3)]
  {
    assert "5-3" == Decimal(5) + ['-'] + Decimal(3);
    SplitAfterPiece(Decimal(5), '-', Decimal(3));
    SplitWithoutSeparator(Decimal(3), '-');
  }

  lemma ReversedRangePart()
    ensures PartPorts("5-3") == Some([])
  {
    var part := "5-3";
    assert part[1] == '-';
    ReversedRangeSides();
    ParseDecimal(5);
    ParseDecimal(3);
    RangePart(part, 5, 3);
  }

  /** `5-3` is a well-formed specification naming no port at all. */
  lemma ReversedRangeIsEmpty()
    ensures PortSpec(Some("5-3")) == Ok([])
  {
    var part := "5-3";
    assert ',' !in part;
    SplitWithoutSeparator(part, ',');
    ReversedRangePart();
    GatherSingle(part, PartPorts);
    StrictlyAscendingUnique(SortedDistinct([]), []);
  }

  /** `int()` skips only white space around a number, and the separator
      U+001C is not white space, so the specification "\x1c80" raises
      ValueError. */
  lemma SeparatorAroundNumberRejected()
    ensures PortSpec(Some("\U{1C}80")) == ValueError
  {
    var part := "\U{1C}80";
    assert ',' !in part && '-' !in part;
    SplitWithoutSeparator(part, ',');
    assert TrimLeft(part) == part && TrimRight(part) == part;
    assert !DigitRun(part);
    assert ParseInt(part) == None;
    GatherSingle(part, PartPorts);
  }

  // ---------------------------------------------------------------------
  // main
  // ---------------------------------------------------------------------

  /** The parsed command line: `-i`, `-n NETWORK`, `-p PORTS`. */
  datatype Args = Args(listInterfaces: bool, network: Option<string>, ports: Option<string>)

  /** The world the run observes: `ipaddress.ip_network(text).hosts()`
      (None for ValueError), and the socket oracles of the two scanners. */
  datatype Env = Env(
    network: string -> Option<seq<Host>>,
    icmp: Host -> HostDiscovery.Icmp,
    connect: (Host, int) -> Connect,
    shutdownRaises: (Host, int) -> bool)

  /** What `main` does that the operator sees, in order. */
  datatype Event =
    | InterfacesListed
    | MissingNetwork
    | DiscoveryStarted
    | NoActiveHosts
    | ActiveHosts(hosts: seq<Host>)
    | ScanStarted(host: Host, ports: seq<int>)
    | OpenPorts(host: Host, open: seq<int>)
    | InputRejected

  /** The hosts discovery reports. */
  function Discovered(hosts: seq<Host>, env: Env): seq<Host>
  {
    var keep := HostDiscovery.Alive(env.icmp, env.connect);
    SortedFilterWithin(hosts, keep);
    Sort(Filter(hosts, keep))
  }

  /** The ports one host's scan reports. */
  function Scanned(host: Host, ports: seq<int>, env: Env): seq<int>
  {
    Sort(Filter(ports, PortScanner.IsOpen(host, env.connect, env.shutdownRaises)))
  }

  /** The events of scanning the given hosts one after the other, `open`
      giving the ports each scan reports. */
  function ScanEvents(hosts: seq<Host>, ports: seq<int>, open: Host -> seq<int>): seq<Event>
  {
    if hosts == [] then []
    else
      var host := hosts[|hosts| - 1];
      ScanEvents(hosts[..|hosts| - 1], ports, open) + [ScanStarted(host, ports), OpenPorts(host, open(host))]
  }

  /** What the scan of each host reports, for a fixed port list. */
  function ScanOpen(ports: seq<int>, env: Env): Host -> seq<int>
  {
    (host: Host) => Scanned(host, ports, env)
  }

  /** The events of the scan loop over the hosts discovery reports. */
  function ScanPhase(active: seq<Host>, ports: seq<int>, env: Env): seq<Event>
    requires active != []
  {
    if ports == [] then
      // the first scan_ports call raises ValueError (no workers)
      [ScanStarted(active[0], ports), InputRejected]
    else
      ScanEvents(active, ports, ScanOpen(ports, env))
  }

  /** The events from the start of discovery on, given the hosts discovery
      reports and the parsed port list. */
  function Probing(active: seq<Host>, ports: seq<int>, env: Env): seq<Event>
  {
    if active == [] then [DiscoveryStarted, NoActiveHosts]
    else [DiscoveryStarted, ActiveHosts(active)] + ScanPhase(active, ports, env)
  }

  /** The events of one run of `main`. */
  function RunTrace(args: Args, env: Env): seq<Event>
  {
    if args.listInterfaces then [InterfacesListed]
    else if args.network.None? || args.network.value == [] then [MissingNetwork]
    else
      match env.network(args.network.value)
      case None => [InputRejected]
      case Some(hosts) =>
        match PortSpec(args.ports)
        case ValueError => [InputRejected]
        case Ok(ports) => Probing(Discovered(hosts, env), ports, env)
  }

  /** `main()`: the early returns, then, inside the `try` whose ValueError
      handler ends the run, the network and the port list are parsed and
      probed. */
  method Run(args: Args, env: Env) returns (trace: seq<Event>)
    ensures trace == RunTrace(args, env)
  {
    if args.listInterfaces {
      return [InterfacesListed];
    }
    if args.network.None? || args.network.value == [] {
      return [MissingNetwork];
    }
    var network := env.network(args.network.value);
    if network.None? {
      return [InputRejected];
    }
    var ports := ParsePorts(args.ports);
    if ports.ValueError? {
      return [InputRejected];
    }
    trace := ProbeNetwork(network.value, ports.value, env);
  }

  /** The body of the `with console.status(...)` block: discovery, then the
      scan loop. Discovery sees its probes complete in submission order,
      which the sorting makes immaterial. */
  method ProbeNetwork(hosts: seq<Host>, ports: seq<int>, env: Env) returns (trace: seq<Event>)
    ensures trace == Probing(Discovered(hosts, env), ports, env)
  {
    var active := HostDiscovery.DiscoverHosts(hosts, hosts, env.icmp, env.connect);
    if active == [] {
      return [DiscoveryStarted, NoActiveHosts];
    }
    var scans := ScanHosts(active, ports, env);
    trace := [DiscoveryStarted, ActiveHosts(active)] + scans;
  }

  /** The loop `for host in active_hosts`: one `scan_ports` call per host, in
      order, each seeing its probes complete in submission order; the
      ValueError of an empty port list ends it at the first host. */
  method ScanHosts(active: seq<Host>, ports: seq<int>, env: Env) returns (trace: seq<Event>)
    requires active != []
    ensures trace == ScanPhase(active, ports, env)
  {
    trace := [];
    ghost var open := ScanOpen(ports, env);
    for i := 0 to |active|
      invariant ports == [] ==> i == 0
      invariant trace == ScanEvents(active[..i], ports, open)
    {
      var host := active[i];
      var found := ScanHost(host, ports, env);
      if found.ValueError? {
        return [ScanStarted(host, ports), InputRejected];
      }
      ScanEventsStep(active, i, ports, open);
      trace := trace + [ScanStarted(host, ports), OpenPorts(host, found.value)];
    }
    assert active[..|active|] == active;
  }

  /** One `scan_ports(host, ports)` call of the scan loop. */
  method ScanHost(host: Host, ports: seq<int>, env: Env) returns (found: Result<seq<int>>)
    ensures found == if ports == [] then ValueError else Ok(ScanOpen(ports, env)(host))
  {
    var workers;
    found, workers := PortScanner.ScanPorts(host, ports, ports, env.connect, env.shutdownRaises);
  }

  lemma ScanEventsStep(hosts: seq<Host>, i: int, ports: seq<int>, open: Host -> seq<int>)
    requires 0 <= i < |hosts|
    ensures ScanEvents(hosts[..i + 1], ports, open)
      == ScanEvents(hosts[..i], ports, open) + [ScanStarted(hosts[i], ports), OpenPorts(hosts[i], open(hosts[i]))]
  {
    assert hosts[..i + 1][..i] == hosts[..i];
  }

  /** The hosts a trace hands to `scan_ports`, in order. */
  function ScanCalls(trace: seq<Event>): seq<Host>
  {
    if trace == [] then []
    else
      var last := trace[|trace| - 1];
      ScanCalls(trace[..|trace| - 1]) + (if last.ScanStarted? then [last.host] else [])
  }

  lemma ScanCallsSnoc(trace: seq<Event>, e: Event)
    ensures ScanCalls(trace + [e]) == ScanCalls(trace) + (if e.ScanStarted? then [e.host] else [])
  {
    assert (trace + [e])[..|trace|] == trace;
  }

  lemma {:induction false} ScanCallsAppend(a: seq<Event>, b: seq<Event>)
    ensures ScanCalls(a + b) == ScanCalls(a) + ScanCalls(b)
  {
    if b != [] {
      var init, e := b[..|b| - 1], b[|b| - 1];
      assert b == init + [e];
      assert a + b == (a + init) + [e];
      ScanCallsAppend(a, init);
      ScanCallsSnoc(a + init, e);
      ScanCallsSnoc(init, e);
    } else {
      assert a + b == a;
    }
  }

  /** Scanning a list of hosts hands exactly those hosts to `scan_ports`,
      in order. */
  lemma {:induction false} ScanEventsCalls(hosts: seq<Host>, ports: seq<int>, open: Host -> seq<int>)
    ensures ScanCalls(ScanEvents(hosts, ports, open)) == hosts
  {
    if hosts != [] {
      var init, host := hosts[..|hosts| - 1], hosts[|hosts| - 1];
      ScanEventsCalls(init, ports, open);
      var before := ScanEvents(init, ports, open);
      var started := ScanStarted(host, ports);
      assert ScanEvents(hosts, ports, open) == (before + [started]) + [OpenPorts(host, open(host))];
      ScanCallsSnoc(before + [started], OpenPorts(host, open(host)));
      ScanCallsSnoc(before, started);
      assert hosts == init + [host];
    }
  }

  /** Every scan is given the same port list. */
  lemma {:induction false} ScanEventsPorts(hosts: seq<Host>, ports: seq<int>, open: Host -> seq<int>)
    ensures forall e :: e in ScanEvents(hosts, ports, open) && e.ScanStarted? ==> e.ports == ports
  {
    if hosts != [] {
      ScanEventsPorts(hosts[..|hosts| - 1], ports, open);
    }
  }

  /** Bad input ends the run before any probing: no network, a network
      `ip_network` rejects, or a port specification that raises. */
  lemma RejectedBeforeDiscovery(args: Args, env: Env)
    requires !args.listInterfaces
    requires || args.network.None? || args.network.value == []
             || env.network(args.network.value).None?
             || PortSpec(args.ports).ValueError?
    ensures RunTrace(args, env) == [MissingNetwork] || RunTrace(args, env) == [InputRejected]
  {
  }

  /** An empty discovery result ends the run before any scan. */
  lemma NoActiveHostsNoScan(args: Args, env: Env, hosts: seq<Host>)
    requires !args.listInterfaces && args.network.Some? && args.network.value != []
    requires env.network(args.network.value) == Some(hosts)
    requires PortSpec(args.ports).Ok?
    requires Discovered(hosts, env) == []
    ensures RunTrace(args, env) == [DiscoveryStarted, NoActiveHosts]
  {
  }

  /** Once discovery reports some hosts and the port list is not empty,
      each reported host is scanned exactly once, in the order discovery
      reports them, each time with the same port list. */
  lemma ProbingScansEachHost(active: seq<Host>, ports: seq<int>, env: Env)
    requires active != [] && ports != []
    ensures var trace := Probing(active, ports, env);
      && trace[..2] == [DiscoveryStarted, ActiveHosts(active)]
      && ScanCalls(trace) == active
      && forall e :: e in trace && e.ScanStarted? ==> e.ports == ports
  {
    var open := ScanOpen(ports, env);
    assert Probing(active, ports, env) == [DiscoveryStarted, ActiveHosts(active)] + ScanEvents(active, ports, open);
    ScanTrace(active, ports, open);
  }

  /** The facts of ProbingScansEachHost for any report of open ports. */
  lemma ScanTrace(active: seq<Host>, ports: seq<int>, open: Host -> seq<int>)
    ensures var trace := [DiscoveryStarted, ActiveHosts(active)] + ScanEvents(active, ports, open);
      && trace[..2] == [DiscoveryStarted, ActiveHosts(active)]
      && ScanCalls(trace) == active
      && forall e :: e in trace && e.ScanStarted? ==> e.ports == ports
  {
    var head := [DiscoveryStarted, ActiveHosts(active)];
    var scans := ScanEvents(active, ports, open);
    assert (head + scans)[..2] == head;
    ScanEventsCalls(active, ports, open);
    ScanEventsPorts(active, ports, open);
    ScanCallsAppend(head, scans);
    assert ScanCalls(head) == [] by {
      ScanCallsSnoc([DiscoveryStarted], ActiveHosts(active));
      ScanCallsSnoc([], DiscoveryStarted);
    }
  }

  /** A run with valid input scans the hosts discovery reports, in order,
      with the parsed port list. */
  lemma ScansFollowDiscovery(args: Args, env: Env, hosts: seq<Host>, ports: seq<int>)
    requires !args.listInterfaces && args.network.Some? && args.network.value != []
    requires env.network(args.network.value) == Some(hosts)
    requires PortSpec(args.ports) == Ok(ports) && ports != []
    requires Discovered(hosts, env) != []
    ensures var trace := RunTrace(args, env);
      && trace[..2] == [DiscoveryStarted, ActiveHosts(Discovered(hosts, env))]
      && ScanCalls(trace) == Discovered(hosts, env)
      && forall e :: e in trace && e.ScanStarted? ==> e.ports == ports
  {
    RunProbes(args, env, hosts, ports);
    ProbingScansEachHost(Discovered(hosts, env), ports, env);
  }

  /** Once the network and the port list parse, the run is the probing phase. */
  lemma RunProbes(args: Args, env: Env, hosts: seq<Host>, ports: seq<int>)
    requires !args.listInterfaces && args.network.Some? && args.network.value != []
    requires env.network(args.network.value) == Some(hosts)
    requires PortSpec(args.ports) == Ok(ports)
    ensures RunTrace(args, env) == Probing(Discovered(hosts, env), ports, env)
  {
  }

  /** A specification that parses to no ports at all, such as `5-3`, is not
      rejected up front: discovery runs, and the first `scan_ports` call
      raises ValueError, which ends the run. */
  lemma EmptyPortListFailsAfterDiscovery(args: Args, env: Env, hosts: seq<Host>)
    requires !args.listInterfaces && args.network.Some? && args.network.value != []
    requires env.network(args.network.value) == Some(hosts)
    requires PortSpec(args.ports) == Ok([])
    requires Discovered(hosts, env) != []
    ensures RunTrace(args, env) == [DiscoveryStarted, ActiveHosts(Discovered(hosts, env)),
                                    ScanStarted(Discovered(hosts, env)[0], []), InputRejected]
  {
  }
}
