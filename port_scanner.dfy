/** The port scanner: `check_port` and `scan_ports`
    (NetworkInspector/scanner/port_scanner.py). */
module PortScanner {
  import opened Wrappers
  import opened Net
  import opened Sorting

  /** The fixed cap on the worker pool of `scan_ports`. */
  const MaxWorkers := 50

  /** `check_port(ip, port)`. The connect oracle gives what `connect_ex`
      does for an address; `shutdownRaises` says whether `shutdown` raises
      after a completed handshake. A port outside 0..65535 makes
      `connect_ex` raise OverflowError, which the handler for
      `socket.timeout`/`socket.error` does not catch. */
  function CheckPort(host: Host, port: int, connect: (Host, int) -> Connect,
                     shutdownRaises: (Host, int) -> bool): (r: Outcome)
    ensures r == Returned(true) <==> 0 <= port <= 0xffff && connect(host, port) == Code(0)
    ensures r == Raised <==> !(0 <= port <= 0xffff) || connect(host, port) == Fault
  {
    if !(0 <= port <= 0xffff) then
      Raised
    else
      match connect(host, port)
      case Code(errno) =>
        if errno != 0 then Returned(false)
        else if shutdownRaises(host, port) then Returned(true) // swallowed by the bare except
        else Returned(true)
      case SocketError => Returned(false)
      case Fault => Raised
  }

  /** The test `scan_ports` applies to each finished probe: the port counts
      as open only when the probe returned True. */
  function IsOpen(host: Host, connect: (Host, int) -> Connect,
                  shutdownRaises: (Host, int) -> bool): int -> bool
  {
    port => CheckPort(host, port, connect, shutdownRaises) == Returned(true)
  }

  /** `scan_ports(ip, ports)`. The pool's `as_completed` hands back the
      probes in `completion` order, any permutation of the submitted ports;
      `workers` is the `max_workers` the pool is created with. */
  method ScanPorts(host: Host, ports: seq<int>, completion: seq<int>,
                   connect: (Host, int) -> Connect, shutdownRaises: (Host, int) -> bool)
    returns (r: Result<seq<int>>, workers: int)
    requires multiset(completion) == multiset(ports)
    ensures workers <= MaxWorkers && workers <= |ports|
    ensures workers == MaxWorkers || workers == |ports|
    ensures r == ValueError <==> ports == []
    ensures r.Ok? ==> r.value == Sort(Filter(ports, IsOpen(host, connect, shutdownRaises)))
  {
    workers := if MaxWorkers < |ports| then MaxWorkers else |ports|;
    if workers <= 0 {
      // ThreadPoolExecutor rejects max_workers=0 with ValueError
      return ValueError, workers;
    }
    var keep := IsOpen(host, connect, shutdownRaises);
    var open: seq<int> := [];
    for i := 0 to |completion|
      invariant open == Filter(completion[..i], keep)
    {
      var port := completion[i];
      var probe := CheckPort(host, port, connect, shutdownRaises);
      if probe == Returned(true) {
        open := open + [port];
      }
      // a probe that raised is skipped by `except Exception: continue`
      assert completion[..i + 1][..i] == completion[..i];
    }
    assert completion[..|completion|] == completion;
    CompletionOrderIrrelevant(completion, ports, keep);
    r := Ok(Sort(open));
  }

  /** What a successful scan reports: the ports whose handshake completed,
      ascending, each as often as it was requested, and nothing else; ports
      outside 0..65535 and probes that raised count as closed. */
  lemma ScanResult(host: Host, ports: seq<int>, connect: (Host, int) -> Connect,
                   shutdownRaises: (Host, int) -> bool)
    ensures var r := Sort(Filter(ports, IsOpen(host, connect, shutdownRaises)));
      && Ascending(r)
      && |r| <= |ports|
      && (forall p :: multiset(r)[p] ==
            if 0 <= p <= 0xffff && connect(host, p) == Code(0) then multiset(ports)[p] else 0)
  {
    var keep := IsOpen(host, connect, shutdownRaises);
    SortedFilter(ports, keep);
    forall p
      ensures keep(p) <==> 0 <= p <= 0xffff && connect(host, p) == Code(0)
    {
    }
  }
}
