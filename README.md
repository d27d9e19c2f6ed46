# NetworkInspector scanner core in Dafny

A model of the NetworkInspector command-line scanner. It covers three parts:

- the port-specification parser and `main`'s validate, discover, scan sequence (`network_scanner.py`);
- host discovery (`scanner/host_discovery.py`): building the ICMP echo request, the ICMP probe with its TCP fallback, and the parallel sweep over a network;
- the port scanner (`scanner/port_scanner.py`): one TCP probe, and the parallel scan of a port list.

Layout:

- `wrappers.dfy`: `Option` and `Result`. `ValueError` is the exception the parser raises on malformed text; the parser's other failures, on ranges too large to build, are listed under "Left out".
- `sorting.dfy`: Python's `sorted(...)`, `sorted(list(set(...)))` and the filter the result-collection loops perform, with the facts the scanners rely on.
- `pystr.dfy`: `str.split`, `str.join`, `int(s)` in base 10 and `str(n)`.
- `net.dfy`: IPv4 hosts as 32-bit numbers, and the outcomes of a TCP connect and of a probe call.
- `host_discovery.dfy`: module `HostDiscovery`.
- `port_scanner.dfy`: module `PortScanner`.
- `network_scanner.dfy`: module `NetworkScanner`, covering `parse_ports` and `main`.

Modelling choices:

- **Sockets and addresses are parameters.** Every socket operation is a function argument (an oracle):
  - `connect(host, port)` gives what `connect_ex` does: a result code, `socket.error`, or another exception;
  - `shutdownRaises(host, port)` says whether `shutdown` raises;
  - `icmp(host)` says whether the raw-socket exchange got a reply, failed in a handled way, or raised something else;
  - `Env.network` is `ipaddress.ip_network(text).hosts()`, or `None` when it raises ValueError.
- **Thread pools become loops.** A pool with `as_completed` is a sequential loop over a `completion` order, which may be any permutation of the submitted work. `Sorting.CompletionOrderIrrelevant` shows the sorted result is the same for every order, so `main` uses submission order.
- **`main` produces an event trace.** `main` is the method `NetworkScanner.Run`. It returns the sequence of events an operator sees (`Event`), and `RunTrace` specifies that sequence.

## Model

| member | source | states |
|---|---|---|
| PyStr.Split | NetworkInspector/network_scanner.py:24 | `s.split(sep)` has one more piece than `s` has separators, and no piece contains the separator |
| PyStr.SplitJoin | NetworkInspector/network_scanner.py:24 | splitting `sep.join(parts)` gives `parts` back when no part holds the separator (the partner of `Split`) |
| PyStr.ParseInt | NetworkInspector/network_scanner.py:26 | `int("")` raises; a text without `-` never parses to a negative number |
| PyStr.ParseDecimal | NetworkInspector/network_scanner.py:29 | `int(str(n)) == n` for every non-negative `n` |
| Sorting.Sort | NetworkInspector/scanner/port_scanner.py:40 | `sorted(xs)` is ascending and a permutation of `xs` |
| Sorting.SortedDistinct | NetworkInspector/network_scanner.py:30 | `sorted(list(set(xs)))` is strictly ascending and has exactly the members of `xs` |
| Sorting.CompletionOrderIrrelevant | NetworkInspector/scanner/port_scanner.py:32-40 | for any completion order that permutes the submissions, sorting the accepted results gives the same list |
| Sorting.SortedFilter | NetworkInspector/scanner/host_discovery.py:71-79 | the sorted kept results are ascending, no longer than the input, and keep each accepted element exactly as often as it was submitted and nothing else |
| NetworkScanner.Range | NetworkInspector/network_scanner.py:27 | `range(lo, hi)` has `hi - lo` elements (none when `hi <= lo`), and its k-th is `lo + k` |
| NetworkScanner.RangePart | NetworkInspector/network_scanner.py:25-27 | a part with exactly one `-` whose two sides both parse adds `range(start, end + 1)` |
| NetworkScanner.ParsePart | NetworkInspector/network_scanner.py:25-29 | one loop iteration yields exactly what the part adds, or the ValueError |
| NetworkScanner.ParsePorts | NetworkInspector/network_scanner.py:19-30 | the loop with its early ValueError computes `PortSpec(text)`: the default for absent or empty text, otherwise ValueError or the sorted distinct union of the parts |
| NetworkScanner.GatherDefined | NetworkInspector/network_scanner.py:24-29 | the loop finishes without raising exactly when every part parses |
| NetworkScanner.PartMembers | NetworkInspector/network_scanner.py:25-29 | a parsed part adds exactly the integers it names: from start to end inclusive for `start-end`, the single integer otherwise |
| NetworkScanner.DefaultIsFirstThousand | NetworkInspector/network_scanner.py:21-22 | absent or empty text gives exactly 1, 2, ..., 1000 |
| NetworkScanner.ResultStrictlyAscending | NetworkInspector/network_scanner.py:30 | a parsed list is strictly ascending, so no port appears twice |
| NetworkScanner.ResultIsUnionOfParts | NetworkInspector/network_scanner.py:24-30 | a port is in the result if and only if some comma-separated part names it |
| NetworkScanner.MalformedPart | NetworkInspector/network_scanner.py:25-29 | an empty part, a part with two or more `-`, or a part starting or ending with `-` (so `-5`) raises ValueError |
| NetworkScanner.MalformedPartRejected | NetworkInspector/network_scanner.py:24-29 | one malformed part makes the whole specification raise ValueError |
| NetworkScanner.ResultNonNegative | NetworkInspector/network_scanner.py:24-30 | every parsed port is non-negative; there is no upper bound check |
| NetworkScanner.SinglePortUnchecked | NetworkInspector/network_scanner.py:28-30 | any non-negative integer written in decimal, 0 and 70000 included, parses to the one-element list of itself |
| NetworkScanner.OrderIndependent | NetworkInspector/network_scanner.py:24-30 | two specifications whose parts are the same multiset give the same result |
| NetworkScanner.DecimalPart | NetworkInspector/network_scanner.py:28-29 | the decimal text of `n` has no `,` or `-` and adds exactly `[n]` |
| NetworkScanner.Reparse | NetworkInspector/network_scanner.py:19-30 | joining a non-empty result's ports with commas and parsing again gives the same list |
| NetworkScanner.ReparseList | NetworkInspector/network_scanner.py:24-30 | any non-empty strictly ascending list of non-negative ports, written in decimal and joined with commas, parses back to itself |
| NetworkScanner.ReversedRangePart | NetworkInspector/network_scanner.py:25-27 | the part `5-3` is accepted and adds no port |
| NetworkScanner.ReversedRangeIsEmpty | NetworkInspector/network_scanner.py:19-30 | the specification `5-3` parses to the empty list instead of raising |
| NetworkScanner.SeparatorAroundNumberRejected | NetworkInspector/network_scanner.py:28-29 | a number wrapped in the separator U+001C, which `int()` does not skip, makes the specification raise ValueError |
| NetworkScanner.Run | NetworkInspector/network_scanner.py:44-98 | `main`'s early returns and its `try` block produce exactly the events of `RunTrace` |
| NetworkScanner.ProbeNetwork | NetworkInspector/network_scanner.py:59-93 | discovery, then the no-hosts return or the scan loop, produce exactly the events of `Probing` |
| NetworkScanner.ScanHosts | NetworkInspector/network_scanner.py:79-93 | the loop scans every active host in order; with an empty port list the first `scan_ports` raises and ends the run |
| NetworkScanner.ScanHost | NetworkInspector/network_scanner.py:81 | one `scan_ports` call raises ValueError for an empty port list, and otherwise reports the host's sorted open ports |
| NetworkScanner.ScanEventsCalls | NetworkInspector/network_scanner.py:79-81 | the scan loop hands exactly the active hosts to `scan_ports`, in order |
| NetworkScanner.ScanEventsPorts | NetworkInspector/network_scanner.py:79-81 | every `scan_ports` call gets the same parsed port list |
| NetworkScanner.RejectedBeforeDiscovery | NetworkInspector/network_scanner.py:51-57 | a missing network, a network `ip_network` rejects, or a port specification that raises ends the run before any probe |
| NetworkScanner.NoActiveHostsNoScan | NetworkInspector/network_scanner.py:64-66 | an empty discovery result ends the run with no scan |
| NetworkScanner.ProbingScansEachHost | NetworkInspector/network_scanner.py:61-81 | with hosts found and ports to scan, the hosts are listed first, then each is scanned exactly once, in discovery order, with the same ports |
| NetworkScanner.RunProbes | NetworkInspector/network_scanner.py:55-62 | once the network and the ports parse, the run is discovery followed by scanning |
| NetworkScanner.ScansFollowDiscovery | NetworkInspector/network_scanner.py:55-93 | a whole run with valid input scans exactly the discovered hosts, in order, with the parsed ports |
| NetworkScanner.EmptyPortListFailsAfterDiscovery | NetworkInspector/network_scanner.py:79-96 | a specification that parses to no ports is only rejected after discovery, when the first `scan_ports` raises ValueError |
| HostDiscovery.EchoHeader | NetworkInspector/scanner/host_discovery.py:22 | the `bbHHh` header is 8 bytes: type 8, code 0, the checksum as a little-endian word, identifier 0, sequence 1 |
| HostDiscovery.WordSumAppend | NetworkInspector/scanner/host_discovery.py:13-18 | the word sum over an even-length prefix followed by the rest is the sum of the two sums |
| HostDiscovery.TrailingOddByte | NetworkInspector/scanner/host_discovery.py:17-18 | a trailing odd byte is added as it is |
| HostDiscovery.SumWords | NetworkInspector/scanner/host_discovery.py:13-18 | the summing loop computes the little-endian word sum of the buffer |
| HostDiscovery.Fold | NetworkInspector/scanner/host_discovery.py:19 | the full end-around-carry fold fits 16 bits, is zero only for zero, and keeps the value modulo 0xffff |
| HostDiscovery.SingleFoldSuffices | NetworkInspector/scanner/host_discovery.py:19 | when one fold leaves no carry, the single fold equals the full fold |
| HostDiscovery.Complement16 | NetworkInspector/scanner/host_discovery.py:20 | `~x & 0xffff` is a 16-bit value, and is `0xffff - x` for a 16-bit `x` |
| HostDiscovery.SingleFoldChecksum | NetworkInspector/scanner/host_discovery.py:19-20 | the checksum as written is a 16-bit value |
| HostDiscovery.CreateIcmpPacket | NetworkInspector/scanner/host_discovery.py:7-23 | the packet is 16 bytes: the header carrying the single-fold checksum of the zero-checksum packet, then the payload unchanged |
| HostDiscovery.PacketSum | NetworkInspector/scanner/host_discovery.py:22 | writing `c` into the checksum field adds `c` to the packet's word sum |
| HostDiscovery.ComplementCancels | NetworkInspector/scanner/host_discovery.py:20 | adding the complement of the folded sum makes the folded total 0xffff |
| HostDiscovery.SingleFoldVerifies | NetworkInspector/scanner/host_discovery.py:19-23 | when the single fold leaves no carry, the packet passes the receiver's check |
| HostDiscovery.SingleFoldCounterexample | NetworkInspector/scanner/host_discovery.py:19-20 | for one payload the single fold leaves a carry, and the finished packet folds to 1 instead of 0xffff |
| HostDiscovery.InternetChecksum | NetworkInspector/scanner/host_discovery.py:19-20 | the fully folded checksum is a 16-bit value that agrees with the code's whenever one fold suffices |
| HostDiscovery.CorrectedIcmpPacket | NetworkInspector/scanner/host_discovery.py:7-23 | the packet with the fully folded checksum is 16 bytes, keeps the payload, and passes the receiver's check for every payload |
| HostDiscovery.CorrectedChecksumVerifies | NetworkInspector/scanner/host_discovery.py:19-23 | the fully folded checksum makes the packet's folded sum 0xffff |
| HostDiscovery.TryPorts | NetworkInspector/scanner/host_discovery.py:34-43 | the ports connected to are a prefix of the fallback list |
| HostDiscovery.TcpPingHost | NetworkInspector/scanner/host_discovery.py:25-43 | the loop with its early returns gives exactly the ports tried and the outcome of `TcpPing`: loopback is alive with no connect |
| HostDiscovery.FallbackOrder | NetworkInspector/scanner/host_discovery.py:34-43 | every port before the last one tried was refused; True exactly when the last port completed its handshake, a raise exactly when it raised something else, False exactly when every port was refused |
| HostDiscovery.FirstAnswerIsTaken | NetworkInspector/scanner/host_discovery.py:34-40 | the first answering port after refusals ends the fallback with True |
| HostDiscovery.OnlySshAnswers | NetworkInspector/scanner/host_discovery.py:33-40 | with only port 22 answering, ports 80, 443 and 22 are tried in that order and the answer is True |
| HostDiscovery.PingHost | NetworkInspector/scanner/host_discovery.py:45-62 | loopback is alive with no probe; any other host tries ICMP; a reply means alive, an unexpected exception escapes, and a timeout, socket error or missing privilege gives exactly the ports tried and the outcome of `tcp_ping_host`; the TCP fallback runs only after such a handled failure |
| HostDiscovery.PingHostSshFallback | NetworkInspector/scanner/host_discovery.py:33-62 | after a handled ICMP failure, ports 80 and 443 refusing and port 22 answering make the host alive after exactly those three connects |
| HostDiscovery.PingHostFallbackFails | NetworkInspector/scanner/host_discovery.py:33-62 | after a handled ICMP failure, every common port refusing reports the host down after all four connects, and a non-socket exception on port 80 escapes after that one connect |
| HostDiscovery.PingHostDecision | NetworkInspector/scanner/host_discovery.py:45-62 | a host other than loopback is alive if and only if ICMP replies, or ICMP fails in a handled way and some common port answers after every earlier one was refused |
| HostDiscovery.DiscoverHosts | NetworkInspector/scanner/host_discovery.py:64-79 | for any completion order, the sweep returns the sorted list of hosts whose probe returned True |
| HostDiscovery.DiscoveryResult | NetworkInspector/scanner/host_discovery.py:71-79 | the result is ascending, no longer than the host list, and holds exactly the hosts whose probe returned True (a probe that raised counts as dead); over distinct addresses no host is listed twice |
| PortScanner.CheckPort | NetworkInspector/scanner/port_scanner.py:5-21 | True if and only if the port is in 0..65535 and the handshake completed; raises if and only if the port is out of range or the connect raised something other than `socket.error` |
| PortScanner.ScanPorts | NetworkInspector/scanner/port_scanner.py:23-40 | the pool has `min(50, len(ports))` workers; an empty list raises ValueError; otherwise, for any completion order, the result is the sorted list of ports whose probe returned True |
| PortScanner.ScanResult | NetworkInspector/scanner/port_scanner.py:32-40 | a successful scan is ascending, no longer than the request, and reports each port whose handshake completed exactly as often as it was requested and nothing else |

## Left out

- Sockets, timeouts and the network are oracle parameters. Whether a host answers is not modelled, only what the code does with each answer.
- `ipaddress.ip_network(...).hosts()` is an oracle in `Env`. Parsing CIDR text and enumerating hosts is not modelled.
- The payload is the eight bytes `struct.pack('d', time.time())` produces. It is a parameter of `CreateIcmpPacket`; clocks and floating point are not modelled.
- `struct.pack` is written out byte by byte for a little-endian host. The ICMP reply itself is never inspected by the source, so it is not modelled.
- Thread pools run as sequential loops over a completion order. Interleaving, the 50-worker limit of discovery and the real scheduling are not modelled; only the fact that the completion order cannot change a result is.
- `NetworkScanner.Run` lets discovery and every scan see their probes complete in submission order. `CompletionOrderIrrelevant`, `DiscoverHosts` and `ScanPorts` prove any other order gives the same events.
- `parse_arguments` (argparse), `display_interfaces`, the `rich` tables and status spinner, and the message texts are not modelled. Each becomes one event of `Event`.
- The `except Exception` handler of `main` is not modelled as its own event. Apart from the size limit of the next line, no modelled operation raises anything but ValueError out of `main`'s `try` block.
- NetworkScanner.ParsePorts: does not model the size limit of `ports.extend(range(start, end + 1))`. A range with more than `sys.maxsize` elements (`0-99999999999999999999`) raises OverflowError, and one whose list cannot be allocated (`0-4000000000000`) raises MemoryError; `main`'s `except Exception` then ends the run before discovery. The model's lists are unbounded, so `PortSpec` returns these ranges and `RunTrace` goes on to discovery.
- NetworkScanner.ParsePart: the same size limit applies to a single range part; the model adds the whole range.
- `scanner/network_utils.py` is not part of this model. It is only called to list interfaces.
- PyStr.ParseInt: accepts ASCII digits only. Python's `int` also accepts other Unicode decimal digits and limits the number of digits; neither is modelled.
- PyStr.IsSpace: covers the fixed list of characters `int()` skips around a number (ASCII `\t` to `\r` and the space, and the non-ASCII white space), not a general Unicode white-space property. U+001C to U+001F are excluded, as in `int()`.
- Python's `sorted` is stable and compares hosts as `IPv4Address` objects. The model compares their 32-bit numbers, which orders them the same way.

## Findings

| source | as written | input that shows it | evidently intended | confidence | as-written member | corrected member |
|---|---|---|---|---|---|---|
| NetworkInspector/scanner/host_discovery.py:19-20 | one end-around-carry fold, then the complement | payload bytes `c4 dd 8c 76 cd 69 d9 41`, which `struct.pack('d', time.time())` gives for the clock reading 1705457114.2010355: the sum 0x1ffff folds to 0x10000, the checksum becomes 0xffff, and the finished packet folds to 1 instead of 0xffff | fold until no carry remains (section 1 of RFC 1071), giving 0xfffe here | not executed | HostDiscovery.SingleFoldCounterexample | HostDiscovery.CorrectedIcmpPacket |
