/**
 * Network security audit (`check_network_security`): the connectivity probe,
 * the resolver's first `nameserver`, the IPv4 address of every interface
 * and the scan of the privileged TCP ports on the loopback address.
 *
 * The environment is an input:
 *   - `pingExit`: the exit status of `ping -c 1 8.8.8.8`, `None` when it cannot be started;
 *   - `resolv`: the lines of the resolver configuration, each with its newline, `None` when it
 *     cannot be read;
 *   - `listing`: the interface names, `None` when the interface directory cannot be listed;
 *   - `ipAddr(name)`: the output of `ip addr show name`, `None` when that call raises;
 *   - `connects(port)`: whether a connect to 127.0.0.1 on `port` succeeds.
 */
module Network {
  import opened PyStr

  const ERROR := "Error"
  const AVAILABLE := "Available"
  const NOT_AVAILABLE := "Not available"
  const NO_IPV4 := "No IPv4 address"
  const NAMESERVER := "nameserver"
  const INET := "inet "
  const LAST_PORT := 1023

  datatype NetworkInfo = NetworkInfo(
    connectivity: string,
    dnsServer: string,
    interfaces: map<string, string>,
    openPorts: seq<int>)

  // ---------------------------------------------------------------- connectivity

  /** `subprocess.check_call`: returns the exit status 0, and raises (`None`) on any other outcome. */
  function CheckCall(exit: Option<int>): (r: Option<int>)
  {
    if exit == Some(0) then Some(0) else None
  }

  /**
   * The "Internet Connectivity" field: `Available` when the probe returns,
   * otherwise the default `Error`. `Not available` is never the result,
   * because `check_call` only returns when the status is 0.
   */
  function Connectivity(pingExit: Option<int>): (r: string)
    ensures r == AVAILABLE <==> pingExit == Some(0)
    ensures r != AVAILABLE ==> r == ERROR
    ensures r != NOT_AVAILABLE
  {
    match CheckCall(pingExit)
    case None => ERROR
    case Some(response) => if response == 0 then AVAILABLE else NOT_AVAILABLE
  }

  // ---------------------------------------------------------------- DNS server

  predicate IsNameserverLine(line: string)
  {
    StartsWith(line, NAMESERVER)
  }

  /**
   * What a matching line yields: its second whitespace token, or `Error`
   * when `line.split()[1]` raises.
   */
  function NameserverValue(line: string): string
  {
    var tokens := SplitWs(line);
    if |tokens| < 2 then ERROR else tokens[1]
  }

  /** The "DNS Server" field as the resolver lines decide it, scanning them in file order. */
  function DnsFromLines(lines: seq<string>): string
  {
    if lines == [] then ERROR
    else if IsNameserverLine(lines[0]) then NameserverValue(lines[0])
    else DnsFromLines(lines[1..])
  }

  function DnsServer(resolv: Option<seq<string>>): string
  {
    match resolv
    case None => ERROR
    case Some(lines) => DnsFromLines(lines)
  }

  /** The first line starting with `nameserver` decides the field. */
  lemma {:induction false} DnsFirstNameserver(lines: seq<string>, i: nat)
    requires i < |lines| && IsNameserverLine(lines[i])
    requires forall j :: 0 <= j < i ==> !IsNameserverLine(lines[j])
    ensures DnsFromLines(lines) == NameserverValue(lines[i])
    ensures |SplitWs(lines[i])| >= 2 ==> DnsFromLines(lines) == SplitWs(lines[i])[1]
    ensures |SplitWs(lines[i])| < 2 ==> DnsFromLines(lines) == ERROR
  {
    if i > 0 {
      assert !IsNameserverLine(lines[0]);
      DnsFirstNameserver(lines[1..], i - 1);
    }
  }

  /**
   * A resolver line `nameserver`, whitespace, an address token, then only
   * whitespace (its newline included), as in `nameserver 8.8.8.8\n`, starts
   * with `nameserver` and yields the address.
   */
  lemma NameserverLineValue(w: string, addr: string, rest: string)
    requires |w| > 0 && forall i :: 0 <= i < |w| ==> IsSpace(w[i])
    requires IsToken(addr)
    requires forall i :: 0 <= i < |rest| ==> IsSpace(rest[i])
    ensures IsNameserverLine(NAMESERVER + w + addr + rest)
    ensures NameserverValue(NAMESERVER + w + addr + rest) == addr
  {
    var line := NAMESERVER + w + addr + rest;
    assert line[..|NAMESERVER|] == NAMESERVER;
    assert IsToken(NAMESERVER);
    assert line == [] + NAMESERVER + (w + addr + rest);
    SplitWsCons([], NAMESERVER, w + addr + rest);
    SplitWsCons(w, addr, rest);
    SplitWsAllSpace(rest);
  }

  /** Without a `nameserver` line the field keeps its default. */
  lemma {:induction false} DnsNoNameserver(lines: seq<string>)
    requires forall j :: 0 <= j < |lines| ==> !IsNameserverLine(lines[j])
    ensures DnsFromLines(lines) == ERROR
  {
    if lines != [] {
      assert !IsNameserverLine(lines[0]);
      DnsNoNameserver(lines[1..]);
    }
  }

  /** Lines after any `nameserver` line are never examined. */
  lemma {:induction false} DnsIgnoresLaterLines(lines: seq<string>, i: nat, later: seq<string>)
    requires i < |lines| && IsNameserverLine(lines[i])
    ensures DnsFromLines(lines[..i + 1] + later) == DnsFromLines(lines)
  {
    var changed := lines[..i + 1] + later;
    assert changed[0] == lines[0];
    if !IsNameserverLine(lines[0]) {
      assert changed[1..] == lines[1..][..i] + later;
      DnsIgnoresLaterLines(lines[1..], i - 1, later);
    }
  }

  /**
   * The resolver paragraph: a `for` loop over the lines that stops at the
   * first `nameserver` line, whether its value is stored or `split()[1]`
   * raises (the `except` leaves the default in place).
   */
  method ReadDnsServer(resolv: Option<seq<string>>) returns (dns: string)
    ensures dns == DnsServer(resolv)
  {
    dns := ERROR;
    if resolv.None? {
      return;
    }
    var lines := resolv.value;
    var i := 0;
    while i < |lines|
      invariant 0 <= i <= |lines|
      invariant DnsFromLines(lines[i..]) == DnsFromLines(lines)
      invariant dns == ERROR
    {
      assert lines[i..][1..] == lines[i + 1..];
      if IsNameserverLine(lines[i]) {
        var tokens := SplitWs(lines[i]);
        if |tokens| < 2 {
          break;
        }
        dns := tokens[1];
        break;
      }
      i := i + 1;
    }
  }

  // ---------------------------------------------------------------- interfaces

  /**
   * The address recorded for one interface:
   * `output.split("inet ")[1].split("/")[0]` when `"inet "` occurs in the
   * output, and `No IPv4 address` otherwise.
   */
  function InterfaceAddress(output: string): string
  {
    if Contains(output, INET) then Split(Split(output, INET)[1], "/")[0] else NO_IPV4
  }

  /**
   * When the output contains `"inet "`, the address is the text after its
   * first occurrence, up to (not including) the first `/`, the next
   * `"inet "` or the end, whichever comes first.
   */
  lemma InterfaceAddressFound(output: string)
    requires Contains(output, INET)
    ensures var rest := output[Find(output, INET).value + |INET|..];
      var addr := InterfaceAddress(output);
      && addr <= rest
      && '/' !in addr
      && (forall j :: 0 <= j < |addr| ==> !OccursAt(rest, INET, j))
      && (|addr| == |rest| || rest[|addr|] == '/' || OccursAt(rest, INET, |addr|))
  {
    var i := Find(output, INET).value;
    var rest := output[i + |INET|..];
    SplitHead(output, INET);
    var piece := Split(output, INET)[1];
    assert piece == Split(rest, INET)[0];
    SplitHead(rest, INET);
    SplitHead(piece, "/");
    var addr := Split(piece, "/")[0];
    OccursChar(piece, '/');
    assert addr == InterfaceAddress(output);
    assert forall j :: 0 <= j < |addr| ==> addr[j] == piece[j] && addr[j] != '/';
  }

  lemma ShorterOccurrence(s: string, sub: string, i: int, k: nat)
    requires OccursAt(s, sub, i) && k <= |sub|
    ensures OccursAt(s, sub[..k], i)
  {
    assert s[i..i + k] == s[i..i + |sub|][..k];
  }

  /** Without `"inet "` in the output the interface has no IPv4 address. */
  lemma InterfaceAddressMissing(output: string)
    requires !Contains(output, INET)
    ensures InterfaceAddress(output) == NO_IPV4
  {
  }

  /**
   * `"inet6 "` does not contain `"inet "`: an output in which every `inet`
   * is followed by `6` (an interface with IPv6 addresses only) has no IPv4 address.
   */
  lemma InterfaceAddressIpv6Only(output: string)
    requires forall i :: OccursAt(output, "inet", i) ==> i + 4 < |output| && output[i + 4] == '6'
    ensures InterfaceAddress(output) == NO_IPV4
  {
    if Contains(output, INET) {
      var i :| OccursAt(output, INET, i);
      assert INET[..4] == "inet" && INET[4] == ' ';
      ShorterOccurrence(output, INET, i, 4);
      OccurrenceChars(output, INET, i);
      assert false;
    }
  }

  /** Index of the first interface whose `ip addr show` raises, or the number of interfaces. */
  function FirstFailure(names: seq<string>, ipAddr: string -> Option<string>): (k: nat)
    ensures k <= |names|
    ensures forall j :: 0 <= j < k ==> ipAddr(names[j]).Some?
    ensures k < |names| ==> ipAddr(names[k]).None?
  {
    if names == [] || ipAddr(names[0]).None? then 0 else 1 + FirstFailure(names[1..], ipAddr)
  }

  /** The address table of the interfaces in `names`, all of whose queries succeed. */
  function AddressTable(names: seq<string>, ipAddr: string -> Option<string>): map<string, string>
    requires forall j :: 0 <= j < |names| ==> ipAddr(names[j]).Some?
  {
    map n | n in names :: InterfaceAddress(ipAddr(n).value)
  }

  /**
   * The "Network Interfaces" field: the interfaces listed before the first
   * failing query, each with its address; empty when the listing fails.
   */
  function Interfaces(listing: Option<seq<string>>, ipAddr: string -> Option<string>): map<string, string>
  {
    match listing
    case None => map[]
    case Some(names) => AddressTable(names[..FirstFailure(names, ipAddr)], ipAddr)
  }

  /**
   * The loop stops at the first failing query: the interfaces before it keep
   * their entries and, when no name is listed twice, none after it is present.
   */
  lemma InterfacesStopAtFailure(names: seq<string>, ipAddr: string -> Option<string>, i: nat)
    requires i < |names| && ipAddr(names[i]).None?
    requires forall j :: 0 <= j < i ==> ipAddr(names[j]).Some?
    ensures Interfaces(Some(names), ipAddr).Keys == set j | 0 <= j < i :: names[j]
    ensures forall j :: 0 <= j < i ==>
      Interfaces(Some(names), ipAddr)[names[j]] == InterfaceAddress(ipAddr(names[j]).value)
    ensures (forall a, b :: 0 <= a < b < |names| ==> names[a] != names[b]) ==>
      forall j :: i <= j < |names| ==> names[j] !in Interfaces(Some(names), ipAddr)
  {
    assert FirstFailure(names, ipAddr) == i;
    var table := Interfaces(Some(names), ipAddr);
    assert forall n :: n in names[..i] <==> exists j :: 0 <= j < i && names[j] == n;
    assert table.Keys == set j | 0 <= j < i :: names[j];
  }

  /**
   * The interface paragraph: for each listed name, query it and store its
   * address; the first query that raises ends the loop through the `except`.
   */
  method ListInterfaces(listing: Option<seq<string>>, ipAddr: string -> Option<string>)
    returns (table: map<string, string>)
    ensures table == Interfaces(listing, ipAddr)
  {
    table := map[];
    if listing.None? {
      return;
    }
    var names := listing.value;
    ghost var stop := FirstFailure(names, ipAddr);
    var i := 0;
    while i < |names|
      invariant 0 <= i <= stop
      invariant table == AddressTable(names[..i], ipAddr)
    {
      var output := ipAddr(names[i]);
      if output.None? {
        break;
      }
      assert names[..i + 1] == names[..i] + [names[i]];
      table := table[names[i] := InterfaceAddress(output.value)];
      i := i + 1;
    }
  }

  // ---------------------------------------------------------------- open ports

  predicate StrictlyAscending(s: seq<int>)
  {
    forall i, j :: 0 <= i < j < |s| ==> s[i] < s[j]
  }

  lemma AppendAscending(s: seq<int>, x: int)
    requires StrictlyAscending(s)
    requires forall y :: y in s ==> y < x
    ensures StrictlyAscending(s + [x])
  {
    forall i, j | 0 <= i < j < |s| + 1
      ensures (s + [x])[i] < (s + [x])[j]
    {
      if j == |s| {
        assert s[i] in s;
      }
    }
  }

  /** The ports in [1, n) whose connect succeeds, in ascending order. */
  function OpenPortsBelow(n: int, connects: int -> bool): (ports: seq<int>)
    ensures StrictlyAscending(ports)
    ensures forall p :: p in ports <==> 1 <= p < n && connects(p)
    decreases n
  {
    if n <= 1 then []
    else
      var below := OpenPortsBelow(n - 1, connects);
      if connects(n - 1) then AppendAscending(below, n - 1); below + [n - 1] else below
  }

  /**
   * The port scan: `range(1, 1024)` in order, appending each port whose
   * connect succeeds. The result is strictly ascending, free of duplicates,
   * within [1, 1023], and holds exactly the ports that accept a connection.
   */
  method ScanPorts(connects: int -> bool) returns (openPorts: seq<int>)
    ensures openPorts == OpenPortsBelow(LAST_PORT + 1, connects)
    ensures StrictlyAscending(openPorts)
    ensures forall p :: p in openPorts <==> 1 <= p <= LAST_PORT && connects(p)
  {
    openPorts := [];
    for port := 1 to LAST_PORT + 1
      invariant openPorts == OpenPortsBelow(port, connects)
    {
      if connects(port) {
        openPorts := openPorts + [port];
      }
    }
  }

  /** No listener among the ports below `n`: nothing is recorded. */
  lemma {:induction false} NoOpenPortsBelow(n: int, connects: int -> bool)
    requires forall p :: 1 <= p < n ==> !connects(p)
    ensures OpenPortsBelow(n, connects) == []
    decreases n
  {
    if n > 1 {
      NoOpenPortsBelow(n - 1, connects);
    }
  }

  /** A single listener `q` among the ports below `n`: exactly `[q]` is recorded. */
  lemma {:induction false} OneOpenPortBelow(n: int, connects: int -> bool, q: int)
    requires 1 <= q < n
    requires forall p :: 1 <= p < n ==> (connects(p) <==> p == q)
    ensures OpenPortsBelow(n, connects) == [q]
    decreases n
  {
    if n - 1 == q {
      NoOpenPortsBelow(q, connects);
    } else {
      OneOpenPortBelow(n - 1, connects, q);
    }
  }

  // ---------------------------------------------------------------- the whole check

  /**
   * `check_network_security`: each field comes from its own paragraph and
   * depends on that paragraph's input only, so a failure in one (a missing
   * resolver file, say) leaves the others as they would be.
   */
  method CheckNetworkSecurity(
    pingExit: Option<int>,
    resolv: Option<seq<string>>,
    listing: Option<seq<string>>,
    ipAddr: string -> Option<string>,
    connects: int -> bool)
    returns (info: NetworkInfo)
    ensures info.connectivity == Connectivity(pingExit)
    ensures info.dnsServer == DnsServer(resolv)
    ensures info.interfaces == Interfaces(listing, ipAddr)
    ensures info.openPorts == OpenPortsBelow(LAST_PORT + 1, connects)
  {
    var connectivity := ERROR;
    var response := CheckCall(pingExit);
    if response.Some? {
      connectivity := if response.value == 0 then AVAILABLE else NOT_AVAILABLE;
    }
    var dns := ReadDnsServer(resolv);
    var interfaces := ListInterfaces(listing, ipAddr);
    var openPorts := ScanPorts(connects);
    info := NetworkInfo(connectivity, dns, interfaces, openPorts);
  }
}
