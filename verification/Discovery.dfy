/** Discovery runs: host enumeration and the worker that probes hosts in batches behind the policy gate. */
module Discovery {
  import opened Wrappers
  import opened Bits
  import opened Text
  import opened Ipv4
  import opened Ipv4Text
  import opened Cidr
  import opened DiscoveryPolicy

  const MAX_DISCOVERY_HOSTS: nat := 4096

  datatype HostsError = InvalidCidr | TooManyHosts

  /** Four parts of one to three digits, each at most 255; leading zeros are let through. */
  predicate IsQuad(address: string) {
    var octets := Split(address, '.');
    |octets| == 4 && forall i :: 0 <= i < 4 ==>
      1 <= |octets[i]| <= 3 && IsNumeral(octets[i], 10) && ValueOf(octets[i], 10) <= 255
  }

  function QuadNumber(address: string): (value: nat)
    requires IsQuad(address)
    ensures value < TWO_TO_32
  {
    var octets := Split(address, '.');
    FromOctets(seq(4, i requires 0 <= i < 4 => ValueOf(octets[i], 10)))
  }

  /** First usable address and number of usable addresses of a block. */
  function Usable(value: nat, bits: nat): (nat, nat)
    requires value < TWO_TO_32 && bits <= 32
  {
    var network := NetworkOf(value, bits);
    var broadcast := BroadcastOf(network, bits);
    var first := if bits >= 31 then network else network + 1;
    var last := if bits >= 31 then broadcast else broadcast - 1;
    (first, if last >= first then last - first + 1 else 0)
  }

  function HostList(first: nat, count: nat): (hosts: seq<string>)
    requires first + count <= TWO_TO_32
    ensures |hosts| == count
  {
    seq(count, i requires 0 <= i < count => Ipv4Address(first + i))
  }

  function HostsFor(cidr: string): Result<seq<string>, HostsError> {
    var address := AddressOf(cidr);
    match PrefixOf(cidr)
    case None => Err(InvalidCidr)
    case Some(bits) =>
      if !IsQuad(address) || bits > 32 then Err(InvalidCidr)
      else
        var (first, count) := Usable(QuadNumber(address), bits);
        UsableRange(QuadNumber(address), bits);
        if count > MAX_DISCOVERY_HOSTS then Err(TooManyHosts)
        else Ok(HostList(first, count))
  }

  /** The usable addresses are the block without its first and last address, unless it has at most two. */
  lemma UsableRange(value: nat, bits: nat)
    requires value < TWO_TO_32 && bits <= 32
    ensures var (first, count) := Usable(value, bits);
      var start, size := AlignDown(value, 32 - bits), Pow2(32 - bits);
      && first + count <= TWO_TO_32
      && first == (if bits >= 31 then start else start + 1)
      && count == (if bits >= 31 then size else size - 2)
      && count >= 1
  {
    SignedShiftBlock(value, bits);
    if bits < 31 {
      Pow2Monotone(2, 32 - bits);
      assert Pow2(2) == 4;
    }
  }

  ghost predicate IsDecimalByte(part: string) {
    && 1 <= |part| <= 3
    && (forall k :: 0 <= k < |part| ==> '0' <= part[k] <= '9')
    && ValueOf(part, 10) <= 255
  }

  /** Which dotted texts are quads: a leading zero is let through here and refused by the strict test. */
  lemma QuadTexts(parts: seq<string>)
    requires |parts| >= 1 && Free(parts, '.')
    ensures IsQuad(Join(parts, '.')) <==> |parts| == 4 && forall i :: 0 <= i < 4 ==> IsDecimalByte(parts[i])
    ensures IsIpv4(Join(parts, '.')) <==>
      IsQuad(Join(parts, '.')) && forall i :: 0 <= i < |parts| ==> |parts[i]| == 1 || parts[i][0] != '0'
  {
    hide Split, Join, ValueOf;
    SplitJoin(parts, '.');
  }

  lemma QuadOfIpv4(address: string)
    requires IsIpv4(address)
    ensures IsQuad(address) && QuadNumber(address) == Ipv4Number(address)
  {
  }

  ghost predicate AreConsecutive(hosts: seq<string>, first: nat) {
    forall i :: 0 <= i < |hosts| ==> IsIpv4(hosts[i]) && Ipv4Number(hosts[i]) == first + i
  }

  /** The hosts are the usable addresses in order, so each occurs exactly once. */
  lemma HostsAreUsable(cidr: string)
    requires HostsFor(cidr).Ok?
    ensures IsQuad(AddressOf(cidr)) && PrefixOf(cidr).Some? && PrefixOf(cidr).value <= 32
    ensures var hosts := HostsFor(cidr).value;
      var (first, count) := Usable(QuadNumber(AddressOf(cidr)), PrefixOf(cidr).value);
      && |hosts| == count && AreConsecutive(hosts, first)
  {
    hide Usable, IsIpv4, Ipv4Number, IsQuad, QuadNumber, AddressOf, PrefixOf, HostList;
    var (first, count) := Usable(QuadNumber(AddressOf(cidr)), PrefixOf(cidr).value);
    UsableRange(QuadNumber(AddressOf(cidr)), PrefixOf(cidr).value);
    HostListConsecutive(first, count);
  }

  lemma HostListConsecutive(first: nat, count: nat)
    requires first + count <= TWO_TO_32
    ensures AreConsecutive(HostList(first, count), first)
  {
    hide IsIpv4, Ipv4Number, Ipv4Address;
    var hosts := HostList(first, count);
    forall i | 0 <= i < count
      ensures IsIpv4(hosts[i]) && Ipv4Number(hosts[i]) == first + i
    {
      Ipv4RoundTrip(first + i);
    }
  }

  lemma ConsecutiveDistinct(hosts: seq<string>, first: nat)
    requires AreConsecutive(hosts, first)
    ensures forall i, j :: 0 <= i < j < |hosts| ==> hosts[i] != hosts[j]
  {
  }

  // ---- the worker

  datatype ProbeMethod = Icmp | Tcp

  /** What the network answers: one ICMP echo per address, one connection attempt per port. */
  datatype Answers = Answers(ping: string -> bool, connects: (string, nat) -> bool)

  datatype Job = Job(cidr: string, methods: set<ProbeMethod>, tcpPorts: seq<nat>)

  datatype Found = Found(address: string, icmpReachable: bool, openPorts: seq<nat>)

  datatype JobError = Policy(policy: PolicyError) | Ipv6Unsupported | BadConfiguration | Hosts(hosts: HostsError)

  datatype Status = Queued | Running | Completed | Failed(error: JobError)

  function OpenPorts(address: string, ports: seq<nat>, answers: Answers): (open: seq<nat>)
    ensures forall p :: p in open <==> p in ports && answers.connects(address, p)
  {
    if |ports| == 0 then []
    else (if answers.connects(address, ports[0]) then [ports[0]] else []) + OpenPorts(address, ports[1..], answers)
  }

  function Probe(address: string, job: Job, answers: Answers): Found {
    Found(address, Icmp in job.methods && answers.ping(address),
          if Tcp in job.methods then OpenPorts(address, job.tcpPorts, answers) else [])
  }

  predicate ByIcmp(f: Found) {
    f.icmpReachable
  }

  predicate ByTcp(f: Found) {
    |f.openPorts| > 0
  }

  predicate Answered(f: Found) {
    ByIcmp(f) || ByTcp(f)
  }

  /** The stored results: one entry for every host that answered, in host order. */
  function Reached(hosts: seq<string>, job: Job, answers: Answers): (found: seq<Found>)
    ensures |found| <= |hosts|
  {
    if |hosts| == 0 then []
    else
      var n := |hosts| - 1;
      var f := Probe(hosts[n], job, answers);
      Reached(hosts[..n], job, answers) + (if Answered(f) then [f] else [])
  }

  function Count(found: seq<Found>, p: Found -> bool): nat {
    if |found| == 0 then 0 else Count(found[..|found| - 1], p) + (if p(found[|found| - 1]) then 1 else 0)
  }

  /** The gate before any probe: policy, version, configuration, host enumeration. */
  function Gate(job: Job, setting: Option<seq<string>>): Result<seq<string>, JobError> {
    match AssertDiscoveryAllowed(job.cidr, setting)
    case Err(e) => Err(Policy(e))
    case Ok(target) =>
      if target.version != 4 then Err(Ipv6Unsupported)
      else if job.methods == {} || (Tcp in job.methods && |job.tcpPorts| == 0) then Err(BadConfiguration)
      else match HostsFor(job.cidr)
        case Err(e) => Err(Hosts(e))
        case Ok(hosts) => Ok(hosts)
  }

  class DiscoveryRun {
    var status: Status
    var results: seq<Found>
    var scannedCount: nat
    var icmpReachableCount: nat
    var tcpReachableCount: nat
    var reachableCount: nat
    var unreachableCount: nat

    constructor ()
      ensures status == Queued && results == []
    {
      status, results := Queued, [];
      scannedCount, icmpReachableCount, tcpReachableCount, reachableCount, unreachableCount := 0, 0, 0, 0, 0;
    }

    /** `probed` lists the addresses that were contacted, in order. */
    method ProcessJob(job: Job, setting: Option<seq<string>>, answers: Answers) returns (probed: seq<string>)
      modifies this
      ensures Gate(job, setting).Err? ==>
        probed == [] && status == Failed(Gate(job, setting).error) && results == old(results)
      ensures Gate(job, setting).Ok? ==>
        var hosts := Gate(job, setting).value;
        && probed == hosts && status == Completed
        && results == old(results) + Reached(hosts, job, answers)
        && scannedCount == |hosts| == reachableCount + unreachableCount
        && reachableCount == |Reached(hosts, job, answers)|
        && icmpReachableCount == Count(Reached(hosts, job, answers), ByIcmp)
        && tcpReachableCount == Count(Reached(hosts, job, answers), ByTcp)
    {
      hide Gate, Reached, Count;
      status, probed := Running, [];
      var gate := Gate(job, setting);
      if gate.Err? {
        status := Failed(gate.error);
        return;
      }
      var addresses, found := gate.value, [];
      var icmp, tcp := 0, 0;
      var index := 0;
      NothingReached(job, answers);
      while index < |addresses|
        invariant 0 <= index && probed == addresses[..if index <= |addresses| then index else |addresses|]
        invariant found == Reached(probed, job, answers)
        invariant icmp == Count(found, ByIcmp) && tcp == Count(found, ByTcp)
        invariant results == old(results)
      {
        var batch := addresses[index..if index + 32 <= |addresses| then index + 32 else |addresses|];
        var f, i, t := ProbeBatch(batch, job, answers);
        ReachedAppend(probed, batch, job, answers);
        CountAppend(found, f, ByIcmp);
        CountAppend(found, f, ByTcp);
        probed, found, icmp, tcp := probed + batch, found + f, icmp + i, tcp + t;
        index := index + 32;
      }
      assert probed == addresses;
      results := results + found;
      scannedCount, reachableCount, unreachableCount := |addresses|, |found|, |addresses| - |found|;
      icmpReachableCount, tcpReachableCount := icmp, tcp;
      status := Completed;
    }
  }

  method ProbeBatch(batch: seq<string>, job: Job, answers: Answers) returns (found: seq<Found>, icmp: nat, tcp: nat)
    ensures found == Reached(batch, job, answers)
    ensures icmp == Count(found, ByIcmp) && tcp == Count(found, ByTcp)
  {
    found, icmp, tcp := [], 0, 0;
    for k := 0 to |batch|
      invariant found == Reached(batch[..k], job, answers)
      invariant icmp == Count(found, ByIcmp) && tcp == Count(found, ByTcp)
    {
      var item := Probe(batch[k], job, answers);
      assert batch[..k + 1][..k] == batch[..k];
      if ByIcmp(item) {
        icmp := icmp + 1;
      }
      if ByTcp(item) {
        tcp := tcp + 1;
      }
      if !Answered(item) {
        continue;
      }
      assert (found + [item])[..|found|] == found;
      found := found + [item];
    }
    assert batch[..|batch|] == batch;
  }

  lemma NothingReached(job: Job, answers: Answers)
    ensures Reached([], job, answers) == [] && Count([], ByIcmp) == 0 && Count([], ByTcp) == 0
  {
  }

  lemma {:induction false} ReachedAppend(a: seq<string>, b: seq<string>, job: Job, answers: Answers)
    ensures Reached(a + b, job, answers) == Reached(a, job, answers) + Reached(b, job, answers)
    decreases |b|
  {
    hide Probe;
    if |b| == 0 {
      assert a + b == a;
    } else {
      var n := |b| - 1;
      ReachedAppend(a, b[..n], job, answers);
      assert (a + b)[..|a| + n] == a + b[..n];
    }
  }

  lemma {:induction false} CountAppend(a: seq<Found>, b: seq<Found>, p: Found -> bool)
    ensures Count(a + b, p) == Count(a, p) + Count(b, p)
    decreases |b|
  {
    if |b| == 0 {
      assert a + b == a;
    } else {
      var n := |b| - 1;
      CountAppend(a, b[..n], p);
      assert (a + b)[..|a| + n] == a + b[..n];
    }
  }

  /**
   * Every address a run probes is a usable host of the target, lies in no forbidden network and
   * in one allowed network, and is probed once.
   */
  lemma ProbedAddressesAreSafe(job: Job, setting: Option<seq<string>>, i: nat)
    requires Gate(job, setting).Ok? && i < |Gate(job, setting).value|
    ensures var hosts := Gate(job, setting).value;
      && IsIpv4(hosts[i]) && IsIpv4(AddressOf(job.cidr)) && PrefixOf(job.cidr).Some? && PrefixOf(job.cidr).value <= 32
      && Ipv4Number(hosts[i]) == Usable(Ipv4Number(AddressOf(job.cidr)), PrefixOf(job.cidr).value).0 + i
      && InNone(FORBIDDEN, 4, Ipv4Number(hosts[i]))
      && AllowedNetworks(setting).Some?
      && (exists target :: ParseNetwork(job.cidr) == Some(target)
                           && InOneWithTarget(AllowedNetworks(setting).value, target, Ipv4Number(hosts[i])))
      && forall j :: 0 <= j < |hosts| && j != i ==> hosts[j] != hosts[i]
  {
    hide *;
    var target := TargetOfGate(job, setting);
    var hosts := Gate(job, setting).value;
    HostsAreUsable(job.cidr);
    var value, bits := Ipv4Number(AddressOf(job.cidr)), PrefixOf(job.cidr).value;
    QuadOfIpv4(AddressOf(job.cidr));
    ConsecutiveDistinct(hosts, Usable(value, bits).0);
    HostAt(hosts, Usable(value, bits).0, i);
    UsableInTarget(job.cidr, target, i);
    AcceptedTargetIsSafe(job.cidr, setting, target, Ipv4Number(hosts[i]));
  }

  lemma HostAt(hosts: seq<string>, first: nat, i: nat)
    requires AreConsecutive(hosts, first) && i < |hosts|
    ensures IsIpv4(hosts[i]) && Ipv4Number(hosts[i]) == first + i
  {
  }

  lemma TargetOfGate(job: Job, setting: Option<seq<string>>) returns (target: Network)
    requires Gate(job, setting).Ok?
    ensures AssertDiscoveryAllowed(job.cidr, setting) == Ok(target) && ParseNetwork(job.cidr) == Some(target)
    ensures target.version == 4 && HostsFor(job.cidr) == Ok(Gate(job, setting).value)
    ensures IsIpv4(AddressOf(job.cidr))
  {
    hide *;
    GateAccepts(job, setting);
    target := AssertDiscoveryAllowed(job.cidr, setting).value;
    AcceptedDecision(job.cidr, setting);
    ParsedVersion(job.cidr);
  }

  lemma GateAccepts(job: Job, setting: Option<seq<string>>)
    requires Gate(job, setting).Ok?
    ensures AssertDiscoveryAllowed(job.cidr, setting).Ok?
    ensures AssertDiscoveryAllowed(job.cidr, setting).value.version == 4
    ensures HostsFor(job.cidr) == Ok(Gate(job, setting).value)
  {
    hide HostsFor, AssertDiscoveryAllowed;
  }

  lemma ParsedVersion(input: string)
    requires ParseNetwork(input).Some?
    ensures ParseNetwork(input).value.version == IpVersion(AddressOf(input)) && PrefixOf(input).Some?
    ensures ParseNetwork(input).value.version == 4 ==> IsIpv4(AddressOf(input)) && PrefixOf(input).value <= 32
  {
  }

  lemma UsableInTarget(cidr: string, target: Network, i: nat)
    requires ParseNetwork(cidr) == Some(target) && target.version == 4
    requires IsIpv4(AddressOf(cidr)) && PrefixOf(cidr).Some? && PrefixOf(cidr).value <= 32
    requires i < Usable(Ipv4Number(AddressOf(cidr)), PrefixOf(cidr).value).1
    ensures HasAddress(target, 4, Usable(Ipv4Number(AddressOf(cidr)), PrefixOf(cidr).value).0 + i)
  {
    hide ParseNetwork, Usable, IsIpv4, Ipv4Number, AddressOf, PrefixOf, AlignDown, CidrInfo;
    ParseNetworkIsCidrInfo(cidr);
    UsableRange(Ipv4Number(AddressOf(cidr)), PrefixOf(cidr).value);
  }

  // ---- what a run stores and counts, in terms of the answers

  predicate Pings(host: string, job: Job, answers: Answers) {
    Icmp in job.methods && answers.ping(host)
  }

  predicate Connects(host: string, job: Job, answers: Answers) {
    Tcp in job.methods && exists i :: 0 <= i < |job.tcpPorts| && answers.connects(host, job.tcpPorts[i])
  }

  /** The ports of a sequence that accept a connection, in the same order. */
  ghost predicate AreOpen(open: seq<nat>, host: string, ports: seq<nat>, answers: Answers) {
    if |ports| == 0 then open == []
    else if answers.connects(host, ports[0]) then
      |open| > 0 && open[0] == ports[0] && AreOpen(open[1..], host, ports[1..], answers)
    else AreOpen(open, host, ports[1..], answers)
  }

  lemma {:induction false} OpenPortsAre(host: string, ports: seq<nat>, answers: Answers)
    ensures AreOpen(OpenPorts(host, ports, answers), host, ports, answers)
  {
    if |ports| > 0 {
      OpenPortsAre(host, ports[1..], answers);
      var rest := OpenPorts(host, ports[1..], answers);
      assert ([ports[0]] + rest)[1..] == rest && [] + rest == rest;
    }
  }

  /** The entry of a host that answered: what each method found, nothing for a method that the job does not use. */
  ghost predicate IsEntry(f: Found, host: string, job: Job, answers: Answers) {
    && f.address == host && (f.icmpReachable <==> Pings(host, job, answers))
    && (if Tcp in job.methods then AreOpen(f.openPorts, host, job.tcpPorts, answers) else f.openPorts == [])
  }

  lemma ProbeMeans(host: string, job: Job, answers: Answers)
    ensures var f := Probe(host, job, answers);
      && IsEntry(f, host, job, answers)
      && (ByIcmp(f) <==> Pings(host, job, answers)) && (ByTcp(f) <==> Connects(host, job, answers))
  {
    hide AreOpen, OpenPorts;
    var f := Probe(host, job, answers);
    OpenPortsAre(host, job.tcpPorts, answers);
    if Tcp in job.methods && |f.openPorts| > 0 {
      assert f.openPorts[0] in OpenPorts(host, job.tcpPorts, answers);
    }
    if Connects(host, job, answers) {
      var i :| 0 <= i < |job.tcpPorts| && answers.connects(host, job.tcpPorts[i]);
      assert job.tcpPorts[i] in OpenPorts(host, job.tcpPorts, answers);
    }
  }

  datatype Way = ByPing | ByPort | Either

  predicate AnswersBy(way: Way, host: string, job: Job, answers: Answers) {
    match way
    case ByPing => Pings(host, job, answers)
    case ByPort => Connects(host, job, answers)
    case Either => Pings(host, job, answers) || Connects(host, job, answers)
  }

  /** The hosts, by position, that answer in a given way. */
  ghost function Where(way: Way, hosts: seq<string>, job: Job, answers: Answers): set<int> {
    set i | 0 <= i < |hosts| && AnswersBy(way, hosts[i], job, answers)
  }

  lemma WhereMore(way: Way, hosts: seq<string>, host: string, job: Job, answers: Answers)
    ensures |Where(way, hosts + [host], job, answers)| ==
      |Where(way, hosts, job, answers)| + if AnswersBy(way, host, job, answers) then 1 else 0
  {
    hide AnswersBy;
    var more := hosts + [host];
    assert forall i :: 0 <= i < |hosts| ==> more[i] == hosts[i];
    assert Where(way, more, job, answers) ==
      Where(way, hosts, job, answers) + if AnswersBy(way, host, job, answers) then {|hosts|} else {};
  }

  lemma CountOne(found: seq<Found>, f: Found, p: Found -> bool)
    ensures Count(found + [f], p) == Count(found, p) + if p(f) then 1 else 0
  {
    assert (found + [f])[..|found|] == found;
  }

  lemma ReachedMore(hosts: seq<string>, host: string, job: Job, answers: Answers)
    ensures var f := Probe(host, job, answers);
      Reached(hosts + [host], job, answers) == Reached(hosts, job, answers) + if Answered(f) then [f] else []
  {
    assert (hosts + [host])[..|hosts|] == hosts;
  }

  /** The counters count the hosts that answered at all, a ping, and a connection. */
  lemma {:induction false} CountersAre(hosts: seq<string>, job: Job, answers: Answers)
    ensures |Reached(hosts, job, answers)| == |Where(Either, hosts, job, answers)|
    ensures Count(Reached(hosts, job, answers), ByIcmp) == |Where(ByPing, hosts, job, answers)|
    ensures Count(Reached(hosts, job, answers), ByTcp) == |Where(ByPort, hosts, job, answers)|
  {
    hide Probe, Where, Reached, Count, Pings, Connects;
    if |hosts| == 0 {
      NoHosts(job, answers);
    } else {
      var n := |hosts| - 1;
      var rest, host := hosts[..n], hosts[n];
      var f := Probe(host, job, answers);
      CountersAre(rest, job, answers);
      ProbeMeans(host, job, answers);
      assert hosts == rest + [host];
      ReachedMore(rest, host, job, answers);
      WhereMore(Either, rest, host, job, answers);
      WhereMore(ByPing, rest, host, job, answers);
      WhereMore(ByPort, rest, host, job, answers);
      CountOne(Reached(rest, job, answers), f, ByIcmp);
      CountOne(Reached(rest, job, answers), f, ByTcp);
      assert Reached(rest, job, answers) + [] == Reached(rest, job, answers);
    }
  }

  lemma NoHosts(job: Job, answers: Answers)
    ensures forall way :: Where(way, [], job, answers) == {}
    ensures Reached([], job, answers) == [] && Count([], ByIcmp) == 0 && Count([], ByTcp) == 0
  {
  }

  /** The stored results are one entry for each answering host, in host order. */
  lemma {:induction false} ReachedExactly(hosts: seq<string>, job: Job, answers: Answers)
    ensures AreEntries(Reached(hosts, job, answers), hosts, job, answers)
  {
    hide Probe, Pings, Connects, IsEntry;
    if |hosts| > 0 {
      var n := |hosts| - 1;
      ReachedExactly(hosts[..n], job, answers);
      ProbeMeans(hosts[n], job, answers);
      assert hosts == hosts[..n] + [hosts[n]];
      ReachedMore(hosts[..n], hosts[n], job, answers);
      var rest, f := Reached(hosts[..n], job, answers), Probe(hosts[n], job, answers);
      assert (rest + [f])[..|rest|] == rest && rest + [] == rest;
    }
  }

  /** One entry for each answering host, in host order. */
  ghost predicate AreEntries(found: seq<Found>, hosts: seq<string>, job: Job, answers: Answers) {
    if |hosts| == 0 then found == []
    else
      var n := |hosts| - 1;
      if Pings(hosts[n], job, answers) || Connects(hosts[n], job, answers) then
        |found| > 0 && IsEntry(found[|found| - 1], hosts[n], job, answers) &&
        AreEntries(found[..|found| - 1], hosts[..n], job, answers)
      else AreEntries(found, hosts[..n], job, answers)
  }

  // ---- which jobs are run

  /** The hosts can be listed exactly for a dotted quad with a prefix from 20 to 32. */
  lemma HostsForIff(cidr: string)
    ensures HostsFor(cidr).Ok? <==>
      IsQuad(AddressOf(cidr)) && PrefixOf(cidr).Some? && 20 <= PrefixOf(cidr).value <= 32
    ensures HostsFor(cidr) == Err(TooManyHosts) <==>
      IsQuad(AddressOf(cidr)) && PrefixOf(cidr).Some? && PrefixOf(cidr).value < 20
  {
    hide IsQuad, QuadNumber, PrefixOf, AddressOf, Usable, Pow2, HostList;
    if IsQuad(AddressOf(cidr)) && PrefixOf(cidr).Some? && PrefixOf(cidr).value <= 32 {
      UsableRange(QuadNumber(AddressOf(cidr)), PrefixOf(cidr).value);
      BlockSizes(PrefixOf(cidr).value);
    }
  }

  lemma BlockSizes(prefix: nat)
    requires prefix <= 32
    ensures if prefix >= 20 then Pow2(32 - prefix) <= 4096 else Pow2(32 - prefix) >= 8192
  {
    assert Pow2(6) == 64;
    Pow2Add(6, 6);
    Pow2Add(12, 1);
    hide Pow2;
    if prefix >= 20 {
      Pow2Monotone(32 - prefix, 12);
    } else {
      Pow2Monotone(13, 32 - prefix);
    }
  }

  /** The first of the checks that fails is the answer; otherwise the usable hosts of the target are probed. */
  lemma GateIs(job: Job, setting: Option<seq<string>>)
    ensures var r, policy := Gate(job, setting), AssertDiscoveryAllowed(job.cidr, setting);
      if policy.Err? then r == Err(Policy(policy.error))
      else if policy.value.version == 6 then r == Err(Ipv6Unsupported)
      else if job.methods == {} || (Tcp in job.methods && job.tcpPorts == []) then r == Err(BadConfiguration)
      else if PrefixOf(job.cidr).None? then r == Err(Hosts(HostsError.InvalidCidr))
      else if PrefixOf(job.cidr).value < 20 then r == Err(Hosts(TooManyHosts))
      else r.Ok? && HostsFor(job.cidr) == Ok(r.value)
  {
    hide AssertDiscoveryAllowed, HostsFor, ParseNetwork, IsQuad, PrefixOf, AddressOf;
    if AssertDiscoveryAllowed(job.cidr, setting).Ok? {
      TargetVersion(job, setting);
    }
  }

  lemma TargetVersion(job: Job, setting: Option<seq<string>>)
    requires AssertDiscoveryAllowed(job.cidr, setting).Ok?
    ensures var version := AssertDiscoveryAllowed(job.cidr, setting).value.version;
      && version in {4, 6} && PrefixOf(job.cidr).Some?
      && (version == 4 && PrefixOf(job.cidr).value >= 20 ==> HostsFor(job.cidr).Ok?)
      && (version == 4 && PrefixOf(job.cidr).value < 20 ==> HostsFor(job.cidr) == Err(TooManyHosts))
  {
    hide AssertDiscoveryAllowed, HostsFor, ParseNetwork, IsQuad, PrefixOf, AddressOf;
    HostsForIff(job.cidr);
    AcceptedDecision(job.cidr, setting);
    ParsedVersion(job.cidr);
    VersionIs(job.cidr);
    if AssertDiscoveryAllowed(job.cidr, setting).value.version == 4 {
      QuadOfIpv4(AddressOf(job.cidr));
    }
  }

  lemma VersionIs(cidr: string)
    requires ParseNetwork(cidr).Some?
    ensures ParseNetwork(cidr).value.version in {4, 6}
  {
  }
}
