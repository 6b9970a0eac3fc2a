/** Packet filter rules and what it means for a packet to match one (ts_packetfilter/src/rule.rs). */
module Rules {
  import opened Trie
  import opened TrieMatches
  import opened Nets

  datatype Dst = Dst(ports: (int, int), ips: seq<Net>)

  datatype Rule = Rule(pfxs: seq<Net>, caps: seq<string>, protos: seq<int>, dsts: seq<Dst>)

  datatype Packet = Packet(src: seq<int>, dst: seq<int>, proto: int, port: int)

  /** An IPv4 or IPv6 address. */
  predicate IsAddr(a: seq<int>) { (|a| == 4 || |a| == 16) && ValidAddr(a, |a|) }

  predicate IsNet(net: Net) { IsAddr(net.addr) && ValidNet(net, |net.addr|) }

  predicate IsPort(p: int) { 0 <= p < 0x1_0000 }

  predicate IsDst(d: Dst) {
    IsPort(d.ports.0) && IsPort(d.ports.1) && forall i :: 0 <= i < |d.ips| ==> IsNet(d.ips[i])
  }

  predicate IsRule(r: Rule) {
    && (forall i :: 0 <= i < |r.pfxs| ==> IsNet(r.pfxs[i]))
    && (forall i :: 0 <= i < |r.dsts| ==> IsDst(r.dsts[i]))
  }

  predicate IsPacket(pk: Packet) { IsAddr(pk.src) && IsAddr(pk.dst) && IsPort(pk.port) }

  // The reference.

  const ICMP := 1
  const TCP := 6
  const UDP := 17
  const ICMPV6 := 58
  const SCTP := 132

  datatype PortMode = Check | IpsOnly | IpsOnlyIfAllPorts

  /** `is_port_ful` */
  predicate IsPortFul(proto: int) { proto == TCP || proto == UDP || proto == SCTP }

  /** `for_proto` */
  function ModeOf(proto: int): PortMode {
    if IsPortFul(proto) then Check
    else if proto == ICMP || proto == ICMPV6 then IpsOnly
    else IpsOnlyIfAllPorts
  }

  /** A prefix of one family contains no address of the other. */
  predicate Contains(net: Net, a: seq<int>)
    requires IsNet(net) && IsAddr(a)
  {
    |net.addr| == |a| && NetContains(net, a, |a|)
  }

  predicate AnyContains(nets: seq<Net>, a: seq<int>)
    requires IsAddr(a) && forall i :: 0 <= i < |nets| ==> IsNet(nets[i])
  {
    exists i :: 0 <= i < |nets| && Contains(nets[i], a)
  }

  predicate PortMatches(ports: (int, int), mode: PortMode, port: int) {
    match mode
    case Check => ports.0 <= port <= ports.1
    case IpsOnly => true
    case IpsOnlyIfAllPorts => ports == (0, 0xFFFF)
  }

  predicate DstMatches(d: Dst, pk: Packet)
    requires IsDst(d) && IsPacket(pk)
  {
    PortMatches(d.ports, ModeOf(pk.proto), pk.port) && AnyContains(d.ips, pk.dst)
  }

  /** Which protocols have their port checked, by number: TCP, UDP and SCTP do, ICMP and ICMPv6 match by address
      alone, and any other protocol needs a destination open on all ports. */
  lemma DstMatchesIs(d: Dst, pk: Packet)
    requires IsDst(d) && IsPacket(pk)
    ensures pk.proto in {6, 17, 132} ==>
      (DstMatches(d, pk) <==> d.ports.0 <= pk.port <= d.ports.1 && AnyContains(d.ips, pk.dst))
    ensures pk.proto in {1, 58} ==> (DstMatches(d, pk) <==> AnyContains(d.ips, pk.dst))
    ensures pk.proto !in {1, 6, 17, 58, 132} ==>
      (DstMatches(d, pk) <==> d.ports == (0, 65535) && AnyContains(d.ips, pk.dst))
  {
  }

  predicate CapMatches(rule: Rule, caps: seq<string>) { exists c :: c in caps && c in rule.caps }

  predicate SrcMatches(rule: Rule, pk: Packet, caps: seq<string>)
    requires IsRule(rule) && IsPacket(pk)
  {
    AnyContains(rule.pfxs, pk.src) || CapMatches(rule, caps)
  }

  /** `Rule::matches` */
  predicate Matches(rule: Rule, pk: Packet, caps: seq<string>)
    requires IsRule(rule) && IsPacket(pk)
  {
    && pk.proto in rule.protos
    && SrcMatches(rule, pk, caps)
    && exists i :: 0 <= i < |rule.dsts| && DstMatches(rule.dsts[i], pk)
  }

  // Prefixes as routing table keys.

  /** The key of a prefix, in the table of its family. */
  type Route = (nat, Key)

  function RouteOf(net: Net): Route
    requires IsNet(net)
  {
    (|net.addr|, KeyOf(net, |net.addr|))
  }

  function RoutesOf(nets: seq<Net>): (rs: seq<Route>)
    ensures |rs| == |nets|
    ensures forall i :: 0 <= i < |nets| && IsNet(nets[i]) ==> rs[i] == RouteOf(nets[i])
  {
    seq(|nets|, i requires 0 <= i < |nets| => if IsNet(nets[i]) then RouteOf(nets[i]) else (0, Key([], 1)))
  }

  predicate RouteCovers(r: Route, a: seq<int>) { r.0 == |a| && CoversKey(r.1, Key(a, 1)) }

  lemma ContainsIsRoute(net: Net, a: seq<int>)
    requires IsNet(net) && IsAddr(a)
    ensures Contains(net, a) <==> RouteCovers(RouteOf(net), a)
  {
    if |net.addr| == |a| { ContainsIsCovers(net, |a|, a); }
  }

  lemma AnyContainsIsRoute(nets: seq<Net>, a: seq<int>)
    requires IsAddr(a) && forall i :: 0 <= i < |nets| ==> IsNet(nets[i])
    ensures AnyContains(nets, a) <==> exists r :: r in RoutesOf(nets) && RouteCovers(r, a)
  {
    forall i | 0 <= i < |nets| ensures Contains(nets[i], a) <==> RouteCovers(RoutesOf(nets)[i], a) {
      ContainsIsRoute(nets[i], a);
    }
    if AnyContains(nets, a) {
      var i :| 0 <= i < |nets| && Contains(nets[i], a);
      assert RoutesOf(nets)[i] in RoutesOf(nets);
    }
  }
}
