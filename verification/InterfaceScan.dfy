/** The scan of the host's interface addresses: filtering, and grouping by interface index in a
    set whose elements are equal when their indexes are. */
module InterfaceScan {
  import opened Bits
  import opened Outcomes
  import opened HexSpec
  import opened NetworkAddress

  const DEFAULT_PORT: u16 := 3610

  /** An address as the operating system reports it, before conversion. */
  datatype Storage = Inet(ip4: Octets4) | Inet6(ip6: Octets16, flowinfo: nat, scopeId: nat) | OtherFamily

  datatype Flags = Flags(up: bool, running: bool, loopback: bool, pointToPoint: bool, multicast: bool)

  datatype IfAddr = IfAddr(name: string, address: Option<Storage>, netmask: Option<Storage>, flags: Flags)

  datatype InterfaceConfig = InterfaceConfig(name: string, port: u16, ipv4: bool, ipv6: bool)

  datatype NetworkConfig = NetworkConfig(interfaces: Option<seq<InterfaceConfig>>, skipPtp: bool)

  datatype InterfaceSocket = InterfaceSocket(
    address: SocketAddr, network: SocketAddr, netmask: SocketAddr, multicastCapable: bool, multicastSelected: bool)

  datatype Group = Group(index: nat, name: string, sockets: seq<InterfaceSocket>)

  /** sockaddr_nix_to_stdnet. */
  function ToStdNet(storage: Option<Storage>, port: u16): Option<SocketAddr> {
    match storage
    case Some(Inet(ip)) => Some(V4(ip, port))
    case Some(Inet6(ip, flow, scope)) => Some(V6(ip, port, flow, scope))
    case _ => None
  }

  /** The last configuration of a name, as when a hash map is collected from the list. */
  function Lookup(configs: seq<InterfaceConfig>, name: string): (c: Option<InterfaceConfig>)
    ensures c.Some? <==> exists k :: 0 <= k < |configs| && configs[k].name == name
    ensures c.Some? ==> c.value in configs && c.value.name == name
  {
    if configs == [] then None
    else if configs[|configs| - 1].name == name then Some(configs[|configs| - 1])
    else Lookup(configs[..|configs| - 1], name)
  }

  /** The interfaces the configuration restricts the scan to, if it names any. */
  function OnlyInterfaces(config: NetworkConfig): Option<seq<InterfaceConfig>> {
    if config.interfaces.Some? && |config.interfaces.value| > 0 then config.interfaces else None
  }

  predicate IsLoopback(a: SocketAddr) {
    if a.V4? then a.ip4[0] == 127 else a.ip6 == [0, 0, 0, 0, 0, 0, 0, 0, 0, 0, 0, 0, 0, 0, 0, 1]
  }

  /** The socket address to listen on, when the entry passes every filter. */
  function Accepted(config: NetworkConfig, a: IfAddr): Option<SocketAddr> {
    var only := OnlyInterfaces(config);
    if a.address.None? || !a.flags.up || !a.flags.running || a.flags.loopback then None
    else if config.skipPtp && a.flags.pointToPoint then None
    else if only.Some? && Lookup(only.value, a.name).None? then None
    else
      var ic := if only.Some? then Lookup(only.value, a.name) else None;
      var address := ToStdNet(a.address, if ic.Some? then ic.value.port else DEFAULT_PORT);
      if address.None? then None
      else
        var enabled := if ic.None? then true else if address.value.V4? then ic.value.ipv4 else ic.value.ipv6;
        if IsLoopback(address.value) || !enabled then None else address
  }

  /** What the scan makes of one entry: nothing, a socket for an interface, an error return when
      the name has no index, or a panic when the netmask is missing or of another family. */
  datatype Entry = Skip | Use(index: nat, name: string, socket: InterfaceSocket) | Fails | Panics

  type IndexOf = string -> Option<nat>

  function EntryOf(config: NetworkConfig, indexOf: IndexOf, a: IfAddr): Entry {
    var address := Accepted(config, a);
    if address.None? then Skip
    else if indexOf(a.name).None? then Fails
    else
      var netmask := ToStdNet(a.netmask, 0);
      if netmask.None? then Panics
      else
        var network := NetworkOf(address.value, netmask.value);
        if !network.Ok? then Panics
        else Use(indexOf(a.name).value, a.name,
                 InterfaceSocket(address.value, network.value, netmask.value, a.flags.multicast, false))
  }

  function Entries(config: NetworkConfig, indexOf: IndexOf, addrs: seq<IfAddr>): (es: seq<Entry>)
    ensures |es| == |addrs|
    ensures forall i | 0 <= i < |addrs| :: es[i] == EntryOf(config, indexOf, addrs[i])
  {
    seq(|addrs|, i requires 0 <= i < |addrs| => EntryOf(config, indexOf, addrs[i]))
  }

  // ----- what the grouping should be

  function Indexes(es: seq<Entry>): set<nat> { set i | 0 <= i < |es| && es[i].Use? :: es[i].index }

  /** The sockets of one interface, in scan order. */
  function SocketsOf(es: seq<Entry>, index: nat): seq<InterfaceSocket> {
    if es == [] then []
    else
      var last := es[|es| - 1];
      SocketsOf(es[..|es| - 1], index) + (if last.Use? && last.index == index then [last.socket] else [])
  }

  /** The name the interface was first seen under. */
  function NameOf(es: seq<Entry>, index: nat): string
    requires index in Indexes(es)
  {
    var init := es[..|es| - 1];
    if index in Indexes(init) then NameOf(init, index)
    else
      LastHasIndex(es, index);
      es[|es| - 1].name
  }

  lemma LastHasIndex(es: seq<Entry>, index: nat)
    requires index in Indexes(es) && index !in Indexes(es[..|es| - 1])
    ensures es[|es| - 1].Use? && es[|es| - 1].index == index
  {
    assert es == es[..|es| - 1] + [es[|es| - 1]];
    IndexesSnoc(es[..|es| - 1], es[|es| - 1]);
  }

  function GroupOf(es: seq<Entry>, index: nat): Group
    requires index in Indexes(es)
  {
    Group(index, NameOf(es, index), SocketsOf(es, index))
  }

  function Groups(es: seq<Entry>): set<Group> { set index | index in Indexes(es) :: GroupOf(es, index) }

  // ----- the scan itself

  /** The netmask is given and of the address's family. */
  predicate NetmaskFits(netmask: Option<Storage>, address: SocketAddr) {
    netmask.Some? && if address.V4? then netmask.value.Inet? else netmask.value.Inet6?
  }

  /** An entry does not stop the scan: if it has an admissible address, its name has an index and
      its netmask fits. */
  ghost predicate Resolvable(config: NetworkConfig, indexOf: IndexOf, a: IfAddr) {
    forall address | Admissible(config, a, address) ::
      indexOf(a.name).Some? && NetmaskFits(a.netmask, address)
  }

  /** Entry i is the first that stops the scan. */
  ghost predicate StopsAt(config: NetworkConfig, indexOf: IndexOf, addrs: seq<IfAddr>, i: nat) {
    i < |addrs| && !Resolvable(config, indexOf, addrs[i])
    && forall j | 0 <= j < i :: Resolvable(config, indexOf, addrs[j])
  }

  /** The entries that stop the scan are those that cannot be resolved: with an error if the name
      has no index, with a panic otherwise. */
  lemma ResolvableExactly(config: NetworkConfig, indexOf: IndexOf, a: IfAddr)
    ensures var e := EntryOf(config, indexOf, a);
      && (e.Use? || e.Skip? <==> Resolvable(config, indexOf, a))
      && (e.Fails? <==> !Resolvable(config, indexOf, a) && indexOf(a.name).None?)
      && (e.Panics? <==> !Resolvable(config, indexOf, a) && indexOf(a.name).Some?)
  {
    var accepted := Accepted(config, a);
    forall address | Admissible(config, a, address) ensures accepted == Some(address) {
      FiltersExactly(config, a, address);
    }
    if accepted.Some? { FiltersExactly(config, a, accepted.value); }
  }

  method Scan(config: NetworkConfig, indexOf: IndexOf, addrs: seq<IfAddr>)
    returns (r: Outcome<set<Group>, ConnectorError>)
    ensures r.Ok? <==> forall i | 0 <= i < |addrs| :: Resolvable(config, indexOf, addrs[i])
    ensures r.Ok? ==> r.value == Groups(Entries(config, indexOf, addrs))
    ensures !r.Ok? ==>
      exists i: nat ::
        && StopsAt(config, indexOf, addrs, i)
        && r == if indexOf(addrs[i].name).Some? then Panic else Err(NoSuchInterface)
  {
    ghost var es := Entries(config, indexOf, addrs);
    var ilas: set<Group> := {};
    assert Groups(es[..0]) == {};
    for n := 0 to |addrs|
      invariant forall i | 0 <= i < n :: Resolvable(config, indexOf, addrs[i])
      invariant ilas == Groups(es[..n])
    {
      var a := addrs[n];
      ResolvableExactly(config, indexOf, a);
      assert es[..n + 1] == es[..n] + [es[n]];
      var address := Accepted(config, a);
      if address.None? {
        SkipKeepsGroups(es[..n], es[n]);
      } else {
        var index := indexOf(a.name);
        if index.None? {
          assert StopsAt(config, indexOf, addrs, n);
          return Err(NoSuchInterface);
        }
        var netmask := ToStdNet(a.netmask, 0);
        if netmask.None? {
          assert StopsAt(config, indexOf, addrs, n);
          return Panic;
        }
        var socket := NewSocket(address.value, netmask.value, a.flags.multicast);
        if socket.None? {
          assert StopsAt(config, indexOf, addrs, n);
          return Panic;
        }
        ilas := Place(ilas, index.value, a.name, socket.value, es[..n]);
      }
    }
    assert es[..|addrs|] == es;
    r := Ok(ilas);
  }

  /** The socket for an address and its netmask, if they are of one family. */
  method NewSocket(address: SocketAddr, netmask: SocketAddr, capable: bool) returns (socket: Option<InterfaceSocket>)
    ensures var network := NetworkOf(address, netmask);
      socket == if network.Ok? then Some(InterfaceSocket(address, network.value, netmask, capable, false)) else None
  {
    var network := ToNetwork(address, netmask);
    socket := if network.Ok? then Some(InterfaceSocket(address, network.value, netmask, capable, false)) else None;
  }

  /** Takes the group equal to a new one, or that new one, pushes the socket, and inserts it. */
  method Place(ilas: set<Group>, index: nat, name: string, socket: InterfaceSocket, ghost es: seq<Entry>)
    returns (after: set<Group>)
    requires ilas == Groups(es)
    ensures after == Groups(es + [Use(index, name, socket)])
  {
    var ila, rest := Take(ilas, Group(index, name, []), es);
    ila := ila.(sockets := ila.sockets + [socket]);
    assert forall g | g in rest :: g.index != ila.index;
    after := rest + {ila};
    PlaceGroups(es, index, name, socket);
  }

  /** HashSet::take with equality on the index alone, falling back to the probe. */
  method Take(ilas: set<Group>, probe: Group, ghost es: seq<Entry>) returns (ila: Group, rest: set<Group>)
    requires ilas == Groups(es)
    ensures ila == if probe.index in Indexes(es) then GroupOf(es, probe.index) else probe
    ensures rest == set i | i in Indexes(es) && i != probe.index :: GroupOf(es, i)
  {
    var equal := set g | g in ilas && g.index == probe.index;
    assert probe.index in Indexes(es) ==> GroupOf(es, probe.index) in equal;
    rest := ilas - equal;
    if equal == {} {
      ila := probe;
    } else {
      ila :| ila in equal;
    }
  }

  lemma IndexesSnoc(es: seq<Entry>, e: Entry)
    ensures Indexes(es + [e]) == Indexes(es) + (if e.Use? then {e.index} else {})
  {
    var all := es + [e];
    forall x ensures x in Indexes(all) <==> x in Indexes(es) || (e.Use? && x == e.index) {
      if x in Indexes(es) {
        var i :| 0 <= i < |es| && es[i].Use? && es[i].index == x;
        assert all[i] == es[i];
      }
      if e.Use? && x == e.index { assert all[|es|] == e; }
      if x in Indexes(all) {
        var i :| 0 <= i < |all| && all[i].Use? && all[i].index == x;
        assert i < |es| ==> all[i] == es[i];
      }
    }
  }

  /** Only the group of the entry's own index changes. */
  lemma GroupSnoc(es: seq<Entry>, e: Entry, index: nat)
    requires index in Indexes(es + [e])
    ensures if index in Indexes(es) then
        var more := if e.Use? && e.index == index then [e.socket] else [];
        GroupOf(es + [e], index) == GroupOf(es, index).(sockets := SocketsOf(es, index) + more)
      else
        e.Use? && e.index == index && GroupOf(es + [e], index) == Group(index, e.name, [e.socket])
  {
    assert (es + [e])[..|es|] == es;
    IndexesSnoc(es, e);
    if index !in Indexes(es) { NoSockets(es, index); }
  }

  lemma {:induction false} NoSockets(es: seq<Entry>, index: nat)
    requires index !in Indexes(es)
    ensures SocketsOf(es, index) == []
  {
    if es != [] {
      var init, last := es[..|es| - 1], es[|es| - 1];
      assert es == init + [last];
      IndexesSnoc(init, last);
      NoSockets(init, index);
    }
  }

  lemma SkipKeepsGroups(es: seq<Entry>, e: Entry)
    requires !e.Use?
    ensures Groups(es + [e]) == Groups(es)
  {
    IndexesSnoc(es, e);
    forall index | index in Indexes(es) ensures GroupOf(es + [e], index) == GroupOf(es, index) {
      GroupSnoc(es, e, index);
    }
  }

  lemma PlaceGroups(es: seq<Entry>, index: nat, name: string, socket: InterfaceSocket)
    ensures var e := Use(index, name, socket);
      var prior := if index in Indexes(es) then GroupOf(es, index) else Group(index, name, []);
      Groups(es + [e]) ==
        (set i | i in Indexes(es) && i != index :: GroupOf(es, i)) + {prior.(sockets := prior.sockets + [socket])}
  {
    var e := Use(index, name, socket);
    IndexesSnoc(es, e);
    GroupSnoc(es, e, index);
    forall i | i in Indexes(es) && i != index ensures GroupOf(es + [e], i) == GroupOf(es, i) {
      GroupSnoc(es, e, i);
    }
    var all := Groups(es + [e]);
    var others := set i | i in Indexes(es) && i != index :: GroupOf(es, i);
    forall g ensures g in all <==> g in others || g == GroupOf(es + [e], index) {
      if g in all {
        var i :| i in Indexes(es + [e]) && g == GroupOf(es + [e], i);
      }
      if g in others {
        var i :| i in Indexes(es) && i != index && g == GroupOf(es, i);
        assert g == GroupOf(es + [e], i);
      }
    }
  }

  // ----- the grouping is a partition

  /** How many earlier entries share the entry's interface. */
  function Rank(es: seq<Entry>, i: nat): nat
    requires i < |es| && es[i].Use?
  {
    |SocketsOf(es[..i], es[i].index)|
  }

  lemma {:induction false} SocketsGrow(es: seq<Entry>, i: nat, index: nat)
    requires i <= |es|
    ensures SocketsOf(es[..i], index) <= SocketsOf(es, index)
    decreases |es| - i
  {
    if i < |es| {
      assert es[..i + 1][..i] == es[..i];
      SocketsGrow(es, i + 1, index);
    } else {
      assert es[..i] == es;
    }
  }

  /** Every accepted entry is in the group of its index, at the place of its rank. */
  lemma EntryPlaced(es: seq<Entry>, i: nat)
    requires i < |es| && es[i].Use?
    ensures es[i].index in Indexes(es) && GroupOf(es, es[i].index) in Groups(es)
    ensures Rank(es, i) < |SocketsOf(es, es[i].index)| && SocketsOf(es, es[i].index)[Rank(es, i)] == es[i].socket
  {
    var index := es[i].index;
    assert es[..i + 1][..i] == es[..i];
    assert SocketsOf(es[..i + 1], index) == SocketsOf(es[..i], index) + [es[i].socket];
    SocketsGrow(es, i + 1, index);
    assert index in Indexes(es);
  }

  /** Ranks within one interface follow the scan order. */
  lemma RankOrdered(es: seq<Entry>, i: nat, j: nat)
    requires i < j < |es| && es[i].Use? && es[j].Use? && es[i].index == es[j].index
    ensures Rank(es, i) < Rank(es, j)
  {
    var init := es[..j];
    assert init[..i] == es[..i] && init[i] == es[i];
    EntryPlaced(init, i);
  }

  /** Every socket of a group comes from an accepted entry of its own interface. */
  lemma {:induction false} SocketHasEntry(es: seq<Entry>, index: nat, p: nat) returns (i: nat)
    requires p < |SocketsOf(es, index)|
    ensures i < |es| && es[i].Use? && es[i].index == index && Rank(es, i) == p
    ensures SocketsOf(es, index)[p] == es[i].socket
  {
    var n := |es| - 1;
    var init := es[..n];
    if p < |SocketsOf(init, index)| {
      i := SocketHasEntry(init, index, p);
      assert init[..i] == es[..i];
    } else {
      i := n;
    }
  }

  /** The groups partition the accepted entries: an interface index names one group, a group has
      sockets, and each of its sockets stands for exactly one entry. */
  lemma GroupsPartition(es: seq<Entry>)
    ensures forall g, h | g in Groups(es) && h in Groups(es) && g.index == h.index :: g == h
    ensures forall g | g in Groups(es) :: g.sockets != [] && g.sockets == SocketsOf(es, g.index)
    ensures forall g, p | g in Groups(es) && 0 <= p < |g.sockets| :: OneSource(es, g.index, p)
    ensures forall i | 0 <= i < |es| && es[i].Use? :: es[i].index in Indexes(es)
  {
    forall g | g in Groups(es) ensures g.sockets != [] {
      var i :| 0 <= i < |es| && es[i].Use? && es[i].index == g.index;
      EntryPlaced(es, i);
    }
    forall g, p | g in Groups(es) && 0 <= p < |g.sockets| ensures OneSource(es, g.index, p) {
      var i := SocketHasEntry(es, g.index, p);
      SourceUnique(es, g.index, p, i);
    }
  }

  predicate Source(es: seq<Entry>, index: nat, p: nat, i: nat) {
    i < |es| && es[i].Use? && es[i].index == index && Rank(es, i) == p
  }

  ghost predicate OnlySource(es: seq<Entry>, index: nat, p: nat, i: nat) {
    Source(es, index, p, i) && forall j: nat | Source(es, index, p, j) :: j == i
  }

  ghost predicate OneSource(es: seq<Entry>, index: nat, p: nat) {
    exists i: nat :: OnlySource(es, index, p, i)
  }

  lemma SourceUnique(es: seq<Entry>, index: nat, p: nat, i: nat)
    requires Source(es, index, p, i)
    ensures OnlySource(es, index, p, i)
  {
    forall j: nat | Source(es, index, p, j) ensures j == i {
      SameSource(es, index, p, i, j);
    }
  }

  lemma SameSource(es: seq<Entry>, index: nat, p: nat, i: nat, j: nat)
    requires Source(es, index, p, i) && Source(es, index, p, j)
    ensures i == j
  {
    if j < i { RankOrdered(es, j, i); }
    if i < j { RankOrdered(es, i, j); }
  }

  // ----- what the groups contain

  /** The configuration of a name that counts: the last one given for it. */
  predicate Governs(configs: seq<InterfaceConfig>, name: string, k: nat) {
    k < |configs| && configs[k].name == name && forall j | k < j < |configs| :: configs[j].name != name
  }

  lemma {:induction false} LookupGoverns(configs: seq<InterfaceConfig>, name: string, k: nat)
    ensures Governs(configs, name, k) ==> Lookup(configs, name) == Some(configs[k])
  {
    if Governs(configs, name, k) && k < |configs| - 1 {
      LookupGoverns(configs[..|configs| - 1], name, k);
    }
  }

  lemma {:induction false} LookupIsGoverning(configs: seq<InterfaceConfig>, name: string)
    ensures Lookup(configs, name).Some? ==> exists k: nat :: Governs(configs, name, k)
  {
    if configs != [] {
      var init := configs[..|configs| - 1];
      if configs[|configs| - 1].name == name {
        assert Governs(configs, name, |configs| - 1);
      } else {
        LookupIsGoverning(init, name);
        if Lookup(init, name).Some? {
          var k: nat :| Governs(init, name, k);
          assert Governs(configs, name, k);
        }
      }
    }
  }

  predicate SameHost(s: Storage, a: SocketAddr) {
    match s
    case Inet(ip) => a.V4? && a.ip4 == ip
    case Inet6(ip, flow, scope) => a.V6? && a.ip6 == ip && a.flowinfo == flow && a.scopeId == scope
    case OtherFamily => false
  }

  /** Family and port are as the interface is configured, or as by default when the
      configuration names no interfaces. */
  ghost predicate ConfiguredFor(config: NetworkConfig, name: string, address: SocketAddr) {
    if config.interfaces.Some? && config.interfaces.value != [] then
      exists k: nat :: Governs(config.interfaces.value, name, k)
        && address.port == config.interfaces.value[k].port
        && (if address.V4? then config.interfaces.value[k].ipv4 else config.interfaces.value[k].ipv6)
    else address.port == 3610
  }

  /** IPv4 addresses from 127.0.0.0 to 127.255.255.255, and the IPv6 address one. */
  predicate Loopback(a: SocketAddr) {
    match a
    case V4(ip, _) => 0x7f00_0000 <= BeValue(ip) <= 0x7fff_ffff
    case V6(ip, _, _, _) => BeValue(ip) == 1
  }

  lemma LoopbackExactly(a: SocketAddr)
    ensures IsLoopback(a) <==> Loopback(a)
  {
    if a.V4? {
      BeFour(a.ip4);
    } else {
      var one: seq<byte> := Zeros(15) + [1];
      BeSnoc(Zeros(15), 1);
      assert Zeros(15) + [] == Zeros(15);
      BeLeadingZeros(Zeros(15), []);
      if Loopback(a) { BeInjective(a.ip6, one); }
      assert one == [0, 0, 0, 0, 0, 0, 0, 0, 0, 0, 0, 0, 0, 0, 0, 1];
    }
  }

  /** What an address must be like to be listened on, and as what. */
  ghost predicate Admissible(config: NetworkConfig, a: IfAddr, address: SocketAddr) {
    && a.flags.up && a.flags.running && !a.flags.loopback && !(config.skipPtp && a.flags.pointToPoint)
    && a.address.Some? && SameHost(a.address.value, address) && !Loopback(address)
    && ConfiguredFor(config, a.name, address)
  }

  lemma NamedConfig(config: NetworkConfig, name: string, address: SocketAddr)
    requires OnlyInterfaces(config).Some?
    ensures ConfiguredFor(config, name, address) <==>
      var ic := Lookup(config.interfaces.value, name);
      ic.Some? && address.port == ic.value.port && (if address.V4? then ic.value.ipv4 else ic.value.ipv6)
  {
    var configs := config.interfaces.value;
    LookupIsGoverning(configs, name);
    forall k: nat | Governs(configs, name, k) ensures Lookup(configs, name) == Some(configs[k]) {
      LookupGoverns(configs, name, k);
    }
  }

  /** The chain of filters lets through exactly the admissible addresses. */
  lemma FiltersExactly(config: NetworkConfig, a: IfAddr, address: SocketAddr)
    ensures Accepted(config, a) == Some(address) <==> Admissible(config, a, address)
  {
    LoopbackExactly(address);
    if OnlyInterfaces(config).Some? { NamedConfig(config, a.name, address); }
  }

  /** The socket an address stands for on the interface of a given index. */
  ghost predicate ListensFor(config: NetworkConfig, indexOf: IndexOf, a: IfAddr, index: nat, s: InterfaceSocket) {
    && Admissible(config, a, s.address)
    && indexOf(a.name) == Some(index)
    && a.netmask.Some? && SameHost(a.netmask.value, s.netmask) && s.netmask.port == 0
    && IsNetwork(s.address, s.netmask, s.network)
    && s.multicastCapable == a.flags.multicast
  }

  lemma UsedEntry(config: NetworkConfig, indexOf: IndexOf, a: IfAddr)
    ensures var e := EntryOf(config, indexOf, a);
      e.Use? ==> ListensFor(config, indexOf, a, e.index, e.socket) && !e.socket.multicastSelected
  {
    var e := EntryOf(config, indexOf, a);
    if e.Use? {
      FiltersExactly(config, a, e.socket.address);
      NetworkExactly(e.socket.address, e.socket.netmask);
    }
  }

  /** Every socket of a group listens for one of the scanned addresses. */
  lemma GroupSocketsListen(config: NetworkConfig, indexOf: IndexOf, addrs: seq<IfAddr>, index: nat, p: nat)
    requires p < |SocketsOf(Entries(config, indexOf, addrs), index)|
    ensures var s := SocketsOf(Entries(config, indexOf, addrs), index)[p];
      exists i :: 0 <= i < |addrs| && ListensFor(config, indexOf, addrs[i], index, s)
  {
    var es := Entries(config, indexOf, addrs);
    var i := SocketHasEntry(es, index, p);
    UsedEntry(config, indexOf, addrs[i]);
  }

  /** A group bears the name of the first entry that is in it. */
  lemma GroupNamed(config: NetworkConfig, indexOf: IndexOf, addrs: seq<IfAddr>, index: nat)
    requires index in Indexes(Entries(config, indexOf, addrs))
    ensures var es := Entries(config, indexOf, addrs);
      exists i :: 0 <= i < |addrs| && Source(es, index, 0, i) && NameOf(es, index) == addrs[i].name
  {
    var i := NamedByFirst(Entries(config, indexOf, addrs), index);
  }

  lemma {:induction false} NamedByFirst(es: seq<Entry>, index: nat) returns (i: nat)
    requires index in Indexes(es)
    ensures Source(es, index, 0, i) && NameOf(es, index) == es[i].name
  {
    var n := |es| - 1;
    var init := es[..n];
    if index in Indexes(init) {
      i := NamedByFirst(init, index);
      assert init[..i] == es[..i];
    } else {
      LastHasIndex(es, index);
      NoSockets(init, index);
      i := n;
    }
  }

  /** Every admissible address of an entry that does not stop the scan is listened on in the group
      of its interface. */
  lemma AdmissibleIsListenedOn(config: NetworkConfig, indexOf: IndexOf, addrs: seq<IfAddr>, i: nat, address: SocketAddr)
    requires i < |addrs| && Admissible(config, addrs[i], address) && Resolvable(config, indexOf, addrs[i])
    ensures var es := Entries(config, indexOf, addrs);
      && es[i].Use? && es[i].socket.address == address && es[i].socket in SocketsOf(es, es[i].index)
      && ListensFor(config, indexOf, addrs[i], es[i].index, es[i].socket)
  {
    ResolvableExactly(config, indexOf, addrs[i]);
    UsedEntry(config, indexOf, addrs[i]);
    FiltersExactly(config, addrs[i], address);
    EntryPlaced(Entries(config, indexOf, addrs), i);
  }
}
