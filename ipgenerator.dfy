/** `IPGenerator`: hands out the usable host addresses of one IPv4 network in ascending order,
    with a one-step rollback. Addresses are 32-bit unsigned integers; netmasks are read as
    `ipaddress.IPv4Network` reads them. */
module Allocator {
  import opened Wrappers

  const AddressSpace := 0x1_0000_0000

  type Addr = x: nat | x < AddressSpace

  /** The dotted quad `a.b.c.d` as an address. */
  function Ipv4(a: nat, b: nat, c: nat, d: nat): Addr
    requires a < 256 && b < 256 && c < 256 && d < 256
  {
    a * 0x100_0000 + b * 0x1_0000 + c * 0x100 + d
  }

  function Pow2(n: nat): (r: nat)
    ensures r >= 1
  {
    if n == 0 then 1 else 2 * Pow2(n - 1)
  }

  lemma {:induction false} Pow2Add(m: nat, n: nat)
    ensures Pow2(m + n) == Pow2(m) * Pow2(n)
  {
    if m > 0 {
      Pow2Add(m - 1, n);
    }
  }

  lemma {:induction false} Pow2Increasing(m: nat, n: nat)
    requires m < n
    ensures Pow2(m) < Pow2(n)
  {
    if n - 1 > m {
      Pow2Increasing(m, n - 1);
    }
  }

  lemma Pow2Values()
    ensures Pow2(8) == 0x100 && Pow2(32) == AddressSpace
  {
    assert Pow2(4) == 16;
    Pow2Add(4, 4);
    Pow2Add(8, 8);
    Pow2Add(16, 16);
  }

  /** Number of addresses in a network with `prefix` leading one bits. */
  function BlockSize(prefix: nat): (b: nat)
    requires prefix <= 32
    ensures 1 <= b <= AddressSpace && Pow2(prefix) * b == AddressSpace
  {
    BlockSizeFacts(prefix);
    Pow2(32 - prefix)
  }

  lemma BlockSizeFacts(prefix: nat)
    requires prefix <= 32
    ensures Pow2(prefix) * Pow2(32 - prefix) == AddressSpace && Pow2(32 - prefix) <= AddressSpace
  {
    Pow2Values();
    Pow2Add(prefix, 32 - prefix);
    MulMonotone(1, Pow2(prefix), Pow2(32 - prefix));
  }

  lemma BlockSizeInjective(p: nat, q: nat)
    requires p <= 32 && q <= 32 && BlockSize(p) == BlockSize(q)
    ensures p == q
  {
    if p < q {
      Pow2Increasing(32 - q, 32 - p);
    } else if q < p {
      Pow2Increasing(32 - p, 32 - q);
    }
  }

  /** `IPv4Network(...).netmask`: `prefix` one bits followed by zeros. */
  function MaskOfPrefix(prefix: nat): Addr
    requires prefix <= 32
  {
    AddressSpace - BlockSize(prefix)
  }

  /** The host-mask spelling of the same prefix: its bitwise complement. */
  function HostmaskOfPrefix(prefix: nat): Addr
    requires prefix <= 32
  {
    BlockSize(prefix) - 1
  }

  /** A netmask argument: a prefix length (an int, or a string of digits) or a dotted mask. */
  datatype Netmask = PrefixLength(bits: int) | DottedMask(mask: Addr)

  function SearchNetmask(m: Addr, from: nat): (r: Option<nat>)
    requires from <= 33
    ensures r.Some? ==> from <= r.value <= 32 && MaskOfPrefix(r.value) == m
    ensures r.None? ==> forall q :: from <= q <= 32 ==> MaskOfPrefix(q) != m
    decreases 33 - from
  {
    if from == 33 then None
    else if MaskOfPrefix(from) == m then Some(from)
    else SearchNetmask(m, from + 1)
  }

  function SearchHostmask(m: Addr, from: nat): (r: Option<nat>)
    requires from <= 33
    ensures r.Some? ==> from <= r.value <= 32 && HostmaskOfPrefix(r.value) == m
    ensures r.None? ==> forall q :: from <= q <= 32 ==> HostmaskOfPrefix(q) != m
    decreases 33 - from
  {
    if from == 33 then None
    else if HostmaskOfPrefix(from) == m then Some(from)
    else SearchHostmask(m, from + 1)
  }

  /** The prefix length `ipaddress` derives from a netmask argument: a length must lie in
      0..32; a dotted mask is read as a netmask first and, failing that, as a host mask. */
  function PrefixOf(nm: Netmask): (r: Option<nat>)
    ensures r.Some? ==> r.value <= 32
    ensures nm.PrefixLength? ==> (r.Some? <==> 0 <= nm.bits <= 32) && (r.Some? ==> r.value == nm.bits)
    ensures nm.DottedMask? && r.Some? ==>
      MaskOfPrefix(r.value) == nm.mask
      || (HostmaskOfPrefix(r.value) == nm.mask && forall q :: 0 <= q <= 32 ==> MaskOfPrefix(q) != nm.mask)
    ensures nm.DottedMask? && r.None? ==>
      forall q :: 0 <= q <= 32 ==> MaskOfPrefix(q) != nm.mask && HostmaskOfPrefix(q) != nm.mask
  {
    match nm
    case PrefixLength(bits) => if 0 <= bits <= 32 then Some(bits) else None
    case DottedMask(m) =>
      match SearchNetmask(m, 0)
      case Some(p) => Some(p)
      case None => SearchHostmask(m, 0)
  }

  /** A netmask and its prefix length name each other: a dotted netmask yields its own prefix. */
  lemma PrefixOfNetmask(p: nat)
    requires p <= 32
    ensures SearchNetmask(MaskOfPrefix(p), 0) == Some(p)
    ensures PrefixOf(DottedMask(MaskOfPrefix(p))) == Some(p)
  {
    var r := SearchNetmask(MaskOfPrefix(p), 0);
    assert r.Some?;
    BlockSizeInjective(r.value, p);
  }

  /** `strict=False`: the network of `a` is `a` with its low `32 - prefix` bits cleared, which
      is the one block-aligned address within a block of `a`. */
  function NetworkAddress(a: Addr, prefix: nat): (n: Addr)
    requires prefix <= 32
    ensures n <= a < n + BlockSize(prefix) <= AddressSpace
    ensures n % BlockSize(prefix) == 0
  {
    AlignDown(a, BlockSize(prefix), Pow2(prefix))
  }

  /** The network address is the only block-aligned address whose block holds `a`. */
  lemma NetworkAddressUnique(a: Addr, prefix: nat, m: nat)
    requires prefix <= 32
    requires m % BlockSize(prefix) == 0 && m <= a < m + BlockSize(prefix)
    ensures m == NetworkAddress(a, prefix)
  {
    AlignedUnique(a, BlockSize(prefix), m, Pow2(prefix));
  }

  /** Rounding `a` down to a multiple of `b`, where `b` divides the address space `k` times. */
  function AlignDown(a: nat, b: nat, k: nat): (n: nat)
    requires a < AddressSpace && b >= 1 && k * b == AddressSpace
    ensures n <= a < n + b <= AddressSpace && n % b == 0
  {
    AlignDownFacts(a, b, k);
    (a / b) * b
  }

  lemma AlignDownFacts(a: nat, b: nat, k: nat)
    requires a < AddressSpace && b >= 1 && k * b == AddressSpace
    ensures var n := (a / b) * b; n <= a < n + b <= AddressSpace
    ensures ((a / b) * b) % b == 0
  {
    var q := a / b;
    assert q * b <= a < q * b + b;
    assert q < k by {
      if q >= k {
        MulMonotone(k, q, b);
      }
    }
    MulMonotone(q + 1, k, b);
    assert (q + 1) * b == q * b + b;
    MultipleMod(q, b);
  }

  lemma MultipleMod(q: nat, b: nat)
    requires b >= 1
    ensures (q * b) % b == 0
  {
    var x := q * b;
    var p := x / b;
    assert x == p * b + x % b;
    MulStrict(p, q, b);
    MulStrict(q, p, b);
  }

  /** A multiple of `b` within `b` below or at `a` is `a` rounded down. */
  lemma AlignedUnique(a: nat, b: nat, m: nat, k: nat)
    requires a < AddressSpace && b >= 1 && k * b == AddressSpace
    requires m % b == 0 && m <= a < m + b
    ensures m == AlignDown(a, b, k)
  {
    var qm, qa := m / b, a / b;
    assert m == qm * b;
    assert qa * b <= a < qa * b + b;
    MulStrict(qm, qa, b);
    MulStrict(qa, qm, b);
  }

  lemma MulStrict(x: nat, y: nat, b: nat)
    ensures x < y ==> x * b + b <= y * b
  {
    if x < y {
      MulMonotone(x + 1, y, b);
      assert (x + 1) * b == x * b + b;
    }
  }

  lemma MulMonotone(x: nat, y: nat, b: nat)
    requires x <= y
    ensures x * b <= y * b
  {
  }

  function BroadcastAddress(net: Addr, prefix: nat): Addr
    requires prefix <= 32 && net + BlockSize(prefix) <= AddressSpace
  {
    net + BlockSize(prefix) - 1
  }

  /** `address in network`. */
  predicate InNetwork(x: Addr, net: Addr, prefix: nat)
    requires prefix <= 32
  {
    net <= x < net + BlockSize(prefix)
  }

  /** `hosts()`: every address but the network and broadcast ones; a /31 keeps both of its
      addresses and a /32 its single one. */
  function FirstHost(net: Addr, prefix: nat): nat
    requires prefix <= 32
  {
    if prefix >= 31 then net else net + 1
  }

  function HostCount(prefix: nat): (c: nat)
    requires prefix <= 32
    ensures 1 <= c <= BlockSize(prefix)
  {
    if prefix == 32 then 1
    else if prefix == 31 then 2
    else
      Pow2Increasing(1, 32 - prefix);
      BlockSize(prefix) - 2
  }

  ghost predicate IsNetwork(net: Addr, prefix: nat) {
    prefix <= 32 && net + BlockSize(prefix) <= AddressSpace
  }

  function Hosts(net: Addr, prefix: nat): (hosts: seq<Addr>)
    requires IsNetwork(net, prefix)
    ensures |hosts| == HostCount(prefix)
  {
    var first, count := FirstHost(net, prefix), HostCount(prefix);
    assert first + count <= net + BlockSize(prefix);
    seq(count, i requires 0 <= i < count => (first + i) as Addr)
  }

  /** The host list is strictly ascending, lies inside the network, and holds exactly the
      addresses from its first host on, each at its offset from the first host. */
  lemma HostsShape(net: Addr, prefix: nat)
    requires IsNetwork(net, prefix)
    ensures var hosts, first := Hosts(net, prefix), FirstHost(net, prefix);
      && (forall i, j :: 0 <= i < j < |hosts| ==> hosts[i] < hosts[j])
      && (forall i :: 0 <= i < |hosts| ==> InNetwork(hosts[i], net, prefix) && hosts[i] == first + i)
      && (prefix <= 30 ==>
            |hosts| == BlockSize(prefix) - 2 && hosts[0] == net + 1
            && hosts[|hosts| - 1] == BroadcastAddress(net, prefix) - 1)
  {
  }

  /** An address is a host iff it lies in the host range, and then it sits at its offset. */
  lemma HostMembership(net: Addr, prefix: nat, x: Addr)
    requires IsNetwork(net, prefix)
    ensures var hosts, first := Hosts(net, prefix), FirstHost(net, prefix);
      (x in hosts <==> first <= x < first + |hosts|)
      && (x in hosts ==> hosts[x - first] == x)
  {
    var hosts, first := Hosts(net, prefix), FirstHost(net, prefix);
    if first <= x < first + |hosts| {
      assert hosts[x - first] == x;
    }
  }

  /** `list.index(x)`: the first position holding `x`, or `None` where Python raises. */
  method IndexOf(list: seq<Addr>, x: Addr) returns (r: Option<nat>)
    ensures r.None? <==> x !in list
    ensures r.Some? ==> r.value < |list| && list[r.value] == x
    ensures r.Some? ==> forall k :: 0 <= k < r.value ==> list[k] != x
  {
    var i := 0;
    while i < |list|
      invariant 0 <= i <= |list|
      invariant forall k :: 0 <= k < i ==> list[k] != x
    {
      if list[i] == x {
        return Some(i);
      }
      i := i + 1;
    }
    return None;
  }

  /** Why construction fails. `NoUsableHosts` mirrors a check that the host rule above never
      triggers (every prefix leaves at least one host). */
  datatype InitError = InvalidNetmask | DefaultGatewayOverflow | GatewayOutsideNetwork | NoUsableHosts

  /** `get_network_info()`, with addresses as numbers. */
  datatype NetworkInfo = NetworkInfo(
    networkAddress: Addr,
    broadcastAddress: Addr,
    netmask: Addr,
    totalHosts: nat,
    usedHosts: nat,
    availableHosts: nat,
    gateway: Addr)

  class IpGenerator {
    const startIp: Addr
    const prefix: nat
    const network: Addr
    const availableHosts: seq<Addr>
    const maxAvailable: nat
    const gateway: Addr
    /** Number of addresses handed out: `availableHosts[..currentIndex]` are issued. */
    var currentIndex: nat

    ghost predicate Valid()
      reads this
    {
      && prefix <= 32
      && network == NetworkAddress(startIp, prefix)
      && availableHosts == Hosts(network, prefix)
      && maxAvailable == |availableHosts|
      && currentIndex <= maxAvailable
    }

    constructor Init(startIp: Addr, prefix: nat, gateway: Addr, startIndex: nat)
      requires prefix <= 32 && startIndex <= HostCount(prefix)
      ensures Valid()
      ensures this.startIp == startIp && this.prefix == prefix && this.gateway == gateway
      ensures currentIndex == startIndex
    {
      this.startIp := startIp;
      this.prefix := prefix;
      var net := NetworkAddress(startIp, prefix);
      network := net;
      availableHosts := Hosts(net, prefix);
      maxAvailable := HostCount(prefix);
      this.gateway := gateway;
      currentIndex := startIndex;
    }

    /** `IPGenerator(start_ip, netmask, gateway)`, checks in the constructor's order. */
    static method New(startIp: Addr, netmask: Netmask, gateway: Option<Addr>)
      returns (r: Result<IpGenerator, InitError>)
      ensures PrefixOf(netmask).None? ==> r == Failure(InvalidNetmask)
      ensures PrefixOf(netmask).Some? ==>
        var p := PrefixOf(netmask).value;
        var net := NetworkAddress(startIp, p);
        var first, count := FirstHost(net, p), HostCount(p);
        if gateway.None? && net == AddressSpace - 1 then r == Failure(DefaultGatewayOverflow)
        else if gateway.Some? && !InNetwork(gateway.value, net, p) then r == Failure(GatewayOutsideNetwork)
        else
          && r.Success? && fresh(r.value) && r.value.Valid()
          && r.value.startIp == startIp && r.value.prefix == p
          && r.value.gateway == (if gateway.None? then net + 1 else gateway.value)
          && r.value.currentIndex == (if first <= startIp < first + count then startIp - first else 0)
    {
      var prefixLen := PrefixOf(netmask);
      if prefixLen.None? {
        return Failure(InvalidNetmask);
      }
      var p := prefixLen.value;
      var net := NetworkAddress(startIp, p);
      var hosts := Hosts(net, p);
      var gw: Addr;
      if gateway.None? {
        if net == AddressSpace - 1 {
          return Failure(DefaultGatewayOverflow);
        }
        gw := net + 1;
      } else {
        if !InNetwork(gateway.value, net, p) {
          return Failure(GatewayOutsideNetwork);
        }
        gw := gateway.value;
      }
      var found := IndexOf(hosts, startIp);
      var index := if found.Some? then found.value else 0;
      HostMembership(net, p, startIp);
      if |hosts| == 0 {
        return Failure(NoUsableHosts);
      }
      var g := new IpGenerator.Init(startIp, p, gw, index);
      return Success(g);
    }

    /** `get_current_ip()`: the last address handed out, `None` before the first. */
    function CurrentIp(): (r: Option<Addr>)
      requires Valid()
      reads this
      ensures r.None? <==> currentIndex == 0
      ensures r.Some? ==> r.value == availableHosts[currentIndex - 1]
    {
      if currentIndex == 0 then None else Some(availableHosts[currentIndex - 1])
    }

    /** `get_remaining_count()`. */
    function RemainingCount(): (n: nat)
      requires Valid()
      reads this
      ensures n + currentIndex == maxAvailable
    {
      maxAvailable - currentIndex
    }

    /** The `netmask` property. */
    function Netmask(): (m: Addr)
      requires Valid()
      reads this
      ensures SearchNetmask(m, 0) == Some(prefix)
      ensures PrefixOf(DottedMask(m)) == Some(prefix)
    {
      PrefixOfNetmask(prefix);
      MaskOfPrefix(prefix)
    }

    /** `get_network_info()`. */
    function GetNetworkInfo(): (info: NetworkInfo)
      requires Valid()
      reads this
      ensures info.networkAddress == network && info.gateway == gateway
      ensures info.netmask == Netmask() && SearchNetmask(info.netmask, 0) == Some(prefix)
      ensures info.totalHosts == maxAvailable == |availableHosts|
      ensures info.usedHosts == currentIndex && info.availableHosts == RemainingCount()
      ensures info.usedHosts + info.availableHosts == info.totalHosts
      ensures info.networkAddress <= startIp <= info.broadcastAddress
      ensures info.broadcastAddress - info.networkAddress + 1 == BlockSize(prefix)
    {
      NetworkInfo(network, BroadcastAddress(network, prefix), Netmask(), maxAvailable,
                  currentIndex, RemainingCount(), gateway)
    }

    /** `get_next_ip()`: `None` where Python raises `IndexError`. */
    method GetNextIp() returns (r: Option<Addr>)
      requires Valid()
      modifies this
      ensures Valid()
      ensures old(currentIndex) < maxAvailable ==>
        r == Some(availableHosts[old(currentIndex)]) && currentIndex == old(currentIndex) + 1
      ensures old(currentIndex) >= maxAvailable ==> r.None? && currentIndex == old(currentIndex)
      ensures r.Some? ==> RemainingCount() == old(RemainingCount()) - 1 && CurrentIp() == r
      ensures r.Some? && old(CurrentIp()).Some? ==> old(CurrentIp()).value < r.value
    {
      if currentIndex >= maxAvailable {
        return None;
      }
      HostsShape(network, prefix);
      r := Some(availableHosts[currentIndex]);
      currentIndex := currentIndex + 1;
    }

    /** `recycle_current_ip()`: steps back over the last address handed out, so that the next
        `GetNextIp` hands it out again. */
    method RecycleCurrentIp() returns (ok: bool)
      requires Valid()
      modifies this
      ensures Valid()
      ensures ok <==> old(currentIndex) > 0
      ensures currentIndex == if ok then old(currentIndex) - 1 else old(currentIndex)
      ensures ok ==> availableHosts[currentIndex] == old(CurrentIp()).value
    {
      if currentIndex <= 0 {
        return false;
      }
      currentIndex := currentIndex - 1;
      return true;
    }

    /** `reset()`: back to the first host (not to the start address). */
    method Reset()
      requires Valid()
      modifies this
      ensures Valid() && currentIndex == 0
    {
      currentIndex := 0;
    }
  }

  /** Reserve, fail, roll back, and reserve again: the second reservation gets the address the
      first one got. */
  method ReserveRollbackReserve(g: IpGenerator) returns (first: Option<Addr>, again: Option<Addr>)
    requires g.Valid()
    modifies g
    ensures g.Valid()
    ensures first == again
    ensures first.Some? <==> old(g.currentIndex) < g.maxAvailable
    ensures g.currentIndex == if first.Some? then old(g.currentIndex) + 1 else old(g.currentIndex)
  {
    first := g.GetNextIp();
    if first.Some? {
      var ok := g.RecycleCurrentIp();
      again := g.GetNextIp();
    } else {
      again := g.GetNextIp();
    }
  }

  /** `get_current_ip`, `recycle_current_ip`, `get_next_ip` in a row: a successful recycle makes
      the next address the one reported as current before it; a failed one changes nothing. */
  method RecycleThenNext(g: IpGenerator) returns (before: Option<Addr>, ok: bool, next: Option<Addr>)
    requires g.Valid()
    modifies g
    ensures g.Valid()
    ensures ok <==> before.Some?
    ensures ok ==> next == before && g.currentIndex == old(g.currentIndex)
    ensures !ok ==> old(g.currentIndex) == 0
    ensures g.currentIndex == old(g.currentIndex)
  {
    before := g.CurrentIp();
    ok := g.RecycleCurrentIp();
    if ok {
      next := g.GetNextIp();
    } else {
      next := None;
    }
  }

  /** The generator of the example program: start at 192.168.1.100 with mask 255.255.255.0 and
      no gateway. It is built, sits on the hundredth host and takes .1 as its gateway. */
  method ExampleGenerator() returns (g: IpGenerator)
    ensures fresh(g) && g.Valid() && g.currentIndex == 99 && g.gateway == Ipv4(192, 168, 1, 1)
    ensures |g.availableHosts| == 254
    ensures g.availableHosts[99] == Ipv4(192, 168, 1, 100)
    ensures g.availableHosts[253] == Ipv4(192, 168, 1, 254)
    ensures forall i, j :: 0 <= i < j < |g.availableHosts| ==> g.availableHosts[i] < g.availableHosts[j]
  {
    ExampleMask();
    ExampleNetwork();
    ExampleHosts();
    var r := IpGenerator.New(Ipv4(192, 168, 1, 100), DottedMask(Ipv4(255, 255, 255, 0)), None);
    g := r.value;
    HostsShape(g.network, g.prefix);
  }

  /** The campaign in the example program: take addresses from the example generator until it
      refuses. */
  method ExampleCampaign() returns (issued: seq<Addr>, attempts: nat, gateway: Addr)
    ensures attempts == 156 && |issued| == 155
    ensures issued[0] == Ipv4(192, 168, 1, 100) && issued[154] == Ipv4(192, 168, 1, 254)
    ensures forall i, j :: 0 <= i < j < |issued| ==> issued[i] < issued[j]
    ensures gateway == Ipv4(192, 168, 1, 1)
  {
    var g := ExampleGenerator();
    gateway := g.gateway;
    issued, attempts := [], 0;
    while true
      invariant g.Valid() && |g.availableHosts| == 254
      invariant 99 <= g.currentIndex <= 254 && attempts == g.currentIndex - 99
      invariant issued == g.availableHosts[99..g.currentIndex]
      decreases 254 - g.currentIndex
    {
      var next := g.GetNextIp();
      attempts := attempts + 1;
      if next.None? {
        break;
      }
      issued := issued + [next.value];
    }
  }

  /** The hosts of 192.168.1.0/24 run from .1 to .254, so .100 is the hundredth. */
  lemma ExampleHosts()
    ensures IsNetwork(Ipv4(192, 168, 1, 0), 24)
    ensures var hosts := Hosts(Ipv4(192, 168, 1, 0), 24);
      && |hosts| == 254 && hosts[99] == Ipv4(192, 168, 1, 100) && hosts[253] == Ipv4(192, 168, 1, 254)
  {
    ExampleNetwork();
    Pow2Values();
    assert BlockSize(24) == 0x100;
  }

  /** 255.255.255.0 is the netmask of a /24. */
  lemma ExampleMask()
    ensures PrefixOf(DottedMask(Ipv4(255, 255, 255, 0))) == Some(24)
  {
    Pow2Values();
    assert MaskOfPrefix(24) == Ipv4(255, 255, 255, 0);
    PrefixOfNetmask(24);
  }

  /** The network of 192.168.1.100/24 is 192.168.1.0, with 254 hosts from 192.168.1.1 on. */
  lemma ExampleNetwork()
    ensures NetworkAddress(Ipv4(192, 168, 1, 100), 24) == Ipv4(192, 168, 1, 0)
    ensures HostCount(24) == 254 && FirstHost(Ipv4(192, 168, 1, 0), 24) == Ipv4(192, 168, 1, 1)
  {
    Pow2Values();
    assert BlockSize(24) == 0x100;
    assert Ipv4(192, 168, 1, 100) == 3232235876 && Ipv4(192, 168, 1, 0) == 3232235776;
    assert 3232235876 / 0x100 == 12625921;
  }

  /** That network address is the start address ANDed with the mask, bit for bit. */
  lemma ExampleNetworkIsMasked()
    ensures Ipv4(192, 168, 1, 100) == 3232235876 && Ipv4(255, 255, 255, 0) == 0xFFFF_FF00
    ensures NetworkAddress(Ipv4(192, 168, 1, 100), 24) == 3232235776 && MaskOfPrefix(24) == 0xFFFF_FF00
    ensures (3232235876 as bv32) & 0xFFFF_FF00 == 3232235776
  {
    ExampleNetwork();
    Pow2Values();
    assert BlockSize(24) == 0x100;
  }
}
