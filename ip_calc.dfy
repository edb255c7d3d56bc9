/** The subnet calculator: from an address, a prefix length and the bit width of the address
    family it derives netmask, wildcard, network, broadcast, host range, host count and
    classification. The width, a process-wide variable in the program, is a parameter here. */
module IpCalc {
  import opened Arith
  import opened Bits
  import opened BinaryRep
  import opened Strings
  import opened Wrappers

  /** The bit width of an address family: 32 for version 4, 128 for any other version. */
  function Width(version: nat): (w: nat)
    ensures w == 32 || w == 128
    ensures w == 32 <==> version == 4
  {
    if version == 4 then 32 else 128
  }

  /** The netmask of a prefix, computed as the address library does:
      all-ones XOR (all-ones shifted right by the prefix length). */
  function Netmask(prefix: nat, w: nat): nat
    requires prefix <= w
  {
    Xor(AllOnes(w), ShiftRight(AllOnes(w), prefix), w)
  }

  /** The wildcard (host mask): the netmask XOR all-ones. */
  function Wildcard(prefix: nat, w: nat): nat
    requires prefix <= w
  {
    Xor(Netmask(prefix, w), AllOnes(w), w)
  }

  /** The network address: the address AND the netmask. */
  function Network(address: nat, prefix: nat, w: nat): nat
    requires prefix <= w && address < Pow2(w)
  {
    And(address, Netmask(prefix, w), w)
  }

  /** The broadcast address: the network address OR the wildcard. */
  function Broadcast(address: nat, prefix: nat, w: nat): nat
    requires prefix <= w && address < Pow2(w)
  {
    Or(Network(address, prefix, w), Wildcard(prefix, w), w)
  }

  /** The number of addresses in the network, as the library counts them. */
  function NumAddresses(address: nat, prefix: nat, w: nat): int
    requires prefix <= w && address < Pow2(w)
  {
    Broadcast(address, prefix, w) - Network(address, prefix, w) + 1
  }

  /** The reported host count: every address but the network and broadcast addresses. */
  function HostCount(address: nat, prefix: nat, w: nat): int
    requires prefix <= w && address < Pow2(w)
  {
    NumAddresses(address, prefix, w) - 2
  }

  /** all-ones >> prefix is the value of w - prefix one-bits. */
  lemma {:induction false} ShiftedOnes(prefix: nat, w: nat)
    requires prefix <= w
    ensures ShiftRight(AllOnes(w), prefix) == Pow2(w - prefix) - 1
  {
    if prefix > 0 {
      assert AllOnes(w) / 2 == AllOnes(w - 1);
      ShiftedOnes(prefix - 1, w - 1);
    }
  }

  /** The netmask is `prefix` one-bits followed by `w - prefix` zero-bits, and the wildcard
      is its bitwise complement: `prefix` zero-bits followed by `w - prefix` one-bits. */
  lemma {:induction false} MaskBits(prefix: nat, w: nat)
    requires prefix <= w
    ensures ToBits(Netmask(prefix, w), w) == Ones(prefix) + Zeros(w - prefix)
    ensures ToBits(Wildcard(prefix, w), w) == Zeros(prefix) + Ones(w - prefix)
  {
    var ones, m := AllOnes(w), Netmask(prefix, w);
    NetmaskBits(prefix, w);
    AllOnesBits(w);
    assert Wildcard(prefix, w) == Xor(m, ones, w);
    XorBitsOf(m, ones, w, Ones(prefix) + Zeros(w - prefix), Ones(w));
    XorHighOnes(prefix, w);
  }

  /** The netmask half of `MaskBits`. */
  lemma {:induction false} NetmaskBits(prefix: nat, w: nat)
    requires prefix <= w
    ensures ToBits(Netmask(prefix, w), w) == Ones(prefix) + Zeros(w - prefix)
  {
    var ones, shifted := AllOnes(w), ShiftRight(AllOnes(w), prefix);
    AllOnesBits(w);
    ShiftedOnes(prefix, w);
    LowOnesBits(w - prefix, w);
    assert ToBits(shifted, w) == Zeros(prefix) + Ones(w - prefix);
    assert Netmask(prefix, w) == Xor(ones, shifted, w);
    XorBitsOf(ones, shifted, w, Ones(w), Zeros(prefix) + Ones(w - prefix));
    XorOnesLow(prefix, w);
  }

  /** The values of the masks: the netmask and the wildcard add up to 2^w - 1 and share no
      bit, so the wildcard is the complement of the netmask within w bits. */
  lemma {:induction false} MaskValues(prefix: nat, w: nat)
    requires prefix <= w
    ensures Netmask(prefix, w) == (Pow2(prefix) - 1) * Pow2(w - prefix)
    ensures Wildcard(prefix, w) == Pow2(w - prefix) - 1
    ensures Netmask(prefix, w) + Wildcard(prefix, w) == Pow2(w) - 1
    ensures And(Netmask(prefix, w), Wildcard(prefix, w), w) == 0
    ensures Or(Netmask(prefix, w), Wildcard(prefix, w), w) == Pow2(w) - 1
  {
    var m, h, low := Netmask(prefix, w), Wildcard(prefix, w), Pow2(w - prefix);
    NetmaskValue(prefix, w);
    WildcardValue(prefix, w);
    Pow2Add(prefix, w - prefix);
    MulPred(Pow2(prefix), low);
    MaskAndOr(prefix, w);
  }

  lemma {:induction false} NetmaskValue(prefix: nat, w: nat)
    requires prefix <= w
    ensures Netmask(prefix, w) == (Pow2(prefix) - 1) * Pow2(w - prefix)
  {
    MaskBits(prefix, w);
    ValueOfBits(Netmask(prefix, w), w, Ones(prefix) + Zeros(w - prefix));
    FromBitsHighZeros(Ones(prefix), w - prefix);
    FromBitsOnes(prefix);
  }

  lemma {:induction false} WildcardValue(prefix: nat, w: nat)
    requires prefix <= w
    ensures Wildcard(prefix, w) == Pow2(w - prefix) - 1
  {
    MaskBits(prefix, w);
    ValueOfBits(Wildcard(prefix, w), w, Zeros(prefix) + Ones(w - prefix));
    FromBitsHighOnes(Zeros(prefix), w - prefix);
    FromBitsZeros(prefix);
  }

  lemma {:induction false} MaskAndOr(prefix: nat, w: nat)
    requires prefix <= w
    ensures And(Netmask(prefix, w), Wildcard(prefix, w), w) == 0
    ensures Or(Netmask(prefix, w), Wildcard(prefix, w), w) == Pow2(w) - 1
  {
    MaskBits(prefix, w);
    MasksDisjoint(Netmask(prefix, w), Wildcard(prefix, w), prefix, w);
  }

  /** The network address is the address with its `w - prefix` host bits cleared, and the
      broadcast address is the address with them set. */
  lemma {:induction false} NetworkBits(address: nat, prefix: nat, w: nat)
    requires prefix <= w && address < Pow2(w)
    ensures ToBits(Network(address, prefix, w), w) == ToBits(address, w)[..prefix] + Zeros(w - prefix)
    ensures ToBits(Broadcast(address, prefix, w), w) == ToBits(address, w)[..prefix] + Ones(w - prefix)
  {
    var a := ToBits(address, w);
    var m, h := Netmask(prefix, w), Wildcard(prefix, w);
    var net := Network(address, prefix, w);
    MaskBits(prefix, w);
    assert net == And(address, m, w);
    AndBitsOf(address, m, w, a, Ones(prefix) + Zeros(w - prefix));
    assert AndBits(a, Ones(prefix) + Zeros(w - prefix)) == a[..prefix] + Zeros(w - prefix);
    assert Broadcast(address, prefix, w) == Or(net, h, w);
    OrBitsOf(net, h, w, a[..prefix] + Zeros(w - prefix), Zeros(prefix) + Ones(w - prefix));
    assert OrBits(a[..prefix] + Zeros(w - prefix), Zeros(prefix) + Ones(w - prefix))
        == a[..prefix] + Ones(w - prefix);
  }

  /** The numbers behind the network and broadcast addresses: with `high` the value of the
      leading `prefix` bits and `low` that of the host bits, the address is
      high * 2^(w - prefix) + low, the network high * 2^(w - prefix), and the broadcast
      high * 2^(w - prefix) + 2^(w - prefix) - 1. */
  lemma {:induction false} NetworkSplit(address: nat, prefix: nat, w: nat) returns (high: nat, low: nat)
    requires prefix <= w && address < Pow2(w)
    ensures low < Pow2(w - prefix)
    ensures address == high * Pow2(w - prefix) + low
    ensures Network(address, prefix, w) == high * Pow2(w - prefix)
    ensures Broadcast(address, prefix, w) == high * Pow2(w - prefix) + Pow2(w - prefix) - 1
  {
    var a := ToBits(address, w);
    var hi, lo := a[..prefix], a[prefix..];
    high, low := FromBits(hi), FromBits(lo);
    assert a == hi + lo;
    FromToBits(address, w);
    FromBitsAppend(hi, lo);
    NetworkBits(address, prefix, w);
    ValueOfBits(Network(address, prefix, w), w, hi + Zeros(w - prefix));
    ValueOfBits(Broadcast(address, prefix, w), w, hi + Ones(w - prefix));
    FromBitsHighZeros(hi, w - prefix);
    FromBitsHighOnes(hi, w - prefix);
  }

  /** The broadcast lies 2^(w - prefix) - 1 above the network address, and the address lies
      between the two. */
  lemma {:induction false} NetworkBounds(address: nat, prefix: nat, w: nat)
    requires prefix <= w && address < Pow2(w)
    ensures Broadcast(address, prefix, w) == Network(address, prefix, w) + Pow2(w - prefix) - 1
    ensures Network(address, prefix, w) <= address <= Broadcast(address, prefix, w) < Pow2(w)
  {
    var high, low := NetworkSplit(address, prefix, w);
  }

  /** The network address is the address rounded down to a multiple of 2^(w - prefix). */
  lemma {:induction false} NetworkAligned(address: nat, prefix: nat, w: nat)
    requires prefix <= w && address < Pow2(w)
    ensures Network(address, prefix, w) == (address / Pow2(w - prefix)) * Pow2(w - prefix)
    ensures Network(address, prefix, w) % Pow2(w - prefix) == 0
  {
    var high, low := NetworkSplit(address, prefix, w);
    DivModUnique(address, Pow2(w - prefix), high, low);
    DivModUnique(Network(address, prefix, w), Pow2(w - prefix), high, 0);
  }

  /** The network address shares no bit with the wildcard. */
  lemma {:induction false} NetworkWildcardDisjoint(address: nat, prefix: nat, w: nat)
    requires prefix <= w && address < Pow2(w)
    ensures And(Network(address, prefix, w), Wildcard(prefix, w), w) == 0
  {
    var hi := ToBits(address, w)[..prefix];
    NetworkBits(address, prefix, w);
    MaskBits(prefix, w);
    AndBitsOf(Network(address, prefix, w), Wildcard(prefix, w), w,
      hi + Zeros(w - prefix), Zeros(prefix) + Ones(w - prefix));
    AndHighLow(hi, w - prefix);
    ValueOfBits(And(Network(address, prefix, w), Wildcard(prefix, w), w), w, Zeros(w));
    FromBitsZeros(w);
  }

  /** The host count is 2^(w - prefix) - 2, which is broadcast - network - 1. It is not
      clamped: a host route (prefix = w) reports -1 and a point-to-point prefix reports 0. */
  lemma {:induction false} HostCountValue(address: nat, prefix: nat, w: nat)
    requires prefix <= w && address < Pow2(w)
    ensures HostCount(address, prefix, w) == Pow2(w - prefix) - 2
    ensures HostCount(address, prefix, w)
         == Broadcast(address, prefix, w) - Network(address, prefix, w) - 1
    ensures prefix == w ==> HostCount(address, prefix, w) == -1
    ensures prefix + 1 == w ==> HostCount(address, prefix, w) == 0
  {
    NetworkBounds(address, prefix, w);
  }

  /** Every address whose leading `prefix` bits are those of `address` has the same network
      and broadcast; in particular the network and broadcast addresses themselves do. */
  lemma {:induction false} SameNetwork(address: nat, other: nat, prefix: nat, w: nat)
    requires prefix <= w && address < Pow2(w) && other < Pow2(w)
    requires ToBits(other, w)[..prefix] == ToBits(address, w)[..prefix]
    ensures Network(other, prefix, w) == Network(address, prefix, w)
    ensures Broadcast(other, prefix, w) == Broadcast(address, prefix, w)
  {
    NetworkBits(address, prefix, w);
    NetworkBits(other, prefix, w);
    ToBitsInjective(Network(other, prefix, w), Network(address, prefix, w), w);
    ToBitsInjective(Broadcast(other, prefix, w), Broadcast(address, prefix, w), w);
  }

  /** Clearing or setting the host bits again changes nothing. */
  lemma {:induction false} NetworkIdempotent(address: nat, prefix: nat, w: nat)
    requires prefix <= w && address < Pow2(w)
    ensures Network(Network(address, prefix, w), prefix, w) == Network(address, prefix, w)
    ensures Network(Broadcast(address, prefix, w), prefix, w) == Network(address, prefix, w)
    ensures Broadcast(Network(address, prefix, w), prefix, w) == Broadcast(address, prefix, w)
  {
    var net, bcast := Network(address, prefix, w), Broadcast(address, prefix, w);
    NetworkBits(address, prefix, w);
    var hi := ToBits(address, w)[..prefix];
    assert (hi + Zeros(w - prefix))[..prefix] == hi;
    assert (hi + Ones(w - prefix))[..prefix] == hi;
    SameNetwork(address, net, prefix, w);
    SameNetwork(address, bcast, prefix, w);
  }

  // ---------------------------------------------------------------------------
  // Host range

  /** The addresses strictly between the network and the broadcast address, in order. */
  function StandardHosts(network: nat, broadcast: nat): seq<nat>
  {
    seq(if network + 1 < broadcast then broadcast - network - 1 else 0, i => network + 1 + i)
  }

  /** What the library's host query returns: a one-shot iterator over addresses, or a plain
      list, which cannot be advanced without first being wrapped in an iterator. */
  datatype Hosts = Iterator(items: seq<nat>) | List(items: seq<nat>)

  /** The host collection the Python `ipaddress` module documents for a network of width w
      (`v4` tells whether it is a version 4 network):
      - prefix w: a list holding the single address;
      - prefix w - 1: an iterator over both addresses of the network;
      - otherwise, for version 4: an iterator from network + 1 to broadcast - 1;
      - otherwise, for version 6: an iterator from network + 1 up to the broadcast address
        itself, since only the network (Subnet-Router anycast) address is excluded. */
  function LibraryHosts(v4: bool, address: nat, prefix: nat, w: nat): Hosts
    requires prefix <= w && address < Pow2(w)
  {
    var net, bcast := Network(address, prefix, w), Broadcast(address, prefix, w);
    if prefix == w then List([net])
    else if prefix + 1 == w then Iterator([net, bcast])
    else if v4 then Iterator(StandardHosts(net, bcast))
    else Iterator(StandardHosts(net, bcast) + [bcast])
  }

  /** The Python exceptions the derivation can end in. */
  datatype Error =
    | StopIteration    // the first host is asked of an iterator that yields nothing (line 58)
    | NotEnoughValues  // the exhaustive search finds nothing after the first host (line 61)
    | NegativeAddress  // the fast path steps below address 0 (line 64)
    | NotAnIterator    // the first host is asked of a list rather than an iterator (line 58)
    | AttributeError   // the classifier asks for a property the network does not have (line 38)

  datatype HostRange = HostRange(first: nat, last: nat)

  /** The first and last host the program reports for what the host query returned (lines
      57-64): the first element; then either the element the drain ends on (exhaustive
      search) or the broadcast address minus one (fast path). */
  function HostRangeOf(hosts: Hosts, broadcast: nat, lastSearch: bool): Result<HostRange, Error>
  {
    if hosts.List? then Failure(NotAnIterator)
    else if |hosts.items| == 0 then Failure(StopIteration)
    else if lastSearch then
      if |hosts.items| == 1 then Failure(NotEnoughValues)
      else Success(HostRange(hosts.items[0], hosts.items[|hosts.items| - 1]))
    else if broadcast == 0 then Failure(NegativeAddress)
    else Success(HostRange(hosts.items[0], broadcast - 1))
  }

  /** Consumes the host query's result as the program does: one step for the first host,
      then (exhaustive search) a drain that keeps the last element it sees. */
  method FindHostRange(hosts: Hosts, broadcast: nat, lastSearch: bool)
    returns (r: Result<HostRange, Error>)
    ensures r == HostRangeOf(hosts, broadcast, lastSearch)
  {
    if hosts.List? {
      return Failure(NotAnIterator);
    }
    var items := hosts.items;
    var pos := 0;
    if pos == |items| {
      return Failure(StopIteration);
    }
    var first := items[pos];
    pos := pos + 1;
    if lastSearch {
      if pos == |items| {
        return Failure(NotEnoughValues);
      }
      var last := items[pos];
      pos := pos + 1;
      while pos < |items|
        invariant 2 <= pos <= |items|
        invariant last == items[pos - 1]
      {
        last := items[pos];
        pos := pos + 1;
      }
      return Success(HostRange(first, last));
    }
    if broadcast == 0 {
      return Failure(NegativeAddress);
    }
    return Success(HostRange(first, broadcast - 1));
  }

  /** When at least two addresses lie strictly between network and broadcast, an iterator
      over exactly those addresses makes both strategies report network + 1 to broadcast - 1. */
  lemma {:induction false} StandardHostRange(network: nat, broadcast: nat)
    requires network + 2 < broadcast
    ensures var hosts := StandardHosts(network, broadcast);
      && |hosts| == broadcast - network - 1
      && hosts[0] == network + 1 && hosts[|hosts| - 1] == broadcast - 1
      && HostRangeOf(Iterator(hosts), broadcast, true) == Success(HostRange(network + 1, broadcast - 1))
      && HostRangeOf(Iterator(hosts), broadcast, false) == HostRangeOf(Iterator(hosts), broadcast, true)
  {
  }

  /** For prefix <= w - 2 an iterator from network + 1 to broadcast - 1 yields host-count >= 2
      addresses, and the fast and exhaustive strategies report exactly that range. */
  lemma {:induction false} StrategiesAgree(address: nat, prefix: nat, w: nat)
    requires prefix + 2 <= w && address < Pow2(w)
    ensures var net, bcast := Network(address, prefix, w), Broadcast(address, prefix, w);
      var hosts := StandardHosts(net, bcast);
      && net + 2 < bcast
      && |hosts| == HostCount(address, prefix, w) >= 2
      && hosts[0] == net + 1 && hosts[|hosts| - 1] == bcast - 1
      && HostRangeOf(Iterator(hosts), bcast, true) == Success(HostRange(net + 1, bcast - 1))
      && HostRangeOf(Iterator(hosts), bcast, false) == HostRangeOf(Iterator(hosts), bcast, true)
  {
    NetworkBounds(address, prefix, w);
    HostCountValue(address, prefix, w);
    Pow2Monotone(2, w - prefix);
    assert Pow2(2) == 4;
    StandardHostRange(Network(address, prefix, w), Broadcast(address, prefix, w));
  }

  /** The fast path on any non-empty iterator at the two longest prefixes: at prefix w - 1 its
      last host is the network address itself, and at prefix w it is the address just below the
      network (or an error when the network is address 0). */
  lemma {:induction false} FastPathDegenerate(address: nat, prefix: nat, w: nat, hosts: seq<nat>)
    requires prefix <= w && w <= prefix + 1 && address < Pow2(w) && |hosts| > 0
    ensures var net, bcast := Network(address, prefix, w), Broadcast(address, prefix, w);
      && (prefix + 1 == w ==> HostRangeOf(Iterator(hosts), bcast, false) == Success(HostRange(hosts[0], net)))
      && (prefix == w && address > 0 ==>
            net == address && HostRangeOf(Iterator(hosts), bcast, false) == Success(HostRange(hosts[0], net - 1)))
      && (prefix == w && address == 0 ==> HostRangeOf(Iterator(hosts), bcast, false) == Failure(NegativeAddress))
  {
    NetworkBounds(address, prefix, w);
    assert Pow2(1) == 2;
    if prefix == w {
      DivModUnique(address, 1, address, 0);
    }
  }

  /** The host ranges of the three shapes of iterator the library hands out, for any network
      and broadcast address with at least two addresses strictly between them. */
  lemma {:induction false} IteratorRanges(network: nat, broadcast: nat, lastSearch: bool)
    requires network + 2 < broadcast
    ensures HostRangeOf(Iterator(StandardHosts(network, broadcast)), broadcast, lastSearch)
         == Success(HostRange(network + 1, broadcast - 1))
    ensures HostRangeOf(Iterator(StandardHosts(network, broadcast) + [broadcast]), broadcast, lastSearch)
         == Success(HostRange(network + 1, if lastSearch then broadcast else broadcast - 1))
  {
    StandardHostRange(network, broadcast);
    var all := StandardHosts(network, broadcast) + [broadcast];
    assert all[0] == network + 1 && all[|all| - 1] == broadcast;
  }

  /** The host range the program reports for the host collection the library documents:
      - prefix w: no range at all, since the first host is asked of a list;
      - prefix w - 1: from the network address, to the broadcast address (exhaustive) or to the
        network address again (fast);
      - shorter prefixes, version 4: network + 1 to broadcast - 1 on both paths;
      - shorter prefixes, version 6: from network + 1, to the broadcast address (exhaustive) or
        to the address just below it (fast). */
  lemma {:induction false} LibraryHostRange(v4: bool, address: nat, prefix: nat, w: nat, lastSearch: bool)
    requires prefix <= w && address < Pow2(w)
    ensures var net, bcast := Network(address, prefix, w), Broadcast(address, prefix, w);
      var r := HostRangeOf(LibraryHosts(v4, address, prefix, w), bcast, lastSearch);
      && (prefix == w ==> r == Failure(NotAnIterator))
      && (prefix + 1 == w ==> r == Success(HostRange(net, if lastSearch then bcast else net)))
      && (prefix + 2 <= w ==> r.Success? && r.value.first == net + 1)
      && (prefix + 2 <= w && v4 ==> r.value.last + 1 == bcast)
      && (prefix + 2 <= w && !v4 ==> r.value.last + (if lastSearch then 0 else 1) == bcast)
  {
    var net, bcast := Network(address, prefix, w), Broadcast(address, prefix, w);
    NetworkBounds(address, prefix, w);
    if prefix + 1 == w {
      assert Pow2(1) == 2;
    } else if prefix + 2 <= w {
      StrategiesAgree(address, prefix, w);
      IteratorRanges(net, bcast, lastSearch);
    }
  }

  /** The fast path misses the last host of the documented host collection at prefix w - 1 and,
      for version 6, at every shorter prefix: it reports the address just below the one the
      drain ends on. */
  lemma {:induction false} FastPathMissesLastHost(v4: bool, address: nat, prefix: nat, w: nat)
    requires address < Pow2(w) && (prefix + 1 == w || (!v4 && prefix + 2 <= w))
    ensures var bcast := Broadcast(address, prefix, w);
      var hosts := LibraryHosts(v4, address, prefix, w);
      var fast, full := HostRangeOf(hosts, bcast, false), HostRangeOf(hosts, bcast, true);
      && fast.Success? && full.Success?
      && fast.value.first == full.value.first
      && fast.value.last + 1 == full.value.last
  {
    LibraryHostRange(v4, address, prefix, w, false);
    LibraryHostRange(v4, address, prefix, w, true);
    NetworkBounds(address, prefix, w);
    if prefix + 1 == w {
      assert Pow2(1) == 2;
    }
  }

  /** The documented host collection is never empty; its last element is broadcast - 1 for
      version 4 with at least two host bits, and the broadcast address otherwise. */
  lemma {:induction false} LibraryHostsLast(v4: bool, address: nat, prefix: nat, w: nat)
    requires prefix <= w && address < Pow2(w)
    ensures var bcast := Broadcast(address, prefix, w);
      var hs := LibraryHosts(v4, address, prefix, w).items;
      && |hs| > 0
      && hs[|hs| - 1] == if v4 && prefix + 2 <= w then bcast - 1 else bcast
  {
    NetworkBounds(address, prefix, w);
    if prefix + 2 <= w {
      StrategiesAgree(address, prefix, w);
    }
  }

  /** The last host the fast path evidently means to report without draining: the last element
      of the documented host collection, which the drain ends on whenever there is an iterator
      to drain. It is broadcast - 1 only for version 4 with at least two host bits, and the
      broadcast address otherwise. */
  function IntendedLastHost(v4: bool, address: nat, prefix: nat, w: nat): (r: nat)
    requires prefix <= w && address < Pow2(w)
    ensures var hs := LibraryHosts(v4, address, prefix, w).items; |hs| > 0 && r == hs[|hs| - 1]
    ensures prefix < w ==>
      var hosts := LibraryHosts(v4, address, prefix, w);
      HostRangeOf(hosts, Broadcast(address, prefix, w), true) == Success(HostRange(hosts.items[0], r))
  {
    var bcast := Broadcast(address, prefix, w);
    LibraryHostsLast(v4, address, prefix, w);
    LibraryHostRange(v4, address, prefix, w, true);
    if v4 && prefix + 2 <= w then bcast - 1 else bcast
  }

  // ---------------------------------------------------------------------------
  // Classification

  /** The classification labels in the order they are tried (line 8). */
  const TYPES: seq<string> :=
    ["global", "private", "link-local", "loopback", "multicast", "reserved", "unspecified"]

  /** The names of the predicate properties a network object of the address library has. */
  const PROPERTIES: set<string> :=
    {"is_global", "is_private", "is_link_local", "is_loopback", "is_multicast",
     "is_reserved", "is_unspecified", "is_site_local"}

  /** The property name the program asks for (line 38): "is_" followed by the label as is. */
  function PropertyAsWritten(t: string): string
  {
    "is_" + t
  }

  /** The property name a label evidently stands for: "is_" followed by the label with its
      hyphens read as underscores. */
  function PropertyIntended(t: string): string
  {
    "is_" + Substitute(t, '-', '_')
  }

  /** Asking the network for a property by name: its value, `holds(name)`, when the network
      has that property, and an AttributeError otherwise. */
  function Lookup(name: string, holds: string -> bool): Result<bool, Error>
  {
    if name in PROPERTIES then Success(holds(name)) else Failure(AttributeError)
  }

  /** The first-match search over `types`, asking for the property `property(t)` of each label:
      the first label whose property holds, none when no property holds, or the error of the
      first lookup that fails. */
  function Classify(types: seq<string>, property: string -> string, holds: string -> bool): Result<Option<string>, Error>
  {
    if types == [] then Success(None)
    else
      match Lookup(property(types[0]), holds)
      case Failure(e) => Failure(e)
      case Success(b) => if b then Success(Some(types[0])) else Classify(types[1..], property, holds)
  }

  /** The classifier as the program runs it (lines 33-39): the labels in order, each looked
      up by its name as written. Only "global" and "private" can come out; every network for
      which neither holds ends in an AttributeError at the "link-local" lookup. */
  method GetType(holds: string -> bool) returns (r: Result<Option<string>, Error>)
    ensures r == Classify(TYPES, PropertyAsWritten, holds)
    ensures r == if holds("is_global") then Success(Some("global"))
                 else if holds("is_private") then Success(Some("private"))
                 else Failure(AttributeError)
  {
    ClassifyAsWritten(holds);
    for k := 0 to |TYPES|
      invariant Classify(TYPES[k..], PropertyAsWritten, holds) == Classify(TYPES, PropertyAsWritten, holds)
    {
      assert TYPES[k..][1..] == TYPES[k + 1..];
      var found := Lookup(PropertyAsWritten(TYPES[k]), holds);
      if found.Failure? {
        return Failure(found.error);
      }
      if found.value {
        return Success(Some(TYPES[k]));
      }
    }
    return Success(None);
  }

  /** With the names as written, the third lookup asks for a property no network has, so the
      outcome is decided by the first two properties alone. */
  lemma {:induction false} ClassifyAsWritten(holds: string -> bool)
    ensures Classify(TYPES, PropertyAsWritten, holds)
         == if holds("is_global") then Success(Some("global"))
            else if holds("is_private") then Success(Some("private"))
            else Failure(AttributeError)
  {
    var t := TYPES;
    assert PropertyAsWritten(t[0]) == "is_global";
    assert PropertyAsWritten(t[1]) == "is_private";
    assert PropertyAsWritten(t[2]) == "is_link-local";
    assert "is_link-local" !in PROPERTIES by {
      assert "is_link-local"[7] == '-';
    }
    assert t[1..][1..] == t[2..];
    assert t[1..][0] == t[1] && t[2..][0] == t[2];
  }

  /** A network that is neither global nor private nor of any other type (such as one in the
      shared address space 100.64.0.0/10): the program ends in an AttributeError where the
      evidently intended lookup reports no type. */
  lemma NoTypeCounterexample()
    ensures Classify(TYPES, PropertyAsWritten, _ => false) == Failure(AttributeError)
    ensures Classify(TYPES, PropertyIntended, _ => false) == Success(None)
  {
    ClassifyAsWritten(_ => false);
    IntendedClassification(_ => false);
  }

  /** The first-match rule, when every lookup succeeds: the result is the label at the least
      index whose property holds, and there is none exactly when no property holds. */
  lemma {:induction false} ClassifySpec(types: seq<string>, property: string -> string, holds: string -> bool)
    requires forall i :: 0 <= i < |types| ==> property(types[i]) in PROPERTIES
    ensures Classify(types, property, holds).Success?
    ensures Classify(types, property, holds).value.None? <==>
      forall i :: 0 <= i < |types| ==> !holds(property(types[i]))
    ensures Classify(types, property, holds).value.Some? ==>
      exists i :: 0 <= i < |types| && Classify(types, property, holds).value.value == types[i]
        && holds(property(types[i])) && forall j :: 0 <= j < i ==> !holds(property(types[j]))
  {
    if types != [] && !holds(property(types[0])) {
      var rest := types[1..];
      assert forall i :: 0 <= i < |rest| ==> property(rest[i]) in PROPERTIES by {
        forall i | 0 <= i < |rest| ensures property(rest[i]) in PROPERTIES {
          assert rest[i] == types[i + 1];
        }
      }
      ClassifySpec(rest, property, holds);
      var r := Classify(types, property, holds);
      assert r == Classify(rest, property, holds);
      if r.value.None? {
        forall i | 0 <= i < |types| ensures !holds(property(types[i])) {
          if i > 0 { assert types[i] == rest[i - 1]; }
        }
      } else {
        var i :| 0 <= i < |rest| && r.value.value == rest[i]
          && holds(property(rest[i])) && forall j :: 0 <= j < i ==> !holds(property(rest[j]));
        assert types[i + 1] == rest[i];
        forall j | 0 <= j < i + 1 ensures !holds(property(types[j])) {
          if j > 0 { assert types[j] == rest[j - 1]; }
        }
      }
      if forall i :: 0 <= i < |types| ==> !holds(property(types[i])) {
        forall i | 0 <= i < |rest| ensures !holds(property(rest[i])) {
          assert rest[i] == types[i + 1];
        }
      }
    }
  }

  /** The label depends only on the values of the properties the labels name. */
  lemma {:induction false} ClassifyDeterministic(types: seq<string>, property: string -> string, h1: string -> bool, h2: string -> bool)
    requires forall i :: 0 <= i < |types| ==> h1(property(types[i])) == h2(property(types[i]))
    ensures Classify(types, property, h1) == Classify(types, property, h2)
  {
    if types != [] {
      var rest := types[1..];
      forall i | 0 <= i < |rest| ensures h1(property(rest[i])) == h2(property(rest[i])) {
        assert rest[i] == types[i + 1];
      }
      ClassifyDeterministic(rest, property, h1, h2);
    }
  }

  /** With the evidently intended property names every lookup succeeds, and the classifier
      returns the first label whose property holds, or none when no property holds. */
  lemma IntendedClassification(holds: string -> bool)
    ensures var r := Classify(TYPES, PropertyIntended, holds);
      && r.Success?
      && (r.value.None? <==> forall i :: 0 <= i < |TYPES| ==> !holds(PropertyIntended(TYPES[i])))
      && (r.value.Some? ==>
            exists i :: 0 <= i < |TYPES| && r.value.value == TYPES[i]
              && holds(PropertyIntended(TYPES[i])) && forall j :: 0 <= j < i ==> !holds(PropertyIntended(TYPES[j])))
  {
    IntendedNamesExist();
    ClassifySpec(TYPES, PropertyIntended, holds);
  }

  /** Every label names, once its hyphens are read as underscores, a property networks have. */
  lemma IntendedNamesExist()
    ensures forall i :: 0 <= i < |TYPES| ==> PropertyIntended(TYPES[i]) in PROPERTIES
  {
    IntendedNamesFirst();
    IntendedNamesLast();
  }

  /** The first three labels, the third with its hyphen read as an underscore. */
  lemma IntendedNamesFirst()
    ensures PropertyIntended(TYPES[0]) == "is_global"
    ensures PropertyIntended(TYPES[1]) == "is_private"
    ensures PropertyIntended(TYPES[2]) == "is_link_local"
  {
    var t := TYPES;
    SubstituteAbsent(t[0], '-', '_');
    SubstituteAbsent(t[1], '-', '_');
    assert Substitute(t[2], '-', '_') == "link_local";
  }

  /** The last four labels, which have no hyphen. */
  lemma IntendedNamesLast()
    ensures PropertyIntended(TYPES[3]) == "is_loopback"
    ensures PropertyIntended(TYPES[4]) == "is_multicast"
    ensures PropertyIntended(TYPES[5]) == "is_reserved"
    ensures PropertyIntended(TYPES[6]) == "is_unspecified"
  {
    var t := TYPES;
    SubstituteAbsent(t[3], '-', '_');
    SubstituteAbsent(t[4], '-', '_');
    SubstituteAbsent(t[5], '-', '_');
    SubstituteAbsent(t[6], '-', '_');
  }

  // ---------------------------------------------------------------------------
  // The whole derivation

  /** A parsed address with prefix: its version (4 or 6), its value and its prefix length. */
  datatype Interface = Interface(version: nat, address: nat, prefix: nat)

  /** What the address library guarantees of a parsed interface. */
  predicate ValidInterface(ip: Interface)
  {
    && (ip.version == 4 || ip.version == 6)
    && ip.address < Pow2(Width(ip.version))
    && ip.prefix <= Width(ip.version)
  }

  /** Every value the program reports, with the binary rendering of each address. */
  datatype Report = Report(
    width: nat,
    address: nat, netmask: nat, wildcard: nat,
    network: nat, broadcast: nat, prefix: nat,
    hostMin: nat, hostMax: nat, hostCount: int, kind: Option<string>,
    addressBinary: string, netmaskBinary: string, wildcardBinary: string,
    networkBinary: string, broadcastBinary: string,
    hostMinBinary: string, hostMaxBinary: string)

  /** What the program does with the host collection the library documents: it reports a
      result exactly when the prefix leaves at least one host bit and the network is global or
      private; for version 4 with at least two host bits the hosts run from network + 1 to
      broadcast - 1. */
  lemma LibraryOutcome(v4: bool, address: nat, prefix: nat, w: nat, lastSearch: bool, holds: string -> bool)
    requires prefix <= w && address < Pow2(w)
    ensures var net, bcast := Network(address, prefix, w), Broadcast(address, prefix, w);
      var range := HostRangeOf(LibraryHosts(v4, address, prefix, w), bcast, lastSearch);
      var kind := Classify(TYPES, PropertyAsWritten, holds);
      && (range.Success? && kind.Success? <==> prefix < w && (holds("is_global") || holds("is_private")))
      && (range.Success? && prefix + 2 <= w && v4 ==>
            range.value.first == net + 1 && range.value.last + 1 == bcast)
  {
    LibraryHostRange(v4, address, prefix, w, lastSearch);
    ClassifyAsWritten(holds);
  }

  /** The derivation the program runs (lines 42-79): choose the width from the version, then
      compute every reported value. `hosts` is what the library's host query returns for the
      network and `holds(name)` the network's predicate property `name`. A failure of the
      host range comes first; the classification runs last. What this gives for the host
      collection the library documents is stated by `LibraryOutcome`. */
  method Calculate(ip: Interface, hosts: Hosts, lastSearch: bool, holds: string -> bool)
    returns (r: Result<Report, Error>)
    requires ValidInterface(ip)
    ensures var w := Width(ip.version);
      var net, bcast := Network(ip.address, ip.prefix, w), Broadcast(ip.address, ip.prefix, w);
      var range := HostRangeOf(hosts, bcast, lastSearch);
      var kind := Classify(TYPES, PropertyAsWritten, holds);
      && (r.Failure? <==> range.Failure? || kind.Failure?)
      && (range.Failure? ==> r == Failure(range.error))
      && (range.Success? && kind.Failure? ==> r == Failure(kind.error))
      && (r.Success? ==> r.value == Report(
            w, ip.address, Netmask(ip.prefix, w), Wildcard(ip.prefix, w),
            net, bcast, ip.prefix,
            range.value.first, range.value.last, HostCount(ip.address, ip.prefix, w),
            kind.value,
            BinaryStringRep(ip.address, w), BinaryStringRep(Netmask(ip.prefix, w), w),
            BinaryStringRep(Wildcard(ip.prefix, w), w),
            BinaryStringRep(net, w), BinaryStringRep(bcast, w),
            BinaryStringRep(range.value.first, w), BinaryStringRep(range.value.last, w)))
  {
    var w := Width(ip.version);
    var addressBinary := BinaryStringRep(ip.address, w);
    var netmask := Netmask(ip.prefix, w);
    var wildcard := Wildcard(ip.prefix, w);
    var netmaskBinary := BinaryStringRep(netmask, w);
    var wildcardBinary := BinaryStringRep(wildcard, w);

    var network := Network(ip.address, ip.prefix, w);
    var broadcast := Broadcast(ip.address, ip.prefix, w);
    var networkBinary := BinaryStringRep(network, w);
    var broadcastBinary := BinaryStringRep(broadcast, w);
    var range := FindHostRange(hosts, broadcast, lastSearch);
    if range.Failure? {
      r := Failure(range.error);
    } else {
      var hostMinBinary := BinaryStringRep(range.value.first, w);
      var hostMaxBinary := BinaryStringRep(range.value.last, w);
      var kind := GetType(holds);
      if kind.Failure? {
        r := Failure(kind.error);
      } else {
        r := Success(Report(
          w, ip.address, netmask, wildcard, network, broadcast, ip.prefix,
          range.value.first, range.value.last, HostCount(ip.address, ip.prefix, w), kind.value,
          addressBinary, netmaskBinary, wildcardBinary, networkBinary, broadcastBinary,
          hostMinBinary, hostMaxBinary));
      }
    }
  }
}
