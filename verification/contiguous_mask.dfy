/** What `calcNet` and `getCidr` give for a contiguous subnet mask: `p`
    leading 1-bits in network order, followed by 32 - p 0-bits, stored in
    an `in_addr` in host order like every other address.
 */
module ContiguousMask {
  import opened ByteOrder
  import opened BitCount
  import opened Calciprog

  /** The host-order `s_addr` of the prefix-length-`p` mask on a host of
      byte order `e`: what `inet_pton` makes of a mask such as
      255.255.255.0. */
  function PrefixMask(e: Endian, p: bv32): (m: bv32)
    requires p <= 32
    ensures Swap(e, m) == PrefixValue(p)
  {
    SwapInvolution(e, PrefixValue(p));
    Swap(e, PrefixValue(p))
  }

  /** The network-order network id is the network id of the network-order
      address under the network-order mask. */
  lemma NetIdInNetworkOrder(e: Endian, address: bv32, mask: bv32)
    ensures Swap(e, NetId(address, Swap(e, mask))) == NetId(Swap(e, address), mask)
  {
    match e
    case LittleEndian =>
    case BigEndian =>
  }

  /** The network-order wildcard is the wildcard of the network-order
      mask. */
  lemma WildcardInNetworkOrder(e: Endian, mask: bv32)
    ensures Swap(e, Wildcard(Swap(e, mask))) == Wildcard(mask)
  {
    match e
    case LittleEndian =>
    case BigEndian =>
  }

  /** The network-order broadcast is the broadcast of the network-order
      network id and wildcard. */
  lemma BroadcastInNetworkOrder(e: Endian, netid: bv32, wildcard: bv32)
    ensures Swap(e, Broadcast(netid, wildcard)) == Broadcast(Swap(e, netid), Swap(e, wildcard))
  {
    match e
    case LittleEndian =>
    case BigEndian =>
  }

  /** Two addresses whose network-order values lie in the same network
      under the network-order mask lie in the same network. */
  lemma SameNetworkInNetworkOrder(e: Endian, x: bv32, y: bv32, mask: bv32)
    requires SameNetwork(Swap(e, x), Swap(e, y), mask)
    ensures SameNetwork(x, y, Swap(e, mask))
  {
    match e
    case LittleEndian =>
    case BigEndian =>
  }

  /** Under a contiguous mask, `calcNet`'s network id read in network order
      is the network id of the network-order address. */
  lemma NetIdOfPrefix(e: Endian, netdata: IpNet, p: bv32)
    requires p <= 32 && netdata.netmask == PrefixMask(e, p)
    ensures Swap(e, CalcNet(e, netdata).1.netid) == NetId(Swap(e, netdata.netid), PrefixValue(p))
  {
    NetIdInNetworkOrder(e, netdata.netid, PrefixValue(p));
  }

  /** Under a contiguous mask, `calcNet`'s broadcast read in network order
      is the broadcast of the network-order address. */
  lemma BroadcastOfPrefix(e: Endian, netdata: IpNet, p: bv32)
    requires p <= 32 && netdata.netmask == PrefixMask(e, p)
    ensures Swap(e, CalcNet(e, netdata).1.broadcast)
         == Broadcast(NetId(Swap(e, netdata.netid), PrefixValue(p)), Wildcard(PrefixValue(p)))
  {
    NetIdOfPrefix(e, netdata, p);
    WildcardInNetworkOrder(e, PrefixValue(p));
    BroadcastInNetworkOrder(e, CalcNet(e, netdata).1.netid, CalcNet(e, netdata).1.wildcard);
  }

  /** Under a contiguous mask, `calcNet`'s host-min read in network order
      is one above the network-order network id. */
  lemma HostMinOfPrefix(e: Endian, netdata: IpNet, p: bv32)
    requires p <= 32 && netdata.netmask == PrefixMask(e, p)
    ensures Swap(e, CalcNet(e, netdata).1.hostmin) == NetId(Swap(e, netdata.netid), PrefixValue(p)) + 1
  {
    HostMinField(e, netdata);
    NetIdOfPrefix(e, netdata, p);
  }

  /** Under a contiguous mask, `calcNet`'s host-max read in network order
      is one below the network-order broadcast. */
  lemma HostMaxOfPrefix(e: Endian, netdata: IpNet, p: bv32)
    requires p <= 32 && netdata.netmask == PrefixMask(e, p)
    ensures Swap(e, CalcNet(e, netdata).1.hostmax)
         == Broadcast(NetId(Swap(e, netdata.netid), PrefixValue(p)), Wildcard(PrefixValue(p))) - 1
  {
    HostMaxField(e, netdata);
    BroadcastOfPrefix(e, netdata, p);
  }

  /** The wildcard of a prefix-length-`p` mask, in network order, is
      2^(32 - p) - 1, so one less than it is 2^(32 - p) - 2. */
  lemma PrefixWildcard(p: bv32)
    requires p <= 32
    ensures Wildcard(PrefixValue(p)) - 1 == (1 << (32 - p)) - 2
  {
  }

  /** For a contiguous mask of prefix length `p`, `calcNet` reports
      2^(32 - p) - 2 hosts on either kind of host, modulo 2^32: 254 for
      /24, 2 for /30, 0 for /31 and 0xFFFF_FFFF for /32. */
  lemma PrefixHosts(e: Endian, netdata: IpNet, p: bv32)
    requires p <= 32 && netdata.netmask == PrefixMask(e, p)
    ensures CalcNet(e, netdata).1.hosts == (1 << (32 - p)) - 2
  {
    HostsField(e, netdata);
    PrefixWildcard(p);
  }

  /** In network order, for a prefix of length at most 30, the network id
      is below the address after it. */
  lemma NetIdBelowSucc(address: bv32, p: bv32)
    requires p <= 30
    ensures NetId(address, PrefixValue(p)) < NetId(address, PrefixValue(p)) + 1
  {
  }

  /** In network order, for a prefix of length at most 30, the address
      after the network id is below the address before the broadcast. */
  lemma SuccBelowPred(address: bv32, p: bv32)
    requires p <= 30
    ensures NetId(address, PrefixValue(p)) + 1
          < Broadcast(NetId(address, PrefixValue(p)), Wildcard(PrefixValue(p))) - 1
  {
    PrefixLowBits(p);
    SuccBelowPredMask(address, PrefixValue(p));
  }

  /** A prefix of length at most 30 leaves the two lowest bits to the
      hosts. */
  lemma PrefixLowBits(p: bv32)
    requires p <= 30
    ensures PrefixValue(p) & 3 == 0
  {
  }

  /** Under any mask that leaves the two lowest bits to the hosts, the
      address after the network id is below the address before the
      broadcast. The steps below state their hypotheses as implications,
      so that this proof has a single obligation. */
  lemma SuccBelowPredMask(address: bv32, mask: bv32)
    requires mask & 3 == 0
    ensures NetId(address, mask) + 1 < Broadcast(NetId(address, mask), Wildcard(mask)) - 1
  {
    NetIdLowBits(address, mask);
    BroadcastOdd(NetId(address, mask), mask);
    BroadcastCoversBitOne(NetId(address, mask), mask);
    SuccBelowPredBits(NetId(address, mask), Broadcast(NetId(address, mask), Wildcard(mask)));
  }

  lemma NetIdLowBits(address: bv32, mask: bv32)
    ensures mask & 3 == 0 ==> NetId(address, mask) & 3 == 0
  {
  }

  lemma BroadcastOdd(netid: bv32, mask: bv32)
    ensures mask & 3 == 0 ==> Broadcast(netid, Wildcard(mask)) & 1 == 1
  {
  }

  lemma BroadcastCoversBitOne(netid: bv32, mask: bv32)
    ensures mask & 3 == 0 && netid & 3 == 0
        ==> (netid | 2) & (Broadcast(netid, Wildcard(mask)) & !1) == netid | 2
  {
  }

  /** A value `n` with its two lowest bits clear and a value `b` with bit
      0 set that, apart from bit 0, has all the 1-bits of `n` and bit 1:
      the successor of `n` is below the predecessor of `b`. */
  lemma SuccBelowPredBits(n: bv32, b: bv32)
    ensures n & 3 == 0 && b & 1 == 1 && (n | 2) & (b & !1) == n | 2 ==> n + 1 < b - 1
  {
    IncrementSetsBit(n);
    DecrementClearsBit(b);
    BelowByBits(n, b & !1);
  }

  /** Adding one to a multiple of four sets its lowest bit. */
  lemma IncrementSetsBit(x: bv32)
    ensures x & 3 == 0 ==> x + 1 == x | 1
  {
  }

  /** Subtracting one from an odd value clears its lowest bit. */
  lemma DecrementClearsBit(x: bv32)
    ensures x & 1 == 1 ==> x - 1 == x & !1
  {
  }

  /** A value whose two lowest bits are clear, with bit 0 set, is below
      any value that has all its 1-bits and bit 1 as well. */
  lemma BelowByBits(x: bv32, y: bv32)
    ensures x & 3 == 0 && (x | 2) & y == x | 2 ==> x | 1 < y
  {
  }

  /** In network order, for a prefix of length at most 30, the address
      before the broadcast is below the broadcast. */
  lemma PredBelowBroadcast(address: bv32, p: bv32)
    requires p <= 30
    ensures Broadcast(NetId(address, PrefixValue(p)), Wildcard(PrefixValue(p))) - 1
          < Broadcast(NetId(address, PrefixValue(p)), Wildcard(PrefixValue(p)))
  {
  }

  lemma NetIdBelowHostMin(e: Endian, netdata: IpNet, p: bv32)
    requires p <= 30 && netdata.netmask == PrefixMask(e, p)
    ensures Swap(e, CalcNet(e, netdata).1.netid) < Swap(e, CalcNet(e, netdata).1.hostmin)
  {
    HostMinOfPrefix(e, netdata, p);
    NetIdOfPrefix(e, netdata, p);
    NetIdBelowSucc(Swap(e, netdata.netid), p);
  }

  lemma HostMinBelowHostMax(e: Endian, netdata: IpNet, p: bv32)
    requires p <= 30 && netdata.netmask == PrefixMask(e, p)
    ensures Swap(e, CalcNet(e, netdata).1.hostmin) < Swap(e, CalcNet(e, netdata).1.hostmax)
  {
    HostMinOfPrefix(e, netdata, p);
    HostMaxOfPrefix(e, netdata, p);
    SuccBelowPred(Swap(e, netdata.netid), p);
  }

  lemma HostMaxBelowBroadcast(e: Endian, netdata: IpNet, p: bv32)
    requires p <= 30 && netdata.netmask == PrefixMask(e, p)
    ensures Swap(e, CalcNet(e, netdata).1.hostmax) < Swap(e, CalcNet(e, netdata).1.broadcast)
  {
    HostMaxOfPrefix(e, netdata, p);
    BroadcastOfPrefix(e, netdata, p);
    PredBelowBroadcast(Swap(e, netdata.netid), p);
  }

  /** For a contiguous mask of prefix length at most 30, in network order
      the network id, host-min, host-max and the broadcast are strictly
      increasing, on either kind of host. */
  lemma PrefixHostOrder(e: Endian, netdata: IpNet, p: bv32)
    requires p <= 30 && netdata.netmask == PrefixMask(e, p)
    ensures Swap(e, CalcNet(e, netdata).1.netid) < Swap(e, CalcNet(e, netdata).1.hostmin)
          < Swap(e, CalcNet(e, netdata).1.hostmax) < Swap(e, CalcNet(e, netdata).1.broadcast)
  {
    NetIdBelowHostMin(e, netdata, p);
    HostMinBelowHostMax(e, netdata, p);
    HostMaxBelowBroadcast(e, netdata, p);
  }

  /** In network order, for a prefix of length at most 30, the address
      after the network id is still in the network. */
  lemma SuccInNetwork(address: bv32, p: bv32)
    requires p <= 30
    ensures SameNetwork(NetId(address, PrefixValue(p)) + 1, address, PrefixValue(p))
  {
  }

  /** In network order, for a prefix of length at most 30, the address
      before the broadcast is still in the network. */
  lemma PredInNetwork(address: bv32, p: bv32)
    requires p <= 30
    ensures SameNetwork(Broadcast(NetId(address, PrefixValue(p)), Wildcard(PrefixValue(p))) - 1, address, PrefixValue(p))
  {
  }

  /** For a contiguous mask of prefix length at most 30, host-min lies in
      the network of the address. */
  lemma HostMinInNetwork(e: Endian, netdata: IpNet, p: bv32)
    requires p <= 30 && netdata.netmask == PrefixMask(e, p)
    ensures SameNetwork(CalcNet(e, netdata).1.hostmin, netdata.netid, netdata.netmask)
  {
    HostMinOfPrefix(e, netdata, p);
    SuccInNetwork(Swap(e, netdata.netid), p);
    SameNetworkInNetworkOrder(e, CalcNet(e, netdata).1.hostmin, netdata.netid, PrefixValue(p));
  }

  /** For a contiguous mask of prefix length at most 30, host-max lies in
      the network of the address. */
  lemma HostMaxInNetwork(e: Endian, netdata: IpNet, p: bv32)
    requires p <= 30 && netdata.netmask == PrefixMask(e, p)
    ensures SameNetwork(CalcNet(e, netdata).1.hostmax, netdata.netid, netdata.netmask)
  {
    HostMaxOfPrefix(e, netdata, p);
    PredInNetwork(Swap(e, netdata.netid), p);
    SameNetworkInNetworkOrder(e, CalcNet(e, netdata).1.hostmax, netdata.netid, PrefixValue(p));
  }

  /** In network order, for a prefix of length at most 30, the addresses
      from the one after the network id to the one before the broadcast
      number exactly the wildcard less one. */
  lemma RangeSize(address: bv32, p: bv32)
    requires p <= 30
    ensures (Broadcast(NetId(address, PrefixValue(p)), Wildcard(PrefixValue(p))) - 1)
          - (NetId(address, PrefixValue(p)) + 1) + 1 == Wildcard(PrefixValue(p)) - 1
  {
  }

  /** Under a contiguous mask of prefix length at most 30, the addresses
      from host-min to host-max, in network order, number the
      network-order wildcard less one. */
  lemma HostSpan(e: Endian, netdata: IpNet, p: bv32)
    requires p <= 30 && netdata.netmask == PrefixMask(e, p)
    ensures Swap(e, CalcNet(e, netdata).1.hostmax) - Swap(e, CalcNet(e, netdata).1.hostmin) + 1
         == Wildcard(PrefixValue(p)) - 1
  {
    HostMinOfPrefix(e, netdata, p);
    HostMaxOfPrefix(e, netdata, p);
    RangeSize(Swap(e, netdata.netid), p);
  }

  /** For a contiguous mask of prefix length at most 30, the host count is
      the number of addresses from host-min to host-max in network order. */
  lemma HostsCountRange(e: Endian, netdata: IpNet, p: bv32)
    requires p <= 30 && netdata.netmask == PrefixMask(e, p)
    ensures CalcNet(e, netdata).1.hosts
         == Swap(e, CalcNet(e, netdata).1.hostmax) - Swap(e, CalcNet(e, netdata).1.hostmin) + 1
  {
    HostsField(e, netdata);
    HostSpan(e, netdata, p);
  }

  /** The prefix length of a contiguous mask of length `p`, stored in host
      order on either kind of host, is `p`: what `getCidr` returns for it. */
  lemma CidrOfPrefix(e: Endian, p: bv32)
    requires p <= 32
    ensures Popcount(PrefixMask(e, p)) == p as int
  {
    PopcountSwap(e, PrefixValue(p));
    PopcountPrefix(p);
  }
}
