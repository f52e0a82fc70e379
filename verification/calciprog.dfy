/** The subnet arithmetic of calciprog: `calcNet` and `getCidr`.

    Every address field holds an `s_addr`, the 32-bit value a host of byte
    order `e` reads from the four memory bytes of an `in_addr`. Bitwise
    operations act on those values directly; increments and decrements go
    through `Swap` (`htonl`/`ntohl`) so that they act on the network-order
    value, whose least significant byte is the last octet.
 */
module Calciprog {
  import opened ByteOrder
  import opened BitCount

  /** The `ipnet` record that `calcNet` fills in. `hosts` is an
      `unsigned int`, taken here to be 32 bits wide. */
  datatype IpNet = IpNet(
    hosts: bv32,
    netmask: bv32,
    netid: bv32,
    hostmin: bv32,
    hostmax: bv32,
    broadcast: bv32,
    wildcard: bv32)

  /** `x` and `y` lie in the same network under `mask`: they agree on
      every network bit. */
  predicate SameNetwork(x: bv32, y: bv32, mask: bv32)
  {
    x & mask == y & mask
  }

  /** The network id: the address with every host bit cleared. */
  function NetId(address: bv32, mask: bv32): (n: bv32)
    ensures n & !mask == 0
    ensures SameNetwork(n, address, mask)
  {
    address & mask
  }

  /** The wildcard: the bitwise complement of the mask. */
  function Wildcard(mask: bv32): (w: bv32)
    ensures w & mask == 0
    ensures w | mask == 0xFFFF_FFFF
  {
    !mask
  }

  /** The broadcast address: the network id with every wildcard bit set
      and every other bit as in the network id. */
  function Broadcast(netid: bv32, wildcard: bv32): (b: bv32)
    ensures b & wildcard == wildcard
    ensures b & !wildcard == netid & !wildcard
  {
    netid | wildcard
  }

  /** `ntohl(htonl(x) + 1)`: the address after `x`, counting in network
      order. */
  function NextAddress(e: Endian, x: bv32): (y: bv32)
    ensures Swap(e, y) == Swap(e, x) + 1
  {
    SwapInvolution(e, Swap(e, x) + 1);
    Swap(e, Swap(e, x) + 1)
  }

  /** `ntohl(htonl(x) - 1)`: the address before `x`, counting in network
      order. */
  function PrevAddress(e: Endian, x: bv32): (y: bv32)
    ensures Swap(e, y) == Swap(e, x) - 1
  {
    SwapInvolution(e, Swap(e, x) - 1);
    Swap(e, Swap(e, x) - 1)
  }

  /** `htonl(wildcard) - 1`, stored in an `unsigned int`: the number of
      usable host addresses, wrapping around modulo 2^32. */
  function HostCount(e: Endian, wildcard: bv32): (n: bv32)
    ensures n == NetworkValue(Store(e, wildcard)) - 1
  {
    Swap(e, wildcard) - 1
  }

  /** The host count of a mask's wildcard is the wildcard of the
      network-order mask, less one: it does not depend on the byte order
      once the mask is read in network order. */
  lemma HostCountOfMask(e: Endian, mask: bv32)
    ensures HostCount(e, Wildcard(mask)) == Wildcard(Swap(e, mask)) - 1
  {
    SwapNot(e, mask);
  }

  /** `calcNet`: the caller has put an address into `netid` and a subnet
      mask into `netmask`. The network id replaces the address; the
      wildcard, the broadcast (from the new network id and the wildcard),
      host-min, host-max (from the broadcast) and the host count are
      overwritten in turn; the mask is left alone and the status is 0. The
      mask is not checked to be contiguous. */
  function CalcNet(e: Endian, netdata: IpNet): (r: (int, IpNet))
    ensures r.0 == 0
    ensures r.1.netmask == netdata.netmask
  {
    (0, IpNet(
      hosts := HostCount(e, Wildcard(netdata.netmask)),
      netmask := netdata.netmask,
      netid := NetId(netdata.netid, netdata.netmask),
      hostmin := NextAddress(e, NetId(netdata.netid, netdata.netmask)),
      hostmax := PrevAddress(e, Broadcast(NetId(netdata.netid, netdata.netmask), Wildcard(netdata.netmask))),
      broadcast := Broadcast(NetId(netdata.netid, netdata.netmask), Wildcard(netdata.netmask)),
      wildcard := Wildcard(netdata.netmask)))
  }

  // One fact per lemma about each field `calcNet` fills in; `CalcNetFields`
  // gathers them. Each follows from the contract of the function that
  // computes the field, but the solver cannot prove all nine in a single
  // proof without these steps.

  lemma NetIdField(e: Endian, netdata: IpNet)
    ensures SameNetwork(CalcNet(e, netdata).1.netid, netdata.netid, netdata.netmask)
  {
  }

  lemma NetIdHostBits(e: Endian, netdata: IpNet)
    ensures CalcNet(e, netdata).1.netid & !netdata.netmask == 0
  {
  }

  lemma WildcardDisjoint(e: Endian, netdata: IpNet)
    ensures CalcNet(e, netdata).1.wildcard & netdata.netmask == 0
  {
  }

  lemma WildcardCovers(e: Endian, netdata: IpNet)
    ensures CalcNet(e, netdata).1.wildcard | netdata.netmask == 0xFFFF_FFFF
  {
  }

  lemma BroadcastField(e: Endian, netdata: IpNet)
    ensures SameNetwork(CalcNet(e, netdata).1.broadcast, netdata.netid, netdata.netmask)
  {
    BroadcastInNetwork(netdata.netid, netdata.netmask);
  }

  lemma BroadcastHostBits(e: Endian, netdata: IpNet)
    ensures CalcNet(e, netdata).1.broadcast & CalcNet(e, netdata).1.wildcard == CalcNet(e, netdata).1.wildcard
  {
  }

  lemma HostMinField(e: Endian, netdata: IpNet)
    ensures Swap(e, CalcNet(e, netdata).1.hostmin) == Swap(e, CalcNet(e, netdata).1.netid) + 1
  {
  }

  lemma HostMaxField(e: Endian, netdata: IpNet)
    ensures Swap(e, CalcNet(e, netdata).1.hostmax) == Swap(e, CalcNet(e, netdata).1.broadcast) - 1
  {
  }

  lemma HostsField(e: Endian, netdata: IpNet)
    ensures CalcNet(e, netdata).1.hosts == Wildcard(Swap(e, netdata.netmask)) - 1
  {
    HostCountOfMask(e, netdata.netmask);
  }

  /** What `calcNet` leaves in the record, on a host of either byte order:
      the network id is the address with its host bits cleared; the
      wildcard is the exact complement of the mask; the broadcast lies in
      the same network with every host bit set; in network order host-min
      is one above the network id and host-max one below the broadcast;
      and the host count is the network-order wildcard less one, modulo
      2^32. */
  lemma CalcNetFields(e: Endian, netdata: IpNet)
    ensures SameNetwork(CalcNet(e, netdata).1.netid, netdata.netid, netdata.netmask)
    ensures CalcNet(e, netdata).1.netid & !netdata.netmask == 0
    ensures CalcNet(e, netdata).1.wildcard & netdata.netmask == 0
    ensures CalcNet(e, netdata).1.wildcard | netdata.netmask == 0xFFFF_FFFF
    ensures SameNetwork(CalcNet(e, netdata).1.broadcast, netdata.netid, netdata.netmask)
    ensures CalcNet(e, netdata).1.broadcast & CalcNet(e, netdata).1.wildcard == CalcNet(e, netdata).1.wildcard
    ensures Swap(e, CalcNet(e, netdata).1.hostmin) == Swap(e, CalcNet(e, netdata).1.netid) + 1
    ensures Swap(e, CalcNet(e, netdata).1.hostmax) == Swap(e, CalcNet(e, netdata).1.broadcast) - 1
    ensures CalcNet(e, netdata).1.hosts == Wildcard(Swap(e, netdata.netmask)) - 1
  {
    NetIdField(e, netdata);
    NetIdHostBits(e, netdata);
    WildcardDisjoint(e, netdata);
    WildcardCovers(e, netdata);
    BroadcastField(e, netdata);
    BroadcastHostBits(e, netdata);
    HostMinField(e, netdata);
    HostMaxField(e, netdata);
    HostsField(e, netdata);
  }

  /** The network id is the only address of its network without host
      bits. */
  lemma NetIdUnique(address: bv32, mask: bv32, y: bv32)
    requires y & !mask == 0
    requires SameNetwork(y, address, mask)
    ensures y == NetId(address, mask)
  {
  }

  /** The wildcard is the only value that is disjoint from the mask and
      covers every bit the mask leaves out. */
  lemma WildcardUnique(mask: bv32, w: bv32)
    requires w & mask == 0 && w | mask == 0xFFFF_FFFF
    ensures w == Wildcard(mask)
  {
  }

  /** The broadcast of a network lies in that network. */
  lemma BroadcastInNetwork(address: bv32, mask: bv32)
    ensures SameNetwork(Broadcast(NetId(address, mask), Wildcard(mask)), address, mask)
  {
  }

  /** Stepping forward and back gives the address started from. */
  lemma PrevAfterNext(e: Endian, x: bv32)
    ensures PrevAddress(e, NextAddress(e, x)) == x
  {
    SwapInvolution(e, x);
  }

  /** Stepping back and forward gives the address started from. */
  lemma NextAfterPrev(e: Endian, x: bv32)
    ensures NextAddress(e, PrevAddress(e, x)) == x
  {
    SwapInvolution(e, x);
  }

  /** A value whose 1-bits are all 1-bits of another is at most that other. */
  lemma SubsetIsBelow(x: bv32, y: bv32)
    requires x & y == x
    ensures x <= y
  {
  }

  /** In network order, the network id is the lowest address of its
      network: every address `y` in it is at least the network id. */
  lemma NetIdIsLowest(e: Endian, address: bv32, mask: bv32, y: bv32)
    requires SameNetwork(y, address, mask)
    ensures Swap(e, NetId(address, mask)) <= Swap(e, y)
  {
    SwapAnd(e, y, mask);
    SubsetIsBelow(Swap(e, y & mask), Swap(e, y));
  }

  /** `y` has no 1-bit outside the broadcast of its own network. */
  lemma BelowOwnBroadcast(y: bv32, mask: bv32)
    ensures y & Broadcast(NetId(y, mask), Wildcard(mask)) == y
  {
  }

  /** In network order, the broadcast is the highest address of its
      network: every address `y` in it is at most the broadcast. */
  lemma BroadcastIsHighest(e: Endian, address: bv32, mask: bv32, y: bv32)
    requires SameNetwork(y, address, mask)
    ensures Swap(e, y) <= Swap(e, Broadcast(NetId(address, mask), Wildcard(mask)))
  {
    BelowOwnBroadcast(y, mask);
    SwapAnd(e, y, Broadcast(NetId(y, mask), Wildcard(mask)));
    SubsetIsBelow(Swap(e, y), Swap(e, Broadcast(NetId(y, mask), Wildcard(mask))));
  }

  /** `getCidr`: counts the 1-bits of the mask by testing the lowest bit
      and shifting right until nothing is left. The mask is passed by
      value, so the caller's copy is unchanged. The count is the number of
      1-bits whatever their positions; a non-contiguous mask is not
      rejected. */
  method GetCidr(nm: bv32) returns (cidr: int)
    ensures cidr == Popcount(nm)
    ensures 0 <= cidr <= 32
  {
    cidr := 0;
    var netmask := nm;
    while netmask != 0
      invariant cidr + Popcount(netmask) == Popcount(nm)
      decreases netmask
    {
      PopcountStep(netmask);
      cidr := cidr + (netmask & 1) as int;
      netmask := netmask >> 1;
    }
    PopcountZero(netmask);
  }
}
