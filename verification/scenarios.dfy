/** The worked examples in calciprog.c's comments, plus edge cases of the
    code (a /30 network, /31 and /32 masks, the all-ones and all-zero
    masks), stated as lemmas about the model. The first two examples are
    about a little-endian host; the rest hold on either kind of host. */
module Scenarios {
  import opened ByteOrder
  import opened BitCount
  import opened Calciprog
  import opened ContiguousMask
  import opened DottedQuad

  /** On a little-endian host the `s_addr` of 192.168.10.0 has the decimal
      value 698560. */
  lemma LittleEndianValue()
    ensures Load(LittleEndian, Quad(192, 168, 10, 0)) == 698560
  {
  }

  /** Adding one to that `s_addr` directly changes the first octet:
      192.168.10.0 becomes 193.168.10.0. */
  lemma NaiveIncrement()
    ensures Store(LittleEndian, Load(LittleEndian, Quad(192, 168, 10, 0)) + 1) == Quad(193, 168, 10, 0)
  {
  }

  /** Going through network order instead gives 192.168.10.1, on either
      kind of host. */
  lemma SwappedIncrement(e: Endian)
    ensures Store(e, NextAddress(e, Load(e, Quad(192, 168, 10, 0)))) == Quad(192, 168, 10, 1)
  {
    PrintedNext(e, Quad(192, 168, 10, 0));
  }

  /** 192.168.10.3 with mask 255.255.255.0: the network id is 192.168.10.0
      and the wildcard 0.0.0.255. */
  lemma ExampleNetIdWildcard(e: Endian, netdata: IpNet)
    requires netdata.netid == Load(e, Quad(192, 168, 10, 3))
    requires netdata.netmask == Load(e, Quad(255, 255, 255, 0))
    ensures Store(e, CalcNet(e, netdata).1.netid) == Quad(192, 168, 10, 0)
    ensures Store(e, CalcNet(e, netdata).1.wildcard) == Quad(0, 0, 0, 255)
  {
    NetIdQuad(e, netdata, Quad(192, 168, 10, 3), Quad(255, 255, 255, 0));
    WildcardQuad(e, netdata, Quad(192, 168, 10, 3), Quad(255, 255, 255, 0));
  }

  /** The same network: host-min 192.168.10.1, host-max 192.168.10.254,
      broadcast 192.168.10.255. */
  lemma ExampleHostRange(e: Endian, netdata: IpNet)
    requires netdata.netid == Load(e, Quad(192, 168, 10, 3))
    requires netdata.netmask == Load(e, Quad(255, 255, 255, 0))
    ensures Store(e, CalcNet(e, netdata).1.hostmin) == Quad(192, 168, 10, 1)
    ensures Store(e, CalcNet(e, netdata).1.hostmax) == Quad(192, 168, 10, 254)
    ensures Store(e, CalcNet(e, netdata).1.broadcast) == Quad(192, 168, 10, 255)
  {
    HostMinQuad(e, netdata, Quad(192, 168, 10, 3), Quad(255, 255, 255, 0));
    HostMaxQuad(e, netdata, Quad(192, 168, 10, 3), Quad(255, 255, 255, 0));
    BroadcastQuad(e, netdata, Quad(192, 168, 10, 3), Quad(255, 255, 255, 0));
  }

  /** The same network has 254 usable hosts. */
  lemma ExampleHosts(e: Endian, netdata: IpNet)
    requires netdata.netid == Load(e, Quad(192, 168, 10, 3))
    requires netdata.netmask == Load(e, Quad(255, 255, 255, 0))
    ensures CalcNet(e, netdata).1.hosts == 254
  {
    HostsQuad(e, netdata, Quad(192, 168, 10, 3), Quad(255, 255, 255, 0));
  }

  /** The mask 255.255.252.0, as `inet_pton` stores it, is the contiguous
      mask of length 22. */
  lemma Mask22(e: Endian)
    ensures Load(e, Quad(255, 255, 252, 0)) == PrefixMask(e, 22)
  {
    NetworkView(e, Quad(255, 255, 252, 0));
    SwapInvolution(e, Load(e, Quad(255, 255, 252, 0)));
  }

  /** The mask 255.255.255.0 is the contiguous mask of length 24. */
  lemma Mask24(e: Endian)
    ensures Load(e, Quad(255, 255, 255, 0)) == PrefixMask(e, 24)
  {
    NetworkView(e, Quad(255, 255, 255, 0));
    SwapInvolution(e, Load(e, Quad(255, 255, 255, 0)));
  }

  /** 255.255.252.0 has 22 1-bits, so `getCidr` returns 22 for it. */
  lemma Cidr22(e: Endian)
    ensures Popcount(Load(e, Quad(255, 255, 252, 0))) == 22
  {
    Mask22(e);
    CidrOfPrefix(e, 22);
  }

  /** 255.255.255.0 has 24 1-bits, so `getCidr` returns 24 for it. */
  lemma Cidr24(e: Endian)
    ensures Popcount(Load(e, Quad(255, 255, 255, 0))) == 24
  {
    Mask24(e);
    CidrOfPrefix(e, 24);
  }

  /** The mask 255.255.255.252 is the contiguous mask of length 30. */
  lemma Mask30(e: Endian)
    ensures Load(e, Quad(255, 255, 255, 252)) == PrefixMask(e, 30)
  {
    NetworkView(e, Quad(255, 255, 255, 252));
    SwapInvolution(e, Load(e, Quad(255, 255, 255, 252)));
  }

  /** 255.255.255.252 has 30 1-bits, so `getCidr` returns 30 for it. */
  lemma Cidr30(e: Endian)
    ensures Popcount(Load(e, Quad(255, 255, 255, 252))) == 30
  {
    Mask30(e);
    CidrOfPrefix(e, 30);
  }

  /** A /31 mask leaves no usable host, and the host count is 0. */
  lemma Hosts31(e: Endian, netdata: IpNet)
    requires netdata.netmask == PrefixMask(e, 31)
    ensures CalcNet(e, netdata).1.hosts == 0
  {
    PrefixHosts(e, netdata, 31);
  }

  /** A /32 mask makes the unsigned host count wrap around to 2^32 - 1. */
  lemma Hosts32(e: Endian, netdata: IpNet)
    requires netdata.netmask == PrefixMask(e, 32)
    ensures CalcNet(e, netdata).1.hosts == 0xFFFF_FFFF
  {
    PrefixHosts(e, netdata, 32);
  }

  /** 10.0.0.1 with mask 255.255.255.252: network id 10.0.0.0, host-min
      10.0.0.1, host-max 10.0.0.2 and broadcast 10.0.0.3. */
  lemma SmallNetworkRange(e: Endian, netdata: IpNet)
    requires netdata.netid == Load(e, Quad(10, 0, 0, 1))
    requires netdata.netmask == Load(e, Quad(255, 255, 255, 252))
    ensures Store(e, CalcNet(e, netdata).1.netid) == Quad(10, 0, 0, 0)
    ensures Store(e, CalcNet(e, netdata).1.hostmin) == Quad(10, 0, 0, 1)
    ensures Store(e, CalcNet(e, netdata).1.hostmax) == Quad(10, 0, 0, 2)
    ensures Store(e, CalcNet(e, netdata).1.broadcast) == Quad(10, 0, 0, 3)
  {
    NetIdQuad(e, netdata, Quad(10, 0, 0, 1), Quad(255, 255, 255, 252));
    HostMinQuad(e, netdata, Quad(10, 0, 0, 1), Quad(255, 255, 255, 252));
    HostMaxQuad(e, netdata, Quad(10, 0, 0, 1), Quad(255, 255, 255, 252));
    BroadcastQuad(e, netdata, Quad(10, 0, 0, 1), Quad(255, 255, 255, 252));
  }

  /** The same network has 2 usable hosts. */
  lemma SmallNetworkHosts(e: Endian, netdata: IpNet)
    requires netdata.netid == Load(e, Quad(10, 0, 0, 1))
    requires netdata.netmask == Load(e, Quad(255, 255, 255, 252))
    ensures CalcNet(e, netdata).1.hosts == 2
  {
    HostsQuad(e, netdata, Quad(10, 0, 0, 1), Quad(255, 255, 255, 252));
  }

  /** 255.255.255.255 has 32 1-bits and 0.0.0.0 has none. */
  lemma CidrExtremes(e: Endian)
    ensures Popcount(Load(e, Quad(255, 255, 255, 255))) == 32
    ensures Popcount(Load(e, Quad(0, 0, 0, 0))) == 0
  {
    PopcountZero(Load(e, Quad(0, 0, 0, 0)));
    NetworkView(e, Quad(255, 255, 255, 255));
    SwapInvolution(e, Load(e, Quad(255, 255, 255, 255)));
    CidrOfPrefix(e, 32);
  }
}
