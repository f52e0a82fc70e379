/** A reference for what calciprog prints, stated octet by octet on dotted
    quads, without any 32-bit integer or byte order.

    `inet_pton` reads the address and the mask as dotted quads into the
    memory bytes of an `in_addr`, and `inet_ntoa` prints the memory bytes of
    each `in_addr` field back as a dotted quad. The lemmas here show that,
    for both kinds of host, the quads printed for the fields `calcNet` fills
    in are the octet-wise AND, NOT and OR of the input quads, and the
    dotted-quad successor and predecessor with carry from the last octet to
    the first: the byte swaps around the increments are exactly what makes
    the result the same on little-endian and big-endian hosts.
 */
module DottedQuad {
  import opened ByteOrder
  import opened Calciprog

  function QuadAnd(q: Quad, r: Quad): (s: Quad)
  {
    Quad(q.a & r.a, q.b & r.b, q.c & r.c, q.d & r.d)
  }

  function QuadOr(q: Quad, r: Quad): (s: Quad)
  {
    Quad(q.a | r.a, q.b | r.b, q.c | r.c, q.d | r.d)
  }

  function QuadNot(q: Quad): (s: Quad)
  {
    Quad(!q.a, !q.b, !q.c, !q.d)
  }

  /** The next dotted quad: the last octet goes up by one, and an octet
      that overflows from 255 to 0 carries into the octet before it;
      255.255.255.255 is followed by 0.0.0.0. */
  function QuadSucc(q: Quad): (s: Quad)
  {
    if q.d != 0xFF then Quad(q.a, q.b, q.c, q.d + 1)
    else if q.c != 0xFF then Quad(q.a, q.b, q.c + 1, 0)
    else if q.b != 0xFF then Quad(q.a, q.b + 1, 0, 0)
    else Quad(q.a + 1, 0, 0, 0)
  }

  /** The previous dotted quad: the last octet goes down by one, and an
      octet that underflows from 0 to 255 borrows from the octet before it;
      0.0.0.0 is preceded by 255.255.255.255. */
  function QuadPred(q: Quad): (s: Quad)
  {
    if q.d != 0 then Quad(q.a, q.b, q.c, q.d - 1)
    else if q.c != 0 then Quad(q.a, q.b, q.c - 1, 0xFF)
    else if q.b != 0 then Quad(q.a, q.b - 1, 0xFF, 0xFF)
    else Quad(q.a - 1, 0xFF, 0xFF, 0xFF)
  }

  /** The dotted-quad successor is the 32-bit successor of the big-endian
      value. */
  lemma SuccValue(q: Quad)
    ensures NetworkValue(QuadSucc(q)) == NetworkValue(q) + 1
  {
    if q.d != 0xFF {
    } else if q.c != 0xFF {
    } else if q.b != 0xFF {
    } else {
    }
  }

  /** The dotted-quad predecessor is the 32-bit predecessor of the
      big-endian value. */
  lemma PredValue(q: Quad)
    ensures NetworkValue(QuadPred(q)) == NetworkValue(q) - 1
  {
    if q.d != 0 {
    } else if q.c != 0 {
    } else if q.b != 0 {
    } else {
    }
  }

  /** Stepping forward and back over dotted quads gives the quad started
      from. */
  lemma PredSucc(q: Quad)
    ensures QuadPred(QuadSucc(q)) == q
  {
    SuccValue(q);
    PredValue(QuadSucc(q));
    NetworkQuadValue(q);
    NetworkQuadValue(QuadPred(QuadSucc(q)));
  }

  /** Two dotted quads are equal when their four octets are. */
  lemma QuadFields(q: Quad, r: Quad)
    requires q.a == r.a && q.b == r.b && q.c == r.c && q.d == r.d
    ensures q == r
  {
  }

  // Bitwise AND, NOT and OR of the values read from dotted quads, printed
  // back, one octet per lemma.

  lemma AndOctetA(e: Endian, q: Quad, r: Quad)
    ensures Store(e, Load(e, q) & Load(e, r)).a == q.a & r.a
  {
    match e
    case LittleEndian =>
    case BigEndian =>
  }

  lemma AndOctetB(e: Endian, q: Quad, r: Quad)
    ensures Store(e, Load(e, q) & Load(e, r)).b == q.b & r.b
  {
    match e
    case LittleEndian =>
    case BigEndian =>
  }

  lemma AndOctetC(e: Endian, q: Quad, r: Quad)
    ensures Store(e, Load(e, q) & Load(e, r)).c == q.c & r.c
  {
    match e
    case LittleEndian =>
    case BigEndian =>
  }

  lemma AndOctetD(e: Endian, q: Quad, r: Quad)
    ensures Store(e, Load(e, q) & Load(e, r)).d == q.d & r.d
  {
    match e
    case LittleEndian =>
    case BigEndian =>
  }

  lemma NotOctetA(e: Endian, q: Quad)
    ensures Store(e, !Load(e, q)).a == !q.a
  {
    match e
    case LittleEndian =>
    case BigEndian =>
  }

  lemma NotOctetB(e: Endian, q: Quad)
    ensures Store(e, !Load(e, q)).b == !q.b
  {
    match e
    case LittleEndian =>
    case BigEndian =>
  }

  lemma NotOctetC(e: Endian, q: Quad)
    ensures Store(e, !Load(e, q)).c == !q.c
  {
    match e
    case LittleEndian =>
    case BigEndian =>
  }

  lemma NotOctetD(e: Endian, q: Quad)
    ensures Store(e, !Load(e, q)).d == !q.d
  {
    match e
    case LittleEndian =>
    case BigEndian =>
  }

  lemma OrOctetA(e: Endian, q: Quad, r: Quad)
    ensures Store(e, Load(e, q) | Load(e, r)).a == q.a | r.a
  {
    match e
    case LittleEndian =>
    case BigEndian =>
  }

  lemma OrOctetB(e: Endian, q: Quad, r: Quad)
    ensures Store(e, Load(e, q) | Load(e, r)).b == q.b | r.b
  {
    match e
    case LittleEndian =>
    case BigEndian =>
  }

  lemma OrOctetC(e: Endian, q: Quad, r: Quad)
    ensures Store(e, Load(e, q) | Load(e, r)).c == q.c | r.c
  {
    match e
    case LittleEndian =>
    case BigEndian =>
  }

  lemma OrOctetD(e: Endian, q: Quad, r: Quad)
    ensures Store(e, Load(e, q) | Load(e, r)).d == q.d | r.d
  {
    match e
    case LittleEndian =>
    case BigEndian =>
  }

  /** On either kind of host, the bitwise AND of the values read from two
      dotted quads prints as their octet-wise AND. */
  lemma StoreAnd(e: Endian, q: Quad, r: Quad)
    ensures Store(e, Load(e, q) & Load(e, r)) == QuadAnd(q, r)
  {
    AndOctetA(e, q, r);
    AndOctetB(e, q, r);
    AndOctetC(e, q, r);
    AndOctetD(e, q, r);
    QuadFields(Store(e, Load(e, q) & Load(e, r)), QuadAnd(q, r));
  }

  /** On either kind of host, the bitwise NOT of the value read from a
      dotted quad prints as its octet-wise NOT. */
  lemma StoreNot(e: Endian, q: Quad)
    ensures Store(e, !Load(e, q)) == QuadNot(q)
  {
    NotOctetA(e, q);
    NotOctetB(e, q);
    NotOctetC(e, q);
    NotOctetD(e, q);
    QuadFields(Store(e, !Load(e, q)), QuadNot(q));
  }

  /** On either kind of host, the bitwise OR of the values read from two
      dotted quads prints as their octet-wise OR. */
  lemma StoreOr(e: Endian, q: Quad, r: Quad)
    ensures Store(e, Load(e, q) | Load(e, r)) == QuadOr(q, r)
  {
    OrOctetA(e, q, r);
    OrOctetB(e, q, r);
    OrOctetC(e, q, r);
    OrOctetD(e, q, r);
    QuadFields(Store(e, Load(e, q) | Load(e, r)), QuadOr(q, r));
  }

  /** The printed network id is the octet-wise AND of the printed address
      and mask. */
  lemma PrintedNetId(e: Endian, address: Quad, mask: Quad)
    ensures Store(e, NetId(Load(e, address), Load(e, mask))) == QuadAnd(address, mask)
  {
    StoreAnd(e, address, mask);
  }

  /** The printed wildcard is the octet-wise NOT of the printed mask. */
  lemma PrintedWildcard(e: Endian, mask: Quad)
    ensures Store(e, Wildcard(Load(e, mask))) == QuadNot(mask)
  {
    StoreNot(e, mask);
  }

  /** The printed broadcast is the octet-wise OR of the printed network id
      and wildcard. */
  lemma PrintedBroadcast(e: Endian, netid: Quad, wildcard: Quad)
    ensures Store(e, Broadcast(Load(e, netid), Load(e, wildcard))) == QuadOr(netid, wildcard)
  {
    StoreOr(e, netid, wildcard);
  }

  /** `ntohl(htonl(x) + 1)` prints as the dotted quad after the one `x`
      prints as, on either kind of host. */
  lemma PrintedNext(e: Endian, q: Quad)
    ensures Store(e, NextAddress(e, Load(e, q))) == QuadSucc(q)
  {
    NetworkView(e, q);
    SuccValue(q);
    StoreNetworkValue(e, NextAddress(e, Load(e, q)), QuadSucc(q));
  }

  /** `ntohl(htonl(x) - 1)` prints as the dotted quad before the one `x`
      prints as, on either kind of host. */
  lemma PrintedPrev(e: Endian, q: Quad)
    ensures Store(e, PrevAddress(e, Load(e, q))) == QuadPred(q)
  {
    NetworkView(e, q);
    PredValue(q);
    StoreNetworkValue(e, PrevAddress(e, Load(e, q)), QuadPred(q));
  }

  /** A value whose network-order view is the big-endian value of `q`
      prints as `q`. */
  lemma StoreNetworkValue(e: Endian, x: bv32, q: Quad)
    requires Swap(e, x) == NetworkValue(q)
    ensures Store(e, x) == q
  {
    StoreView(e, x);
    NetworkQuadValue(q);
  }

  /** The host count is the big-endian value of the wildcard quad less one,
      on either kind of host. */
  lemma PrintedHosts(e: Endian, mask: Quad)
    ensures HostCount(e, Wildcard(Load(e, mask))) == NetworkValue(QuadNot(mask)) - 1
  {
    StoreNot(e, mask);
  }

  // One printed field per lemma; `CalcNetInQuads` gathers them.

  lemma NetIdQuad(e: Endian, netdata: IpNet, address: Quad, mask: Quad)
    requires netdata.netid == Load(e, address) && netdata.netmask == Load(e, mask)
    ensures Store(e, CalcNet(e, netdata).1.netid) == QuadAnd(address, mask)
  {
    PrintedNetId(e, address, mask);
  }

  lemma WildcardQuad(e: Endian, netdata: IpNet, address: Quad, mask: Quad)
    requires netdata.netid == Load(e, address) && netdata.netmask == Load(e, mask)
    ensures Store(e, CalcNet(e, netdata).1.wildcard) == QuadNot(mask)
  {
    PrintedWildcard(e, mask);
  }

  lemma BroadcastQuad(e: Endian, netdata: IpNet, address: Quad, mask: Quad)
    requires netdata.netid == Load(e, address) && netdata.netmask == Load(e, mask)
    ensures Store(e, CalcNet(e, netdata).1.broadcast) == QuadOr(QuadAnd(address, mask), QuadNot(mask))
  {
    var r := CalcNet(e, netdata).1;
    NetIdQuad(e, netdata, address, mask);
    WildcardQuad(e, netdata, address, mask);
    LoadStore(e, r.netid);
    LoadStore(e, r.wildcard);
    PrintedBroadcast(e, QuadAnd(address, mask), QuadNot(mask));
  }

  lemma HostMinQuad(e: Endian, netdata: IpNet, address: Quad, mask: Quad)
    requires netdata.netid == Load(e, address) && netdata.netmask == Load(e, mask)
    ensures Store(e, CalcNet(e, netdata).1.hostmin) == QuadSucc(QuadAnd(address, mask))
  {
    var r := CalcNet(e, netdata).1;
    NetIdQuad(e, netdata, address, mask);
    LoadStore(e, r.netid);
    PrintedNext(e, QuadAnd(address, mask));
  }

  lemma HostMaxQuad(e: Endian, netdata: IpNet, address: Quad, mask: Quad)
    requires netdata.netid == Load(e, address) && netdata.netmask == Load(e, mask)
    ensures Store(e, CalcNet(e, netdata).1.hostmax) == QuadPred(QuadOr(QuadAnd(address, mask), QuadNot(mask)))
  {
    var r := CalcNet(e, netdata).1;
    BroadcastQuad(e, netdata, address, mask);
    LoadStore(e, r.broadcast);
    PrintedPrev(e, QuadOr(QuadAnd(address, mask), QuadNot(mask)));
  }

  lemma HostsQuad(e: Endian, netdata: IpNet, address: Quad, mask: Quad)
    requires netdata.netid == Load(e, address) && netdata.netmask == Load(e, mask)
    ensures CalcNet(e, netdata).1.hosts == NetworkValue(QuadNot(mask)) - 1
  {
    PrintedHosts(e, mask);
  }

  lemma NetmaskQuad(e: Endian, netdata: IpNet, address: Quad, mask: Quad)
    requires netdata.netid == Load(e, address) && netdata.netmask == Load(e, mask)
    ensures Store(e, CalcNet(e, netdata).1.netmask) == mask
  {
    StoreLoad(e, mask);
  }

  /** What calciprog prints after `calcNet`, on a host of either byte
      order, for the address and mask quads it was given: the network id is
      the octet-wise AND of address and mask, the wildcard the octet-wise
      NOT of the mask, the broadcast the octet-wise OR of those two,
      host-min the quad after the network id, host-max the quad before the
      broadcast, the mask is unchanged, and the host count is the value of
      the wildcard quad less one. None of it depends on the byte order. */
  lemma CalcNetInQuads(e: Endian, netdata: IpNet, address: Quad, mask: Quad)
    requires netdata.netid == Load(e, address) && netdata.netmask == Load(e, mask)
    ensures Store(e, CalcNet(e, netdata).1.netid) == QuadAnd(address, mask)
    ensures Store(e, CalcNet(e, netdata).1.wildcard) == QuadNot(mask)
    ensures Store(e, CalcNet(e, netdata).1.netmask) == mask
    ensures Store(e, CalcNet(e, netdata).1.hostmin) == QuadSucc(QuadAnd(address, mask))
    ensures Store(e, CalcNet(e, netdata).1.hostmax) == QuadPred(QuadOr(QuadAnd(address, mask), QuadNot(mask)))
    ensures Store(e, CalcNet(e, netdata).1.broadcast) == QuadOr(QuadAnd(address, mask), QuadNot(mask))
    ensures CalcNet(e, netdata).1.hosts == NetworkValue(QuadNot(mask)) - 1
  {
    NetIdQuad(e, netdata, address, mask);
    WildcardQuad(e, netdata, address, mask);
    NetmaskQuad(e, netdata, address, mask);
    HostMinQuad(e, netdata, address, mask);
    HostMaxQuad(e, netdata, address, mask);
    BroadcastQuad(e, netdata, address, mask);
    HostsQuad(e, netdata, address, mask);
  }
}
