/** Byte order of IPv4 addresses.

    An `in_addr` keeps the four octets of a dotted quad a.b.c.d in memory in
    that order (a at the lowest address). What the program calls `s_addr` is
    the 32-bit integer a host reads from those four bytes, so its value
    depends on the host's byte order. `htonl` and `ntohl` convert between
    that host value and the big-endian ("network order") value, whose most
    significant byte is the first octet. On a little-endian host both are a
    byte reversal; on a big-endian host both are the identity.
 */
module ByteOrder {

  /** The byte order of the host the program runs on. */
  datatype Endian = LittleEndian | BigEndian

  /** The four octets of a dotted quad a.b.c.d, in memory order. */
  datatype Quad = Quad(a: bv8, b: bv8, c: bv8, d: bv8)

  /** The byte of significance `i` of `x` (0 is the least significant). */
  function Octet(x: bv32, i: bv32): (o: bv8)
    requires i < 4
  {
    ((x >> (8 * i)) & 0xFF) as bv8
  }

  /** Reverses the order of the four bytes of `x`. */
  function Reverse(x: bv32): (r: bv32)
  {
    (x << 24) | ((x << 8) & 0x00FF_0000) | ((x >> 8) & 0x0000_FF00) | (x >> 24)
  }

  /** `htonl` and `ntohl`: the same conversion in both directions. */
  function Swap(e: Endian, x: bv32): (r: bv32)
    ensures r == NetworkValue(Store(e, x))
  {
    match e
    case LittleEndian => ReverseValue(x); Reverse(x)
    case BigEndian => OwnValue(x); x
  }

  /** Reversing the bytes of `x` gives the big-endian value of its octets
      taken least significant first. */
  lemma ReverseValue(x: bv32)
    ensures Reverse(x) == NetworkValue(Quad(Octet(x, 0), Octet(x, 1), Octet(x, 2), Octet(x, 3)))
  {
  }

  /** `x` is the big-endian value of its octets taken most significant
      first. */
  lemma OwnValue(x: bv32)
    ensures x == NetworkValue(Quad(Octet(x, 3), Octet(x, 2), Octet(x, 1), Octet(x, 0)))
  {
  }

  /** The big-endian value of a dotted quad: the first octet is the most
      significant byte, the last octet the least significant one. */
  function NetworkValue(q: Quad): (v: bv32)
    ensures Octet(v, 3) == q.a && Octet(v, 2) == q.b
    ensures Octet(v, 1) == q.c && Octet(v, 0) == q.d
  {
    (q.a as bv32 << 24) | (q.b as bv32 << 16) | (q.c as bv32 << 8) | (q.d as bv32)
  }

  /** The dotted quad whose big-endian value is `v`. */
  function NetworkQuad(v: bv32): (q: Quad)
    ensures NetworkValue(q) == v
  {
    Quad(Octet(v, 3), Octet(v, 2), Octet(v, 1), Octet(v, 0))
  }

  /** The `s_addr` value a host of byte order `e` reads from the memory
      bytes a, b, c, d (what `inet_pton` leaves in an `in_addr`). */
  function Load(e: Endian, q: Quad): (x: bv32)
    ensures e == LittleEndian ==> Octet(x, 0) == q.a && Octet(x, 3) == q.d
    ensures e == BigEndian ==> Octet(x, 3) == q.a && Octet(x, 0) == q.d
  {
    match e
    case LittleEndian =>
      (q.a as bv32) | (q.b as bv32 << 8) | (q.c as bv32 << 16) | (q.d as bv32 << 24)
    case BigEndian =>
      (q.a as bv32 << 24) | (q.b as bv32 << 16) | (q.c as bv32 << 8) | (q.d as bv32)
  }

  /** The memory bytes of an `s_addr` value `x` on a host of byte order `e`
      (what `inet_ntoa` prints, and what the `uIp32` union exposes). */
  function Store(e: Endian, x: bv32): (q: Quad)
  {
    match e
    case LittleEndian => Quad(Octet(x, 0), Octet(x, 1), Octet(x, 2), Octet(x, 3))
    case BigEndian => Quad(Octet(x, 3), Octet(x, 2), Octet(x, 1), Octet(x, 0))
  }

  /** What `htonl` does to the bytes of its argument: on a little-endian
      host the byte of significance i moves to significance 3 - i, on a
      big-endian host every byte stays where it is. */
  lemma SwapOctets(e: Endian, x: bv32, i: bv32)
    requires i < 4
    ensures e == LittleEndian ==> Octet(Swap(e, x), i) == Octet(x, 3 - i)
    ensures e == BigEndian ==> Octet(Swap(e, x), i) == Octet(x, i)
  {
  }

  /** `htonl` undoes `ntohl` and vice versa, on both kinds of host. */
  lemma SwapInvolution(e: Endian, x: bv32)
    ensures Swap(e, Swap(e, x)) == x
  {
  }

  lemma ReverseAnd(x: bv32, y: bv32)
    ensures Reverse(x & y) == Reverse(x) & Reverse(y)
  {
  }

  lemma ReverseOr(x: bv32, y: bv32)
    ensures Reverse(x | y) == Reverse(x) | Reverse(y)
  {
  }

  lemma ReverseNot(x: bv32)
    ensures Reverse(!x) == !Reverse(x)
  {
  }

  /** The byte swap moves bits without changing them, so it commutes with
      the bitwise operations. */
  lemma SwapAnd(e: Endian, x: bv32, y: bv32)
    ensures Swap(e, x & y) == Swap(e, x) & Swap(e, y)
  {
    match e
    case LittleEndian => ReverseAnd(x, y);
    case BigEndian =>
  }

  lemma SwapOr(e: Endian, x: bv32, y: bv32)
    ensures Swap(e, x | y) == Swap(e, x) | Swap(e, y)
  {
    match e
    case LittleEndian => ReverseOr(x, y);
    case BigEndian =>
  }

  lemma SwapNot(e: Endian, x: bv32)
    ensures Swap(e, !x) == !Swap(e, x)
  {
    match e
    case LittleEndian =>
      calc {
        Swap(e, !x);
        Reverse(!x);
        { ReverseNot(x); }
        !Reverse(x);
      }
    case BigEndian =>
  }

  /** Reading memory and then storing it back gives the same bytes. */
  lemma StoreLoad(e: Endian, q: Quad)
    ensures Store(e, Load(e, q)) == q
  {
    LoadOctetB(e, q);
    LoadOctetC(e, q);
  }

  /** The two middle octets of the value read from a.b.c.d (`Load`'s own
      contract gives the outer two): on a little-endian host b is the byte
      of significance 1, on a big-endian host of significance 2. */
  lemma LoadOctetB(e: Endian, q: Quad)
    ensures Octet(Load(e, q), if e == LittleEndian then 1 else 2) == q.b
  {
    match e
    case LittleEndian =>
    case BigEndian =>
  }

  lemma LoadOctetC(e: Endian, q: Quad)
    ensures Octet(Load(e, q), if e == LittleEndian then 2 else 1) == q.c
  {
    match e
    case LittleEndian =>
    case BigEndian =>
  }

  /** Storing a value and reading it back gives the same value. */
  lemma LoadStore(e: Endian, x: bv32)
    ensures Load(e, Store(e, x)) == x
  {
    match e
    case LittleEndian =>
    case BigEndian =>
  }

  /** On either host, converting the `s_addr` of a.b.c.d to network order
      gives the big-endian value of a.b.c.d. */
  lemma NetworkView(e: Endian, q: Quad)
    ensures Swap(e, Load(e, q)) == NetworkValue(q)
  {
  }

  /** On either host, the octets of an `s_addr` are those of its value
      converted to network order, read most significant byte first. */
  lemma StoreView(e: Endian, x: bv32)
    ensures Store(e, x) == NetworkQuad(Swap(e, x))
  {
  }

  /** Reading the dotted quad of a big-endian value gives that value back. */
  lemma NetworkQuadValue(q: Quad)
    ensures NetworkQuad(NetworkValue(q)) == q
  {
  }
}
