# calciprog subnet arithmetic in Dafny

calciprog is a small IPv4 subnet calculator. It takes an address and a subnet
mask, both already parsed into `struct in_addr`. `calcNet` fills an `ipnet`
record with these fields:

- the network id;
- the wildcard (the inverse mask);
- the broadcast address;
- the first and last usable host addresses (host-min and host-max);
- the number of usable hosts.

`getCidr` counts the 1-bits of the mask to give the prefix length of the
CIDR "/n" notation (section 3.1 of RFC 4632).

The one subtle point is byte order. Each `s_addr` is the 32-bit integer that
the host reads from the four memory bytes of a dotted quad. So its value
depends on whether the host is little-endian or big-endian. Bitwise
AND/NOT/OR do not care about byte order. The increments and decrements do:
`calcNet` wraps them in `htonl`/`ntohl` so that they act on the last octet.

The model makes the host's byte order a parameter `e`. Every general
property holds for both byte orders. Only two worked examples in
`Scenarios` are fixed to a little-endian host, because the comments they
come from are about one.

- `byte_order.dfy` (`ByteOrder`) has these definitions:
  - `Swap(e, x)` is `htonl`/`ntohl`: byte reversal on a little-endian host, the identity on a big-endian one.
  - `Load(e, q)` is the `s_addr` a host reads from the octets of dotted quad `q`.
  - `Store(e, x)` gives the octets of an `s_addr`, which is what `inet_ntoa` prints.
  - `NetworkValue(q)` is the big-endian value of `q`.
- `bit_count.dfy` (`BitCount`) defines `Popcount` position by position. It is the reference that the shift-and-test loop of `getCidr` is checked against.
- `calciprog.dfy` (`Calciprog`) has the `ipnet` record and one function per statement of `calcNet`, all combined in `CalcNet`. `GetCidr` is a method with the same loop as `getCidr`.
- `contiguous_mask.dfy` (`ContiguousMask`) holds what both functions give for a contiguous mask of prefix length `p`.
- `dotted_quad.dfy` (`DottedQuad`) is an independent reference written octet by octet. It uses octet-wise AND/NOT/OR and a dotted-quad successor and predecessor with carry. It shows that the quads `calcNet`'s fields print as are the same on both kinds of host.
- `scenarios.dfy` (`Scenarios`) holds the worked examples in calciprog.c's comments, plus edge cases of the code: a /30 network, /31 and /32 masks, and the all-ones and all-zero masks.

Three facts about the code that the model keeps:

- Host-min adds 1 to the network-order value: `ntohl(htonl(netid) + 1)`. It does not add 1 to the host-order integer.
- `getCidr` counts the bits of the host-order `s_addr`, not of a network-order value. The count is the same either way (`BitCount.PopcountSwap`).
- With a /32 mask the host count wraps around to 4294967295, as the code's unsigned subtraction does. With a /31 mask it is 0.

## Verifying

The six files are verified together, with a resource limit of 2,000,000
per proof:

```
dafny verify --resource-limit 2000000 --verification-time-limit 0 *.dfy
```

The proofs do not depend on the contradictory-assumption warning. The same
command with that warning turned on checks the same proofs:

```
dafny verify --resource-limit 2000000 --verification-time-limit 0 --warn-contradictory-assumptions *.dfy
```

## Model

| member | source | states |
|---|---|---|
| `ByteOrder.Swap` | calciprog.c:95-101 | `htonl` (and `ntohl`) turns an `s_addr` into the big-endian value of the dotted quad it prints as, on either host |
| `ByteOrder.SwapInvolution` | calciprog.c:95-101 | `ntohl` undoes `htonl` on both kinds of host, so the swap back in `calcNet` restores host order |
| `ByteOrder.SwapOctets` | calciprog.c:85-94 | on a little-endian host `htonl` moves the byte of significance i to significance 3 - i; on a big-endian host it moves nothing |
| `ByteOrder.NetworkView` | calciprog.c:85-99 | converting the `s_addr` of a.b.c.d to network order gives the integer whose most significant byte is a and least significant byte is d, on either host |
| `ByteOrder.StoreView` | calciprog.c:85-99 | the octets an `s_addr` prints as are those of its network-order value, first octet most significant |
| `ByteOrder.StoreLoad` | calciprog.c:85-94 | reading four octets into an `s_addr` and printing it gives the same octets back |
| `ByteOrder.LoadStore` | calciprog.c:85-94 | printing an `s_addr` and reading the octets back gives the same value |
| `ByteOrder.SwapAnd` | calciprog.c:66 | byte swapping commutes with bitwise AND |
| `ByteOrder.SwapOr` | calciprog.c:78 | byte swapping commutes with bitwise OR |
| `ByteOrder.SwapNot` | calciprog.c:72 | byte swapping commutes with bitwise NOT |
| `BitCount.Popcount` | calciprog.c:141-146 | the number of 1-bits of a 32-bit mask is at most 32 |
| `BitCount.PopcountStep` | calciprog.c:177-181 | one loop step: the lowest bit plus the 1-bits of the value shifted right by one are all the 1-bits |
| `BitCount.PopcountZero` | calciprog.c:165-170 | the loop stops exactly when no 1-bit is left: only 0 has no 1-bits |
| `BitCount.PopcountSwap` | calciprog.c:148-152 | the count of 1-bits is the same in host order and in network order, so both kinds of host agree |
| `BitCount.PopcountPrefix` | calciprog.c:136-146 | a mask of `p` leading 1-bits has exactly `p` 1-bits |
| `Calciprog.NetId` | calciprog.c:59-66 | the network id has no host bits and lies in the same network as the address |
| `Calciprog.NetIdUnique` | calciprog.c:59-66 | the network id is the only address of the network without host bits |
| `Calciprog.NetIdIsLowest` | calciprog.c:59-66 | in network order every address of the network is at least the network id, on either host |
| `Calciprog.Wildcard` | calciprog.c:67-72 | the wildcard shares no bit with the mask and together they cover all 32 bits |
| `Calciprog.WildcardUnique` | calciprog.c:67-72 | the wildcard is the only value that is disjoint from the mask and covers the rest |
| `Calciprog.Broadcast` | calciprog.c:73-78 | the broadcast has every wildcard bit set and agrees with the network id on every other bit |
| `Calciprog.BroadcastInNetwork` | calciprog.c:73-78 | the broadcast lies in the network of the address |
| `Calciprog.BroadcastIsHighest` | calciprog.c:73-78 | in network order every address of the network is at most the broadcast ("the highest possible ip-address of our network"), on either host |
| `Calciprog.NextAddress` | calciprog.c:79-101 | `ntohl(htonl(x) + 1)` is, in network order, one above `x`, on either host |
| `Calciprog.PrevAddress` | calciprog.c:102-108 | `ntohl(htonl(x) - 1)` is, in network order, one below `x`, on either host |
| `Calciprog.PrevAfterNext` | calciprog.c:101-108 | stepping forward then back gives the starting address |
| `Calciprog.NextAfterPrev` | calciprog.c:101-108 | stepping back then forward gives the starting address |
| `Calciprog.HostCount` | calciprog.c:109-118 | the host count is the big-endian value of the printed wildcard less one, modulo 2^32 |
| `Calciprog.HostCountOfMask` | calciprog.c:109-118 | `htonl(~mask) - 1` is the complement of the network-order mask less one, modulo 2^32 |
| `Calciprog.CalcNet` | calciprog.c:57-121 | `calcNet` always returns 0 and leaves the mask untouched |
| `Calciprog.CalcNetFields` | calciprog.c:57-121 | the record after `calcNet` has these fields: the network id is the address with its host bits cleared; the wildcard is the exact complement of the mask; the broadcast is in the same network with all host bits set; host-min and host-max are one above the network id and one below the broadcast in network order; the host count is the network-order wildcard less one |
| `Calciprog.GetCidr` | calciprog.c:129-184 | `getCidr` returns the number of 1-bits of the mask, between 0 and 32, for any mask, contiguous or not; it works on a copy |
| `ContiguousMask.PrefixHosts` | calciprog.c:109-118 | for a contiguous /p mask the host count is 2^(32 - p) - 2 modulo 2^32 on either host |
| `ContiguousMask.PrefixHostOrder` | calciprog.c:79-108 | for a contiguous mask of length at most 30, network id < host-min < host-max < broadcast in network order, on either host |
| `ContiguousMask.HostMinInNetwork` | calciprog.c:79-101 | for a contiguous mask of length at most 30, host-min lies in the network of the address |
| `ContiguousMask.HostMaxInNetwork` | calciprog.c:102-108 | for a contiguous mask of length at most 30, host-max lies in the network of the address |
| `ContiguousMask.HostsCountRange` | calciprog.c:109-118 | for a contiguous mask of length at most 30, the host count is the number of addresses from host-min to host-max in network order |
| `ContiguousMask.CidrOfPrefix` | calciprog.c:123-127 | the mask of prefix length `p`, stored in host order, has `p` 1-bits, so `getCidr` returns `p` |
| `DottedQuad.SuccValue` | calciprog.c:80-82 | the dotted-quad successor with carry is the 32-bit successor of the big-endian value |
| `DottedQuad.PredValue` | calciprog.c:103-104 | the dotted-quad predecessor with borrow is the 32-bit predecessor of the big-endian value |
| `DottedQuad.PredSucc` | calciprog.c:101-108 | the dotted-quad predecessor undoes the successor |
| `DottedQuad.PrintedNetId` | calciprog.c:63-66 | the network id prints as the octet-wise AND of the address and mask quads, on either host |
| `DottedQuad.PrintedWildcard` | calciprog.c:68-72 | the wildcard prints as the octet-wise NOT of the mask quad (255.255.255.0 gives 0.0.0.255), on either host |
| `DottedQuad.PrintedBroadcast` | calciprog.c:74-78 | the broadcast prints as the octet-wise OR of the network id and wildcard quads, on either host |
| `DottedQuad.PrintedNext` | calciprog.c:92-101 | `ntohl(htonl(x) + 1)` prints as the next dotted quad after `x`, the last octet counting up first, on either host |
| `DottedQuad.PrintedPrev` | calciprog.c:102-108 | `ntohl(htonl(x) - 1)` prints as the dotted quad before `x`, on either host |
| `DottedQuad.PrintedHosts` | calciprog.c:109-118 | the host count is the big-endian value of the wildcard quad less one, on either host |
| `DottedQuad.CalcNetInQuads` | calciprog.c:57-121 | every field `calcNet` fills in prints as the same dotted quad on a little-endian and on a big-endian host, given by the octet-wise reference |
| `Scenarios.LittleEndianValue` | calciprog.c:85-87 | on a little-endian host 192.168.10.0 has the `s_addr` value 698560 |
| `Scenarios.NaiveIncrement` | calciprog.c:92-94 | adding 1 to that `s_addr` directly prints as 193.168.10.0 |
| `Scenarios.SwappedIncrement` | calciprog.c:80-82 | the swapped increment gives 192.168.10.1 on either host |
| `Scenarios.ExampleNetIdWildcard` | calciprog.c:60-69 | 192.168.10.3 with 255.255.255.0 gives network id 192.168.10.0 and wildcard 0.0.0.255 |
| `Scenarios.ExampleHostRange` | calciprog.c:79-108 | the same input gives host-min 192.168.10.1, host-max 192.168.10.254 and broadcast 192.168.10.255 |
| `Scenarios.ExampleHosts` | calciprog.c:115-116 | the same input gives 254 hosts |
| `Scenarios.SmallNetworkRange` | calciprog.c:57-108 | 10.0.0.1 with 255.255.255.252 gives network id 10.0.0.0, host-min 10.0.0.1, host-max 10.0.0.2 and broadcast 10.0.0.3 |
| `Scenarios.SmallNetworkHosts` | calciprog.c:109-118 | the same input gives 2 hosts |
| `Scenarios.Cidr22` | calciprog.c:126 | `getCidr` returns 22 for 255.255.252.0 |
| `Scenarios.Cidr24` | calciprog.c:127 | `getCidr` returns 24 for 255.255.255.0 |
| `Scenarios.Cidr30` | calciprog.c:129-184 | `getCidr` returns 30 for 255.255.255.252 |
| `Scenarios.CidrExtremes` | calciprog.c:141-146 | `getCidr` returns 32 for 255.255.255.255 and 0 for 0.0.0.0 |
| `Scenarios.Hosts31` | calciprog.c:118 | a /31 mask gives a host count of 0 |
| `Scenarios.Hosts32` | calciprog.c:118 | a /32 mask makes the unsigned host count wrap around to 4294967295 |

## Left out

- `main` (calciprog.c:187-227) is left out: the argument-count check, the usage message, the exit codes and the `printf` output are I/O. The text conversions of `inet_pton` and `inet_ntoa` are library code that is not part of this model. Only what they do to the four memory bytes is modelled, as `Load` and `Store`.
- The `uIp32` union and the byte dump that `main` prints (calciprog.c:29-36, 216-221) are a diagnostic print of memory layout. They are left out.
- The byte order is a parameter with two values. Hosts with other byte layouts are not modelled.
- `unsigned int` is taken to be 32 bits wide, and `hosts` wraps modulo 2^32 as a `bv32`. `getCidr`'s `int` result is an unbounded integer; it never exceeds 32.
- No contiguity check on the mask is modelled, because calciprog.c has none. The results about a prefix length `p` take a contiguous mask as a hypothesis. Every other contract holds for any mask.
- The ordering and range results in `ContiguousMask` require a prefix length of at most 30. With /31 and /32 there is no host range, and calciprog.c promises none.
- `Calciprog.CalcNet`: its own ensures state only the status and the untouched mask. What it computes for each field is stated by `Calciprog.CalcNetFields` and `DottedQuad.CalcNetInQuads`. That keeps each proof obligation small.
