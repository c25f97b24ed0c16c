# ip-utils in Dafny

A model of the two types of the `ip-utils` Rust library, with proofs about them:

- `IpAddress` (`src/addr.rs`) wraps a 32-bit value. It is built from a raw `u32` or from four
  octets in network byte order. It splits back into octets and renders in dotted-quad notation.
- `IpNetwork` (`src/net.rs`) is a base address with a prefix length of at most 32 bits. It has
  a host count, a mask, a supernet, two subnets and a CIDR rendering.

The project has five modules:

- `Wrappers` holds `Option`.
- `Bits` has the Rust integer types as ranges of `int` (`u8`, `u32`, `u64`). It defines the
  operators the network code applies to `u32` values arithmetically:
  - `|` is `Or32`, built from the width-indexed `Or`;
  - `!` is `Not32`;
  - `>>` is `Shr32`, built from `ShiftRight`;
  - `<<` is `Shl32`, with bits shifted past the top lost.

  Lemmas here prove the bit-level facts (`Bit`) the other modules rely on.
- `Text` renders naturals as Rust's `{}` does (`Decimal`). It also defines a reference parser
  (`DigitsValue`) and splitting at a separator (`Split`), the partners of the rendering proofs.
- `Addr` models `IpAddress`: construction, octets, the derived equality and order, and `Display`.
- `Net` models `IpNetwork`, plus the reference predicate `Contains`. `Contains` holds when an
  address agrees with the base on the top `prefixLen` bits, and the proofs about the
  subnet/supernet tree use it.

The base of a network is never masked. `new`, `supernet` and `subnets` store it exactly as the
source does. The model states the consequences rather than hiding them:

- When the discriminating bit is already set in the base, the two subnets are the same network.
- They then cover only half of their parent.
- Only the lower subnet always has the parent as its supernet.

## Model

| member | source | states |
|---|---|---|
| Bits.Or32 | src/net.rs:66 | a bit of the or of `x` and `y` is set iff it is set in `x` or in `y` |
| Bits.Shl32 | src/net.rs:66 | `x << n` moves bit `j` of `x` to bit `j + n`, losing it past bit 31, and leaves the `n` low bits clear |
| Bits.Not32 | src/net.rs:78 | `!x` flips every one of the 32 bits of `x` |
| Bits.Shr32 | src/net.rs:78 | `x >> n`, for a shift below the width, is the quotient of `x` by `2^n` |
| Bits.SetBit | src/net.rs:66 | `x` or-ed with `1 << k` leaves `x` unchanged if bit `k` is set, and otherwise adds `2^k` |
| Bits.ShlOne | src/net.rs:66 | `1 << k` is `2^k` for every `k` below the width: nothing is lost off the top |
| Bits.BitOr | src/net.rs:66 | a bit of the or is set iff it is below the width and set in one of the operands |
| Bits.OrPow2 | src/net.rs:66 | or-ing `2^k` into a `w`-bit number sets bit `k`, adding `2^k` exactly when it was clear |
| Bits.OrBelow | src/net.rs:66 | the or of `w` bits stays below `2^w`, so or-ing two `u32` values cannot overflow |
| Bits.BitAddPow2 | src/net.rs:66 | adding `2^k` to a number with bit `k` clear sets bit `k` and changes no other bit |
| Bits.ShiftRightDiv | src/net.rs:78 | dropping the `n` low bits of `x` is dividing `x` by `2^n` |
| Bits.BitShiftRight | src/net.rs:78 | shifting right by `n` moves bit `i + n` to bit `i` |
| Bits.ShiftRightOnes | src/net.rs:78 | `u32::MAX >> p` has exactly the low `32 - p` bits set |
| Bits.BitMax | src/net.rs:77 | `u32::MAX` has exactly the 32 bits below the width set |
| Bits.ShiftRightRange | src/net.rs:29-32 | `x >> h == q` iff `x` lies in the `q`-th aligned block of `2^h` values |
| Text.Decimal | src/addr.rs:48 | `{}` on an integer gives a canonical numeral (digits only, no leading zero) whose value is the integer |
| Text.DecimalOfValue | src/addr.rs:48 | every canonical numeral is the rendering of its value: the rendering is exactly the canonical form |
| Text.DecimalInjective | src/addr.rs:48 | distinct integers render differently |
| Text.DecimalOctetLength | src/addr.rs:47-48 | an octet renders in one to three digits |
| Addr.FromU32 | src/addr.rs:11-15 | `From<u32>` gives the address whose integer is the given value |
| Addr.New | src/addr.rs:35-37 | `new` gives the same address as `From<u32>` |
| Addr.Deref | src/addr.rs:23-30 | the returned integer determines the address: the address is exactly the one holding it |
| Addr.Octets | src/addr.rs:39-42 | the octets, read most significant first, give the address's integer, and `From<[u8; 4]>` of them rebuilds the address |
| Addr.FromBeBytes | src/addr.rs:19 | `u32::from_be_bytes` reads the four bytes most significant first |
| Addr.ToBeBytes | src/addr.rs:41 | the bytes of `u32::to_be_bytes` read back big-endian give the integer |
| Addr.ToBeBytesOfFromBeBytes | src/addr.rs:17-21 | reading four bytes and splitting the integer again gives the same bytes |
| Addr.FromOctets | src/addr.rs:17-21 | the address built from `[a, b, c, d]` has the value `a·2^24 + b·2^16 + c·2^8 + d` |
| Addr.ValueRoundTrip | src/addr.rs:11-37 | `From<u32>` and `new` store the value unchanged, `Deref` returns it, and rebuilding from it gives the same address |
| Addr.OctetsOfFromOctets | src/addr.rs:17-42 | `octets(from([a, b, c, d])) == [a, b, c, d]` for every byte array |
| Addr.FromOctetsOfOctets | src/addr.rs:17-42 | `from(octets(x)) == x` for every address |
| Addr.EqualityByValue | src/addr.rs:8-9 | two addresses are equal iff their integers are equal, iff their octets are equal |
| Addr.Cmp | src/addr.rs:8-9 | derived `Ord`: `Less`, `Equal` and `Greater` exactly when the integers compare so |
| Addr.CmpTotalOrder | src/addr.rs:8-9 | the order is antisymmetric and transitive: swapping the arguments reverses it |
| Addr.BigEndianOrder | src/addr.rs:17-21 | comparing big-endian values is comparing the byte strings lexicographically |
| Addr.CmpOctets | src/addr.rs:8-21 | numeric order of addresses is lexicographic order of their octets |
| Addr.Render | src/addr.rs:45-49 | the rendering splits at its dots into exactly the four decimal numerals of the octets, in order |
| Addr.RenderAlphabet | src/addr.rs:45-49 | a rendering holds only digits and dots |
| Addr.RenderComponents | src/addr.rs:45-49 | a rendering has exactly four dot-separated components, each a canonical numeral that parses back to its octet |
| Addr.RenderLength | src/addr.rs:45-49 | a rendering is 7 to 15 characters long |
| Addr.RenderInjective | src/addr.rs:45-49 | two addresses render the same iff they are equal |
| Addr.RenderExtremes | src/addr.rs:45-49 | `0` renders as `"0.0.0.0"` and `u32::MAX` as `"255.255.255.255"` |
| Addr.InitVectors | src/addr.rs:57-70 | the construction test vectors: each integer equals the address of its octets |
| Addr.OctetsVectors | src/addr.rs:73-80 | the octet test vectors |
| Addr.RenderOnes | src/addr.rs:84 | `[1, 1, 1, 1]` renders as `"1.1.1.1"` |
| Addr.RenderTwentyFives | src/addr.rs:85 | `[25, 25, 25, 25]` renders as `"25.25.25.25"` |
| Addr.RenderAllOnes | src/addr.rs:86-89 | `[255, 255, 255, 255]` renders as `"255.255.255.255"` |
| Addr.RenderMixed | src/addr.rs:90 | `684196753` renders as `"40.200.3.145"` |
| Addr.RenderLowHalf | src/addr.rs:91 | `65535` renders as `"0.0.255.255"` |
| Net.New | src/net.rs:21-27 | a network is returned iff the prefix length is at most 32, and it holds base and prefix exactly as given |
| Net.NewVectors | src/net.rs:108-115 | every length 0 to 32 is accepted; 33 and above, including 200 and 255, are rejected |
| Net.NumNetworkBits | src/net.rs:29-35 | the network bits are the stored prefix length, at most 32 |
| Net.NumHostBits | src/net.rs:40-42 | network bits plus host bits is 32 |
| Net.NumHosts | src/net.rs:45-47 | the host count is `2^(32 - prefixLen)`, between 1 and `2^32` |
| Net.HostsVectors | src/net.rs:205-230 | /32, /31, /20, /10, /1 and /0 hold 1, 2, 4096, 4194304, 2147483648 and 4294967296 hosts |
| Net.Supernet | src/net.rs:52-57 | `None` iff the prefix is 0; otherwise the same base, not re-masked, one bit shorter |
| Net.SupernetVectors | src/net.rs:118-158 | the supernet test vectors |
| Net.Subnets | src/net.rs:63-71 | `None` iff the prefix is 32; otherwise `(upper, lower)` one bit longer, with `lower.base == base` and `upper.base` the base or-ed with `2^(31 - p)` |
| Net.GetMask | src/net.rs:74-80 | the mask is `2^32 - 2^(32 - p)`, including all ones at /32 |
| Net.MaskBits | src/net.rs:74-80 | bit `i` of the mask is set iff it is one of the top `p` bits |
| Net.MaskIgnoresBase | src/net.rs:74-80 | the mask depends on the prefix length only, never on the base |
| Net.MaskPlusHosts | src/net.rs:45-80 | mask plus host count is `2^32` |
| Net.MaskZeroPrefix | src/net.rs:161-173 | /0 gives the zero mask, also for the bases `u32::MAX` and 21010 |
| Net.Mask16 | src/net.rs:174-177 | /16 gives `255.255.0.0` |
| Net.Mask21 | src/net.rs:178-181 | /21 gives `255.255.248.0` |
| Net.Mask22 | src/net.rs:182-185 | /22 gives `255.255.252.0` |
| Net.Mask23 | src/net.rs:186-189 | /23 gives `255.255.254.0` |
| Net.Mask24 | src/net.rs:190-193 | /24 gives `255.255.255.0` |
| Net.Mask25 | src/net.rs:194-197 | /25 gives `255.255.255.128` |
| Net.Mask32 | src/net.rs:198-201 | /32 gives `255.255.255.255`, not 0 |
| Net.SubnetBits | src/net.rs:63-71 | bit by bit, the upper base is the parent base with bit `31 - p` set, and the lower base is the parent's |
| Net.SubnetsDiffer | src/net.rs:64-67 | when bit `31 - p` of the base is clear, the children's bases differ in exactly that bit |
| Net.SubnetsCoincide | src/net.rs:64-67 | when bit `31 - p` of the base is already set, the two children are the same network |
| Net.SupernetOfLower | src/net.rs:52-71 | the supernet of the lower child is the parent |
| Net.LowerOfSupernet | src/net.rs:49-71 | a network with a nonzero prefix is the lower child of its supernet |
| Net.SupernetContains | src/net.rs:49-57 | the supernet covers every address the network covers |
| Net.SupernetOfUpper | src/net.rs:52-71 | the supernet of the upper child is the parent iff the discriminating bit was already set in the base |
| Net.HostsHalve | src/net.rs:45-71 | each child holds half the parent's hosts, and the supernet holds twice as many |
| Net.ContainsRange | src/net.rs:29-47 | a network covers the aligned block of `NumHosts` addresses that holds its base, and it covers its base |
| Net.SubnetsPartition | src/net.rs:59-71 | with the discriminating bit clear, every address of the parent is in exactly one child, and each child lies inside the parent |
| Net.SubnetsCollapse | src/net.rs:59-71 | with the discriminating bit set, the children cover only the half of the parent where that bit is set |
| Net.Render | src/net.rs:83-87 | a CIDR rendering splits at its slash into exactly the base's dotted quad and the prefix length in decimal |
| Net.RenderComponents | src/net.rs:83-87 | the part before the slash splits at its dots into the base's four octet numerals, and the part after it is a canonical numeral that parses to the prefix length |
| Net.RenderInjective | src/net.rs:83-87 | two networks render the same iff they are equal |
| Net.RenderZero | src/net.rs:95-98 | `0.0.0.0` with prefix 0 renders as `"0.0.0.0/0"` |
| Net.RenderAllOnes | src/net.rs:99-104 | `[255, 255, 255, 255]` with prefix 32 renders as `"255.255.255.255/32"` |

## Left out

- `fmt::Formatter`, `write!` and `fmt::Result`: both `Display` implementations are pure functions
  returning the string.
- The implicit `Deref` coercion: `Addr.Deref` is an explicit accessor returning the integer.
- The `Debug`, `Copy`, `Clone` and `Hash` derives: they have no behaviour beyond value semantics.
  The derived `PartialEq`/`Eq` are Dafny's datatype equality. The derived `PartialOrd`/`Ord` of
  addresses is `Addr.Cmp`.
- Shifts by 32 or more: `Bits.Shr32` and `Bits.Shl32` require a shift below the width. Rust
  panics on such a shift when overflow checks are on. Without them it masks the amount to its low
  five bits, so `!(u32::MAX >> 32)` would silently be 0 rather than all ones. The source never
  shifts that far: the /32 branch of `get_mask` exists to avoid it, and the lower subnet of
  `subnets` has at most 31 host bits.
- `u8` overflow in `num_network_bits() + 1` (`src/net.rs:64`) and underflow in
  `32 - num_network_bits()` (`src/net.rs:41`): neither can happen, because the prefix length of a
  network never exceeds 32.
- The `#[test]` scaffolding: its assertions are stated as the vector lemmas above.
