/** IPv4 networks (src/net.rs): a base address and a prefix length of at most
    32 bits, with the derived mask and host count, and the supernet/subnet
    relation that makes networks a binary tree over the address space. The
    base is kept exactly as given: no operation masks it. */
module Net {
  import opened Bits
  import opened Text
  import opened Wrappers
  import Addr

  /** The two fields of `IpNetwork`. */
  datatype NetworkRecord = NetworkRecord(base: Addr.IpAddress, prefixLen: u8)

  /** `IpNetwork`: only `new` builds one, so its prefix length never exceeds 32. */
  type IpNetwork = n: NetworkRecord | n.prefixLen as nat <= WIDTH witness NetworkRecord(Addr.IpAddress(0), 0)

  /** `IpNetwork::new`: accepts exactly the prefix lengths 0 to 32 and stores
      both arguments as given. */
  function New(base: Addr.IpAddress, prefixLen: u8): (r: Option<IpNetwork>)
    ensures r.Some? <==> prefixLen <= 32
    ensures r.Some? ==> r.value.base == base && r.value.prefixLen == prefixLen
  {
    if 0 <= prefixLen <= 32 then Some(NetworkRecord(base, prefixLen)) else None
  }

  /** The prefix length, as stored. */
  function NumNetworkBits(n: IpNetwork): (r: u8)
    ensures r == n.prefixLen && r <= 32
  {
    n.prefixLen
  }

  /** The network bits and the host bits make up the whole address. */
  function NumHostBits(n: IpNetwork): (r: u8)
    ensures NumNetworkBits(n) + r == 32
  {
    32 - NumNetworkBits(n)
  }

  /** `2_u64.pow(host bits)`: between 1 (a /32) and 2^32 (a /0), which is why
      the source widens to `u64`. */
  function NumHosts(n: IpNetwork): (r: u64)
    ensures 1 <= r <= 0x1_0000_0000
    ensures r == Pow2(32 - n.prefixLen)
  {
    Pow2Monotone(NumHostBits(n), WIDTH);
    Pow2Width();
    Pow2(NumHostBits(n))
  }

  /** One bit less specific, same base. */
  function Supernet(n: IpNetwork): (r: Option<IpNetwork>)
    ensures r.None? <==> n.prefixLen == 0
    ensures r.Some? ==> r.value.base == n.base && r.value.prefixLen == n.prefixLen - 1
  {
    if NumNetworkBits(n) == 0 then None else New(n.base, NumNetworkBits(n) - 1)
  }

  /** The two children `(upper, lower)`: both one bit more specific, the lower
      keeps the base and the upper has the newly exposed bit set. If that bit
      was already set in the base, both children are the same network. */
  function Subnets(n: IpNetwork): (r: Option<(IpNetwork, IpNetwork)>)
    ensures r.None? <==> n.prefixLen == 32
    ensures r.Some? ==> r.value.1.base == n.base && r.value.1.prefixLen == n.prefixLen + 1
    ensures r.Some? ==> r.value.0.prefixLen == n.prefixLen + 1
    ensures r.Some? ==> var b, k := Addr.Deref(n.base), 31 - n.prefixLen;
      Addr.Deref(r.value.0.base) == if Bit(b, k) then b else b + Pow2(k)
  {
    match New(n.base, NumNetworkBits(n) + 1)
    case None => None
    case Some(lower) =>
      var upper := lower.(base := Addr.FromU32(SetBit(Addr.Deref(lower.base), NumHostBits(lower))));
      Some((upper, lower))
  }

  /** `get_mask`: the top `prefixLen` bits set and the rest clear, whatever the
      base; a /32 gives all ones (the explicit branch avoids a 32-bit shift). */
  function GetMask(n: IpNetwork): (r: Addr.IpAddress)
    ensures Addr.Deref(r) == Pow2(WIDTH) - Pow2(32 - n.prefixLen)
  {
    Pow2Width();
    match NumNetworkBits(n)
    case 32 => Addr.FromU32(U32_MAX)
    case p =>
      ShiftRightOnes(WIDTH, p);
      Addr.FromU32(Not32(Shr32(U32_MAX, p)))
  }

  /** `Display`: the base in dotted-quad form, a slash, the prefix length;
      splitting the result at its slash gives back exactly those two parts. */
  function Render(n: IpNetwork): (r: string)
    ensures Split(r, '/') == [Addr.Render(n.base), Decimal(n.prefixLen)]
  {
    var a, d := Addr.Render(n.base), Decimal(NumNetworkBits(n));
    Addr.RenderAlphabet(n.base);
    assert '/' !in a;
    assert '/' !in d by {
      assert forall i :: 0 <= i < |d| ==> d[i] != '/';
    }
    SplitCons(a, '/', d);
    SplitNone(d, '/');
    a + "/" + d
  }

  // ---------------------------------------------------------------------
  // Reference definition: the addresses a network covers

  /** `x` agrees with the base on the top `prefixLen` bits. */
  predicate Contains(n: IpNetwork, x: Addr.IpAddress) {
    var h := 32 - n.prefixLen;
    ShiftRight(Addr.Deref(x), h) == ShiftRight(Addr.Deref(n.base), h)
  }

  // ---------------------------------------------------------------------
  // Construction

  /** The constructor test vectors: every length up to 32 is accepted, and the
      out-of-range lengths are rejected. */
  lemma NewVectors(base: Addr.IpAddress, p: u8)
    ensures p <= 32 ==> New(base, p) == Some(NetworkRecord(base, p))
    ensures 33 <= p ==> New(base, p) == None
    ensures New(base, 33) == None && New(base, 200) == None && New(base, 255) == None
  {
  }

  // ---------------------------------------------------------------------
  // Mask and host count

  /** Bit `i` of the mask is set iff it is one of the top `prefixLen` bits. */
  lemma MaskBits(n: IpNetwork, i: nat)
    requires i < WIDTH
    ensures Bit(Addr.Deref(GetMask(n)), i) <==> i >= 32 - n.prefixLen
  {
    var p: nat := n.prefixLen;
    if p == 32 {
      BitMax(i);
    } else {
      var s := Shr32(U32_MAX, p);
      BitShiftRight(U32_MAX, p, i);
      BitMax(i + p);
    }
  }

  /** The mask depends on the prefix length only, never on the base. */
  lemma MaskIgnoresBase(n: IpNetwork, m: IpNetwork)
    requires n.prefixLen == m.prefixLen
    ensures GetMask(n) == GetMask(m)
  {
  }

  /** Mask and host count add up to the size of the address space. */
  lemma MaskPlusHosts(n: IpNetwork)
    ensures Addr.Deref(GetMask(n)) + NumHosts(n) == 0x1_0000_0000
  {
    Pow2Width();
  }

  // The mask test vectors of the source, one lemma each.

  lemma MaskZeroPrefix(base: Addr.IpAddress)
    ensures GetMask(NetworkRecord(base, 0)) == Addr.FromU32(0)
    ensures GetMask(NetworkRecord(Addr.FromU32(U32_MAX), 0)) == Addr.FromU32(0)
    ensures GetMask(NetworkRecord(Addr.FromU32(21010), 0)) == Addr.FromU32(0)
  {
    Pow2Width();
  }

  lemma Mask16()
    ensures GetMask(NetworkRecord(Addr.FromU32(0), 16)) == Addr.FromOctets([255, 255, 0, 0])
  {
    Pow2Values();
  }

  lemma Mask21()
    ensures GetMask(NetworkRecord(Addr.FromU32(0), 21)) == Addr.FromOctets([255, 255, 248, 0])
  {
    Pow2Values();
  }

  lemma Mask22()
    ensures GetMask(NetworkRecord(Addr.FromU32(0), 22)) == Addr.FromOctets([255, 255, 252, 0])
  {
    Pow2Values();
  }

  lemma Mask23()
    ensures GetMask(NetworkRecord(Addr.FromU32(0), 23)) == Addr.FromOctets([255, 255, 254, 0])
  {
    Pow2Values();
  }

  lemma Mask24()
    ensures GetMask(NetworkRecord(Addr.FromU32(0), 24)) == Addr.FromOctets([255, 255, 255, 0])
  {
    Pow2Values();
  }

  lemma Mask25()
    ensures GetMask(NetworkRecord(Addr.FromU32(0), 25)) == Addr.FromOctets([255, 255, 255, 128])
  {
    Pow2Values();
  }

  lemma Mask32()
    ensures GetMask(NetworkRecord(Addr.FromU32(0), 32)) == Addr.FromOctets([255, 255, 255, 255])
  {
    Pow2Values();
  }

  /** The host-count test vectors of the source. */
  lemma HostsVectors(base: Addr.IpAddress)
    ensures NumHosts(NetworkRecord(base, 32)) == 1
    ensures NumHosts(NetworkRecord(base, 31)) == 2
    ensures NumHosts(NetworkRecord(base, 20)) == 4096
    ensures NumHosts(NetworkRecord(base, 10)) == 4194304
    ensures NumHosts(NetworkRecord(base, 1)) == 2147483648
    ensures NumHosts(NetworkRecord(base, 0)) == 4294967296
  {
    Pow2Values();
  }

  // ---------------------------------------------------------------------
  // Supernet and subnets

  /** The supernet test vectors of the source. */
  lemma SupernetVectors()
    ensures Supernet(NetworkRecord(Addr.FromU32(0), 0)) == None
    ensures Supernet(NetworkRecord(Addr.FromU32(0), 1)) == Some(NetworkRecord(Addr.FromU32(0), 0))
    ensures Supernet(NetworkRecord(Addr.FromU32(4290772992), 10)) == Some(NetworkRecord(Addr.FromU32(4290772992), 9))
    ensures Supernet(NetworkRecord(Addr.FromU32(4292870144), 14)) == Some(NetworkRecord(Addr.FromU32(4292870144), 13))
    ensures Supernet(NetworkRecord(Addr.FromU32(3578789888), 30)) == Some(NetworkRecord(Addr.FromU32(3578789888), 29))
    ensures Supernet(NetworkRecord(Addr.FromU32(U32_MAX - 3), 32)) == Some(NetworkRecord(Addr.FromU32(U32_MAX - 3), 31))
  {
  }

  /** Bit by bit, the upper child's base is the parent's base with bit
      `31 - prefixLen` set, and the lower child's base is the parent's. */
  lemma SubnetBits(n: IpNetwork, i: nat)
    requires n.prefixLen < 32
    ensures var (upper, lower) := Subnets(n).value;
      && (Bit(Addr.Deref(upper.base), i) <==> Bit(Addr.Deref(n.base), i) || i == 31 - n.prefixLen)
      && (Bit(Addr.Deref(lower.base), i) <==> Bit(Addr.Deref(n.base), i))
  {
    var (upper, lower) := Subnets(n).value;
    ChildrenBits(n, upper, lower, i);
  }

  /** The bits of children shaped as `Subnets` returns them. */
  lemma ChildrenBits(n: IpNetwork, upper: IpNetwork, lower: IpNetwork, i: nat)
    requires n.prefixLen < 32
    requires var b, k := Addr.Deref(n.base), 31 - n.prefixLen;
      Children(n, upper, lower, if Bit(b, k) then b else b + Pow2(k))
    ensures Bit(Addr.Deref(upper.base), i) <==> Bit(Addr.Deref(n.base), i) || i == 31 - n.prefixLen
    ensures Bit(Addr.Deref(lower.base), i) <==> Bit(Addr.Deref(n.base), i)
  {
    var b, k: nat := Addr.Deref(n.base), 31 - n.prefixLen;
    if !Bit(b, k) {
      BitAddPow2(b, k, i);
    }
  }

  /** When the discriminating bit of the base is clear, the two children's bases
      differ in exactly that bit. */
  lemma SubnetsDiffer(n: IpNetwork, i: nat)
    requires n.prefixLen < 32 && !Bit(Addr.Deref(n.base), 31 - n.prefixLen)
    ensures var (upper, lower) := Subnets(n).value;
      Bit(Addr.Deref(upper.base), i) != Bit(Addr.Deref(lower.base), i) <==> i == 31 - n.prefixLen
  {
    SubnetBits(n, i);
  }

  /** When the discriminating bit is already set in the base, the two children
      are the same network. */
  lemma SubnetsCoincide(n: IpNetwork)
    requires n.prefixLen < 32 && Bit(Addr.Deref(n.base), 31 - n.prefixLen)
    ensures Subnets(n).value.0 == Subnets(n).value.1
  {
    var (upper, lower) := Subnets(n).value;
    assert upper.base == Addr.IpAddress(Addr.Deref(n.base)) == lower.base;
  }

  /** The lower child's supernet is the parent. */
  lemma SupernetOfLower(n: IpNetwork)
    requires n.prefixLen < 32
    ensures Supernet(Subnets(n).value.1) == Some(n)
  {
  }

  /** A network with a nonzero prefix is the lower half of its supernet. */
  lemma LowerOfSupernet(n: IpNetwork)
    requires n.prefixLen > 0
    ensures Subnets(Supernet(n).value).value.1 == n
  {
  }

  /** The supernet covers every address the network covers. */
  lemma SupernetContains(n: IpNetwork, x: Addr.IpAddress)
    requires n.prefixLen > 0
    ensures Contains(n, x) ==> Contains(Supernet(n).value, x)
  {
    var h: nat := 32 - n.prefixLen;
    ShiftRightCompose(Addr.Deref(x), h, 1);
    ShiftRightCompose(Addr.Deref(n.base), h, 1);
  }

  /** The upper child's supernet is the parent iff the discriminating bit was
      already set in the parent's base: the base is never re-masked. */
  lemma SupernetOfUpper(n: IpNetwork)
    requires n.prefixLen < 32
    ensures Supernet(Subnets(n).value.0) == Some(n) <==> Bit(Addr.Deref(n.base), 31 - n.prefixLen)
  {
  }

  /** Each child holds half the parent's hosts; the supernet holds twice as many. */
  lemma HostsHalve(n: IpNetwork)
    ensures n.prefixLen < 32 ==> var (upper, lower) := Subnets(n).value;
      NumHosts(upper) * 2 == NumHosts(n) && NumHosts(lower) * 2 == NumHosts(n)
    ensures n.prefixLen > 0 ==> NumHosts(Supernet(n).value) == 2 * NumHosts(n)
  {
    if n.prefixLen > 0 {
      assert Pow2(32 - (n.prefixLen - 1)) == 2 * Pow2(32 - n.prefixLen);
    }
  }

  // ---------------------------------------------------------------------
  // The address range of a network

  /** A network covers the aligned block of `NumHosts` addresses that holds its base. */
  lemma ContainsRange(n: IpNetwork, x: Addr.IpAddress)
    ensures var start := ShiftRight(Addr.Deref(n.base), 32 - n.prefixLen) * NumHosts(n);
      Contains(n, x) <==> start <= Addr.Deref(x) < start + NumHosts(n)
    ensures Contains(n, n.base)
  {
    ShiftRightRange(Addr.Deref(x), 32 - n.prefixLen, ShiftRight(Addr.Deref(n.base), 32 - n.prefixLen));
  }

  /** With bit `k` of `b` clear, agreeing with `b` above bit `k` means agreeing
      from bit `k` upward with exactly one of `b` and `b + 2^k`. */
  lemma SplitAtClearBit(v: nat, b: nat, k: nat)
    requires !Bit(b, k)
    ensures ShiftRight(v, k + 1) == ShiftRight(b, k + 1) <==>
      ShiftRight(v, k) == ShiftRight(b, k) || ShiftRight(v, k) == ShiftRight(b + Pow2(k), k)
    ensures ShiftRight(b, k) != ShiftRight(b + Pow2(k), k)
  {
    ShiftRightSplit(b, k);
    ShiftRightSplit(v, k);
    ShiftRightAddBit(b, k);
  }

  /** The shape of the two children that `Subnets` returns, as separate
      networks: both one bit more specific, the lower with the parent's base,
      the upper with the base `ub`. */
  predicate Children(n: IpNetwork, upper: IpNetwork, lower: IpNetwork, ub: nat) {
    && n.prefixLen < 32
    && upper.prefixLen == n.prefixLen + 1 && Addr.Deref(upper.base) == ub
    && lower.prefixLen == n.prefixLen + 1 && lower.base == n.base
  }

  /** Membership in either child is agreement from bit `31 - prefixLen` upward. */
  lemma ChildrenContain(n: IpNetwork, upper: IpNetwork, lower: IpNetwork, ub: nat, x: Addr.IpAddress)
    requires Children(n, upper, lower, ub)
    ensures var k, b, v := 31 - n.prefixLen, Addr.Deref(n.base), Addr.Deref(x);
      && (Contains(upper, x) <==> ShiftRight(v, k) == ShiftRight(ub, k))
      && (Contains(lower, x) <==> ShiftRight(v, k) == ShiftRight(b, k))
      && (Contains(n, x) <==> ShiftRight(v, k + 1) == ShiftRight(b, k + 1))
  {
    var k: nat := 31 - n.prefixLen;
    ContainsAt(upper, x, k);
    ContainsAt(lower, x, k);
    ContainsAt(n, x, k + 1);
  }

  lemma ContainsAt(n: IpNetwork, x: Addr.IpAddress, h: nat)
    requires h == 32 - n.prefixLen
    ensures Contains(n, x) <==> ShiftRight(Addr.Deref(x), h) == ShiftRight(Addr.Deref(n.base), h)
  {
  }

  /** The propositional step of the partition: a value `lo` equal to one of
      two distinct values `u` and `l` equals exactly one of them. */
  lemma Partition(inParent: bool, inUpper: bool, inLower: bool, above: bool, lo: nat, l: nat, u: nat)
    requires inParent <==> above
    requires above <==> lo == l || lo == u
    requires l != u
    requires inUpper <==> lo == u
    requires inLower <==> lo == l
    ensures (inParent <==> inUpper || inLower) && !(inUpper && inLower)
  {
  }

  /** Children that differ in the discriminating bit split the parent. */
  lemma ChildrenPartition(n: IpNetwork, upper: IpNetwork, lower: IpNetwork, x: Addr.IpAddress)
    requires n.prefixLen < 32 && !Bit(Addr.Deref(n.base), 31 - n.prefixLen)
    requires Children(n, upper, lower, Addr.Deref(n.base) + Pow2(31 - n.prefixLen))
    ensures Contains(n, x) <==> Contains(upper, x) || Contains(lower, x)
    ensures !(Contains(upper, x) && Contains(lower, x))
  {
    var k: nat := 31 - n.prefixLen;
    var b, v := Addr.Deref(n.base), Addr.Deref(x);
    ChildrenContain(n, upper, lower, b + Pow2(k), x);
    SplitAtClearBit(v, b, k);
    Partition(Contains(n, x), Contains(upper, x), Contains(lower, x),
      ShiftRight(v, k + 1) == ShiftRight(b, k + 1), ShiftRight(v, k), ShiftRight(b, k), ShiftRight(b + Pow2(k), k));
  }

  /** When the discriminating bit of the base is clear, the two children split
      the parent's addresses between them: every address of the parent is in
      exactly one child, and each child lies inside the parent. */
  lemma SubnetsPartition(n: IpNetwork, x: Addr.IpAddress)
    requires n.prefixLen < 32 && !Bit(Addr.Deref(n.base), 31 - n.prefixLen)
    ensures var (upper, lower) := Subnets(n).value;
      && (Contains(n, x) <==> Contains(upper, x) || Contains(lower, x))
      && !(Contains(upper, x) && Contains(lower, x))
  {
    var (upper, lower) := Subnets(n).value;
    ChildrenPartition(n, upper, lower, x);
  }

  /** Children that both keep the parent's base cover the half of the parent
      where the discriminating bit is set. */
  lemma ChildrenCollapse(n: IpNetwork, upper: IpNetwork, lower: IpNetwork, x: Addr.IpAddress)
    requires n.prefixLen < 32 && Bit(Addr.Deref(n.base), 31 - n.prefixLen)
    requires Children(n, upper, lower, Addr.Deref(n.base))
    ensures Contains(upper, x) || Contains(lower, x) <==> Contains(n, x) && Bit(Addr.Deref(x), 31 - n.prefixLen)
  {
    var k: nat := 31 - n.prefixLen;
    var b, v := Addr.Deref(n.base), Addr.Deref(x);
    ChildrenContain(n, upper, lower, b, x);
    ShiftRightSplit(b, k);
    ShiftRightSplit(v, k);
  }

  /** When the discriminating bit is already set, both children cover only the
      half of the parent where that bit is set: the other half is in neither. */
  lemma SubnetsCollapse(n: IpNetwork, x: Addr.IpAddress)
    requires n.prefixLen < 32 && Bit(Addr.Deref(n.base), 31 - n.prefixLen)
    ensures var (upper, lower) := Subnets(n).value;
      Contains(upper, x) || Contains(lower, x) <==> Contains(n, x) && Bit(Addr.Deref(x), 31 - n.prefixLen)
  {
    var (upper, lower) := Subnets(n).value;
    ChildrenCollapse(n, upper, lower, x);
  }

  // ---------------------------------------------------------------------
  // Display

  /** A rendering splits at its slash into a part that splits at its dots
      into the base's four octets in decimal, and a canonical numeral that
      parses to the prefix length. */
  lemma RenderComponents(n: IpNetwork)
    ensures |Split(Render(n), '/')| == 2
    ensures Split(Split(Render(n), '/')[0], '.') == [Decimal(Addr.Octets(n.base)[0]), Decimal(Addr.Octets(n.base)[1]), Decimal(Addr.Octets(n.base)[2]), Decimal(Addr.Octets(n.base)[3])]
    ensures IsCanonicalDecimal(Split(Render(n), '/')[1]) && DigitsValue(Split(Render(n), '/')[1]) == n.prefixLen
  {
  }

  /** Distinct networks render differently. */
  lemma RenderInjective(n: IpNetwork, m: IpNetwork)
    ensures Render(n) == Render(m) <==> n == m
  {
    if Render(n) == Render(m) {
      RenderComponents(n);
      RenderComponents(m);
      Addr.RenderInjective(n.base, m.base);
      DecimalInjective(n.prefixLen, m.prefixLen);
    }
  }

  lemma RenderZero()
    ensures Render(NetworkRecord(Addr.FromU32(0), 0)) == "0.0.0.0/0"
  {
    Addr.OctetsVectors();
    Addr.DottedZero();
    RenderJoin(NetworkRecord(Addr.FromU32(0), 0), [0, 0, 0, 0], "0.0.0.0", "0", "0.0.0.0/0");
  }

  /** A rendering assembled from the octets of the base and the rendering of the prefix length. */
  lemma RenderJoin(n: IpNetwork, o: Addr.Bytes4, a: string, d: string, s: string)
    requires Addr.Octets(n.base) == o && Addr.DottedQuad(o) == a
    requires Decimal(n.prefixLen) == d && a + "/" + d == s
    ensures Render(n) == s
  {
  }

  lemma RenderAllOnes()
    ensures Render(NetworkRecord(Addr.FromOctets([255, 255, 255, 255]), 32)) == "255.255.255.255/32"
  {
    Addr.OctetsOfFromOctets([255, 255, 255, 255]);
    Addr.DottedAllOnes();
    JoinAllOnes();
    RenderJoin(NetworkRecord(Addr.FromOctets([255, 255, 255, 255]), 32), [255, 255, 255, 255], "255.255.255.255", "32", "255.255.255.255/32");
  }

  lemma JoinAllOnes()
    ensures Decimal(32) == "32"
    ensures "255.255.255.255" + "/" + "32" == "255.255.255.255/32"
  {
  }
}
