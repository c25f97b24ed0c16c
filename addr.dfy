/** IPv4 addresses (src/addr.rs): a single 32-bit host identifier, built from a
    raw `u32` or from four octets in network byte order, split back into
    octets and rendered in dotted-quad notation. */
module Addr {
  import opened Bits
  import opened Text

  /** `IpAddress(u32)`: equality is that of the underlying integer. */
  datatype IpAddress = IpAddress(bits: u32)

  /** `[u8; 4]`. */
  type Bytes4 = s: seq<u8> | |s| == 4 witness [0, 0, 0, 0]

  /** Result of `Ord::cmp`. */
  datatype Ordering = Less | Equal | Greater

  // ---------------------------------------------------------------------
  // Byte order

  /** The value of a byte string read most significant byte first. */
  function BigEndian(s: seq<u8>): nat {
    if s == [] then 0 else BigEndian(s[..|s| - 1]) * 0x100 + s[|s| - 1]
  }

  /** `u32::from_be_bytes`. */
  function FromBeBytes(o: Bytes4): (v: u32)
    ensures v == BigEndian(o)
  {
    var o1, o2, o3 := o[..1], o[..2], o[..3];
    assert BigEndian(o1) == o[0] by {
      assert o1[..0] == [];
    }
    assert BigEndian(o2) == BigEndian(o1) * 0x100 + o[1] by {
      assert o2[..1] == o1;
    }
    assert BigEndian(o3) == BigEndian(o2) * 0x100 + o[2] by {
      assert o3[..2] == o2;
    }
    assert BigEndian(o) == BigEndian(o3) * 0x100 + o[3] by {
      assert o[..3] == o3;
    }
    ((o[0] as int * 0x100 + o[1]) * 0x100 + o[2]) * 0x100 + o[3]
  }

  /** One byte split off the low end: quotient and remainder by 256. */
  lemma DivModByte(q: nat, r: nat)
    requires r < 0x100
    ensures (q * 0x100 + r) / 0x100 == q && (q * 0x100 + r) % 0x100 == r
  {
  }

  /** `u32::to_be_bytes`: the bytes it returns read back as the same integer. */
  function ToBeBytes(v: u32): (o: Bytes4)
    ensures FromBeBytes(o) == v
  {
    var q1 := v / 0x100;
    var q2 := q1 / 0x100;
    var q3 := q2 / 0x100;
    DivModByte(q1, v % 0x100);
    DivModByte(q2, q1 % 0x100);
    DivModByte(q3, q2 % 0x100);
    [q3, q2 % 0x100, q1 % 0x100, v % 0x100]
  }

  /** Reading four bytes and splitting the integer again gives the same bytes. */
  lemma ToBeBytesOfFromBeBytes(o: Bytes4)
    ensures ToBeBytes(FromBeBytes(o)) == o
  {
    var q2 := o[0] as int * 0x100 + o[1];
    var q1 := q2 * 0x100 + o[2];
    DivModByte(q1, o[3]);
    DivModByte(q2, o[2]);
    DivModByte(o[0], o[1]);
    DivModByte(0, o[0]);
  }

  // ---------------------------------------------------------------------
  // Construction and access

  /** `From<u32>`: the address whose integer is `value`. */
  function FromU32(value: u32): (a: IpAddress)
    ensures Deref(a) == value
  {
    IpAddress(value)
  }

  /** `IpAddress::new`: the same address as `From<u32>` builds. */
  function New(value: u32): (a: IpAddress)
    ensures a == FromU32(value)
  {
    IpAddress(value)
  }

  /** `Deref`: the address as one integer, which determines the address. */
  function Deref(a: IpAddress): (r: u32)
    ensures a == IpAddress(r)
  {
    a.bits
  }

  /** `From<[u8; 4]>`: the octets are the address's bytes, most significant first. */
  function FromOctets(octets: Bytes4): (a: IpAddress)
    ensures Deref(a) == octets[0] as int * 0x100_0000 + octets[1] as int * 0x1_0000 + octets[2] as int * 0x100 + octets[3] as int
    ensures Deref(a) == BigEndian(octets)
  {
    FromU32(FromBeBytes(octets))
  }

  /** `IpAddress::octets`: the bytes, most significant first, that rebuild the address. */
  function Octets(a: IpAddress): (o: Bytes4)
    ensures BigEndian(o) == Deref(a)
    ensures FromOctets(o) == a
  {
    ToBeBytes(Deref(a))
  }

  /** `From<u32>` and `new` store the integer unchanged, and `Deref` gives it back:
      the address type and `u32` are in bijection. */
  lemma ValueRoundTrip(value: u32, a: IpAddress)
    ensures Deref(FromU32(value)) == value && Deref(New(value)) == value
    ensures FromU32(Deref(a)) == a && New(Deref(a)) == a
  {
  }

  /** Splitting an address built from four octets gives back those octets. */
  lemma OctetsOfFromOctets(octets: Bytes4)
    ensures Octets(FromOctets(octets)) == octets
  {
    ToBeBytesOfFromBeBytes(octets);
  }

  /** `octets` is the inverse of `From<[u8; 4]>`. */
  lemma FromOctetsOfOctets(a: IpAddress)
    ensures FromOctets(Octets(a)) == a
  {
  }

  /** Two addresses are equal iff their integers are equal, iff their octets are. */
  lemma EqualityByValue(x: IpAddress, y: IpAddress)
    ensures x == y <==> Deref(x) == Deref(y)
    ensures x == y <==> Octets(x) == Octets(y)
  {
    FromOctetsOfOctets(x);
    FromOctetsOfOctets(y);
  }

  // ---------------------------------------------------------------------
  // Ordering

  function CompareInt(m: int, n: int): (r: Ordering)
    ensures r == Less <==> m < n
    ensures r == Equal <==> m == n
    ensures r == Greater <==> m > n
  {
    if m < n then Less else if m == n then Equal else Greater
  }

  /** Derived `Ord`: addresses compare as their integers. */
  function Cmp(x: IpAddress, y: IpAddress): (r: Ordering)
    ensures r == Less <==> Deref(x) < Deref(y)
    ensures r == Equal <==> x == y
    ensures r == Greater <==> Deref(x) > Deref(y)
  {
    CompareInt(x.bits, y.bits)
  }

  /** Ordering is a total order: swapping the arguments reverses it, and it is transitive. */
  lemma CmpTotalOrder(x: IpAddress, y: IpAddress, z: IpAddress)
    ensures Cmp(x, y) == Less <==> Cmp(y, x) == Greater
    ensures Cmp(x, y) == Equal <==> Cmp(y, x) == Equal
    ensures Cmp(x, y) != Greater && Cmp(y, z) != Greater ==> Cmp(x, z) != Greater
    ensures Cmp(x, y) == Less && Cmp(y, z) == Less ==> Cmp(x, z) == Less
  {
  }

  /** Lexicographic comparison of two byte strings of the same length. */
  function LexCmp(a: seq<u8>, b: seq<u8>): Ordering
    requires |a| == |b|
  {
    if a == [] then Equal
    else if a[0] < b[0] then Less
    else if a[0] > b[0] then Greater
    else LexCmp(a[1..], b[1..])
  }

  /** Appending one byte to each of two equally long strings: the earlier
      bytes decide, and only on a tie does the new byte. */
  lemma {:induction false} LexCmpSnoc(a: seq<u8>, x: u8, b: seq<u8>, y: u8)
    requires |a| == |b|
    ensures LexCmp(a + [x], b + [y]) == if LexCmp(a, b) == Equal then CompareInt(x, y) else LexCmp(a, b)
  {
    if a != [] {
      assert (a + [x])[1..] == a[1..] + [x];
      assert (b + [y])[1..] == b[1..] + [y];
      LexCmpSnoc(a[1..], x, b[1..], y);
    }
  }

  lemma LexCmpEqual(a: seq<u8>, b: seq<u8>)
    requires |a| == |b|
    ensures LexCmp(a, b) == Equal <==> a == b
  {
  }

  /** Comparing big-endian values is comparing the byte strings lexicographically. */
  lemma {:induction false} BigEndianOrder(a: seq<u8>, b: seq<u8>)
    requires |a| == |b|
    ensures CompareInt(BigEndian(a), BigEndian(b)) == LexCmp(a, b)
  {
    if a != [] {
      var a', b' := a[..|a| - 1], b[..|b| - 1];
      BigEndianOrder(a', b');
      LexCmpEqual(a', b');
      assert a == a' + [a[|a| - 1]] && b == b' + [b[|b| - 1]];
      LexCmpSnoc(a', a[|a| - 1], b', b[|b| - 1]);
    }
  }

  /** Numeric order of addresses is lexicographic order of their octets. */
  lemma CmpOctets(a: Bytes4, b: Bytes4)
    ensures Cmp(FromOctets(a), FromOctets(b)) == LexCmp(a, b)
  {
    BigEndianOrder(a, b);
  }

  // ---------------------------------------------------------------------
  // Display

  /** `Display`: the four octets in decimal, joined by dots; splitting the
      result at its dots gives back exactly those four numerals, in order. */
  function Render(a: IpAddress): (r: string)
    ensures Split(r, '.') == [Decimal(Octets(a)[0]), Decimal(Octets(a)[1]), Decimal(Octets(a)[2]), Decimal(Octets(a)[3])]
  {
    var o := Octets(a);
    NoDot(Decimal(o[0]));
    NoDot(Decimal(o[1]));
    NoDot(Decimal(o[2]));
    NoDot(Decimal(o[3]));
    SplitDotted(Decimal(o[0]), Decimal(o[1]), Decimal(o[2]), Decimal(o[3]));
    DottedQuad(o)
  }

  /** `"{}.{}.{}.{}"` applied to four octets. */
  function DottedQuad(o: Bytes4): string {
    Decimal(o[0]) + "." + Decimal(o[1]) + "." + Decimal(o[2]) + "." + Decimal(o[3])
  }

  /** A rendering holds only digits and dots. */
  lemma RenderAlphabet(a: IpAddress)
    ensures forall i :: 0 <= i < |Render(a)| ==> IsDigit(Render(a)[i]) || Render(a)[i] == '.'
  {
  }

  /** Joining four pieces with dots, grouped from the right. */
  lemma JoinDots(d0: string, d1: string, d2: string, d3: string)
    ensures d0 + "." + d1 + "." + d2 + "." + d3 == d0 + ['.'] + (d1 + ['.'] + (d2 + ['.'] + d3))
  {
  }

  /** Four dot-free pieces joined by dots split back into those pieces. */
  lemma SplitDotted(d0: string, d1: string, d2: string, d3: string)
    requires '.' !in d0 && '.' !in d1 && '.' !in d2 && '.' !in d3
    ensures Split(d0 + "." + d1 + "." + d2 + "." + d3, '.') == [d0, d1, d2, d3]
  {
    JoinDots(d0, d1, d2, d3);
    SplitCons(d0, '.', d1 + ['.'] + (d2 + ['.'] + d3));
    SplitCons(d1, '.', d2 + ['.'] + d3);
    SplitCons(d2, '.', d3);
    SplitNone(d3, '.');
  }

  /** A rendering splits at its dots into exactly four components, each a
      canonical decimal numeral (no leading zero) that parses to one octet, in order. */
  lemma RenderComponents(a: IpAddress)
    ensures |Split(Render(a), '.')| == 4
    ensures forall i :: 0 <= i < 4 ==>
      IsCanonicalDecimal(Split(Render(a), '.')[i]) && DigitsValue(Split(Render(a), '.')[i]) == Octets(a)[i]
  {
  }

  /** A rendering is seven to fifteen characters long. */
  lemma RenderLength(a: IpAddress)
    ensures 7 <= |Render(a)| <= 15
  {
    var o := Octets(a);
    DecimalOctetLength(o[0]);
    DecimalOctetLength(o[1]);
    DecimalOctetLength(o[2]);
    DecimalOctetLength(o[3]);
  }

  lemma NoDot(s: string)
    requires IsCanonicalDecimal(s)
    ensures '.' !in s
  {
    assert forall i :: 0 <= i < |s| ==> s[i] != '.';
  }

  /** Distinct addresses render differently. */
  lemma RenderInjective(x: IpAddress, y: IpAddress)
    ensures Render(x) == Render(y) <==> x == y
  {
    if Render(x) == Render(y) {
      RenderComponents(x);
      RenderComponents(y);
      assert Octets(x) == Octets(y) by {
        forall i | 0 <= i < 4 ensures Octets(x)[i] == Octets(y)[i] {
          assert Split(Render(x), '.')[i] == Split(Render(y), '.')[i];
        }
      }
      EqualityByValue(x, y);
    }
  }

  // Renderings of the octet values that occur in the test vectors.
  lemma Decimal0() ensures Decimal(0) == "0" {}
  lemma Decimal1() ensures Decimal(1) == "1" {}
  lemma Decimal3() ensures Decimal(3) == "3" {}
  lemma Decimal25() ensures Decimal(25) == "25" {}
  lemma Decimal40() ensures Decimal(40) == "40" {}
  lemma Decimal145() ensures Decimal(145) == "145" {}
  lemma Decimal200() ensures Decimal(200) == "200" {}
  lemma Decimal255() ensures Decimal(255) == "255" {}

  lemma DottedOnes()
    ensures DottedQuad([1, 1, 1, 1]) == "1.1.1.1"
  {
    Decimal1();
    assert "1" + "." + "1" + "." + "1" + "." + "1" == "1.1.1.1";
  }

  lemma DottedTwentyFives()
    ensures DottedQuad([25, 25, 25, 25]) == "25.25.25.25"
  {
    Decimal25();
    assert "25" + "." + "25" + "." + "25" + "." + "25" == "25.25.25.25";
  }

  lemma DottedAllOnes()
    ensures DottedQuad([255, 255, 255, 255]) == "255.255.255.255"
  {
    Decimal255();
    assert "255" + "." + "255" + "." + "255" + "." + "255" == "255.255.255.255";
  }

  lemma DottedMixed()
    ensures DottedQuad([40, 200, 3, 145]) == "40.200.3.145"
  {
    Decimal40();
    Decimal200();
    Decimal3();
    Decimal145();
    assert "40" + "." + "200" + "." + "3" + "." + "145" == "40.200.3.145";
  }

  lemma DottedLowHalf()
    ensures DottedQuad([0, 0, 255, 255]) == "0.0.255.255"
  {
    Decimal0();
    Decimal255();
    assert "0" + "." + "0" + "." + "255" + "." + "255" == "0.0.255.255";
  }

  lemma DottedZero()
    ensures DottedQuad([0, 0, 0, 0]) == "0.0.0.0"
  {
    Decimal0();
    assert "0" + "." + "0" + "." + "0" + "." + "0" == "0.0.0.0";
  }

  // The display test vectors of the source, one lemma each.

  lemma RenderOnes()
    ensures Render(FromOctets([1, 1, 1, 1])) == "1.1.1.1"
  {
    OctetsOfFromOctets([1, 1, 1, 1]);
    DottedOnes();
  }

  lemma RenderTwentyFives()
    ensures Render(FromOctets([25, 25, 25, 25])) == "25.25.25.25"
  {
    OctetsOfFromOctets([25, 25, 25, 25]);
    DottedTwentyFives();
  }

  lemma RenderAllOnes()
    ensures Render(FromOctets([255, 255, 255, 255])) == "255.255.255.255"
  {
    OctetsOfFromOctets([255, 255, 255, 255]);
    DottedAllOnes();
  }

  lemma RenderMixed()
    ensures Render(FromU32(684196753)) == "40.200.3.145"
  {
    OctetsVectors();
    DottedMixed();
  }

  lemma RenderLowHalf()
    ensures Render(FromU32(65535)) == "0.0.255.255"
  {
    OctetsVectors();
    DottedLowHalf();
  }

  /** The unspecified address and the broadcast address. */
  lemma RenderExtremes()
    ensures Render(FromU32(0)) == "0.0.0.0"
    ensures Render(FromU32(U32_MAX)) == "255.255.255.255"
  {
    OctetsVectors();
    DottedZero();
    DottedAllOnes();
  }

  /** The construction test vectors of the source. */
  lemma InitVectors()
    ensures FromU32(0) == FromOctets([0, 0, 0, 0])
    ensures FromU32(10) == FromOctets([0, 0, 0, 10])
    ensures FromU32(16843009) == FromOctets([1, 1, 1, 1])
    ensures FromU32(684196753) == FromOctets([40, 200, 3, 145])
    ensures FromU32(65535) == FromOctets([0, 0, 255, 255])
    ensures FromU32(U32_MAX) == FromOctets([255, 255, 255, 255])
  {
  }

  /** The octet test vectors of the source. */
  lemma OctetsVectors()
    ensures Octets(FromU32(0)) == [0, 0, 0, 0]
    ensures Octets(FromU32(10)) == [0, 0, 0, 10]
    ensures Octets(FromU32(16843009)) == [1, 1, 1, 1]
    ensures Octets(FromU32(684196753)) == [40, 200, 3, 145]
    ensures Octets(FromU32(65535)) == [0, 0, 255, 255]
    ensures Octets(FromU32(U32_MAX)) == [255, 255, 255, 255]
  {
  }
}
