/** The unit tests of the router (assignment-8-data-plane/router.py, `TestRouter`):
    three /24 links and a /16 towards the ISP. Concrete octets enter the proofs only
    through `BitsOf`, which evaluates cheaply, never through `Format08b` directly. */
module RouterTests {
  import opened Wrappers
  import opened Text
  import opened IpUtils
  import opened Routing

  function F(n: nat): string { Format08b(n) }

  lemma EightBitForm(n: nat)
    requires n < 256
    ensures |F(n)| == 8 && BinaryValue(F(n)) == n
  {
  }

  /** A CIDR text on an octet address parses to the first `length` bits of its octets. */
  lemma ParseOctetPrefix(text: string, a: nat, b: nat, c: nat, d: nat, length: nat, bits: string)
    requires length <= 32 && '/' !in DottedQuad(a, b, c, d)
    requires text == DottedQuad(a, b, c, d) + "/" + NatToDecimal(length)
    requires OctetBits(a, b, c, d)[..length] == bits
    ensures GetNetworkPrefix(text) == Success(IpCidrInfo(bits, length))
  {
    IpToBinaryOfDottedQuad(a, b, c, d);
    GetNetworkPrefixOfWellFormed(DottedQuad(a, b, c, d), length);
  }

  lemma TakeThreeOctets(w: string, x: string, y: string, z: string, length: nat)
    requires |w| == 8 && |x| == 8 && |y| == 8 && length == 24
    ensures (w + x + y + z)[..length] == w + x + y
  {
    assert (w + x + y + z) == (w + x + y) + z;
  }

  lemma TakeTwoOctets(w: string, x: string, y: string, z: string, length: nat)
    requires |w| == 8 && |x| == 8 && length == 16
    ensures (w + x + y + z)[..length] == w + x
  {
    assert (w + x + y + z) == (w + x) + (y + z);
  }

  /** A /24 route on an octet address parses to the first three octets' bits. */
  lemma ParseSlash24(text: string, a: nat, b: nat, c: nat, d: nat, ba: string, bb: string, bc: string)
    requires a < 256 && b < 256 && c < 256 && d < 256
    requires BitsOf(a, 8) == ba && BitsOf(b, 8) == bb && BitsOf(c, 8) == bc
    requires '/' !in DottedQuad(a, b, c, d) && text == DottedQuad(a, b, c, d) + "/" + NatToDecimal(24)
    ensures GetNetworkPrefix(text) == Success(IpCidrInfo(ba + bb + bc, 24))
  {
    Format08bIs(a, ba); Format08bIs(b, bb); Format08bIs(c, bc);
    EightBitForm(d);
    TakeThreeOctets(F(a), F(b), F(c), F(d), 24);
    ParseOctetPrefix(text, a, b, c, d, 24, ba + bb + bc);
  }

  /** A /16 route on an octet address parses to the first two octets' bits. */
  lemma ParseSlash16(text: string, a: nat, b: nat, c: nat, d: nat, ba: string, bb: string)
    requires a < 256 && b < 256 && c < 256 && d < 256
    requires BitsOf(a, 8) == ba && BitsOf(b, 8) == bb
    requires '/' !in DottedQuad(a, b, c, d) && text == DottedQuad(a, b, c, d) + "/" + NatToDecimal(16)
    ensures GetNetworkPrefix(text) == Success(IpCidrInfo(ba + bb, 16))
  {
    Format08bIs(a, ba); Format08bIs(b, bb);
    EightBitForm(c); EightBitForm(d);
    TakeTwoOctets(F(a), F(b), F(c), F(d), 16);
    ParseOctetPrefix(text, a, b, c, d, 16, ba + bb);
  }

  /** `Router([("223.1.1.0/24", "Link 0"), ...])`, as tuples. */
  const TestArgs: seq<RouteArg> := [
    RouteTuple("223.1.1.0/24", "Link 0"),
    RouteTuple("223.1.2.0/24", "Link 1"),
    RouteTuple("223.1.3.0/24", "Link 2"),
    RouteTuple("223.1.0.0/16", "Link 4 (ISP)")
  ]

  /** The eight-bit forms of the octets the test routes use. */
  const B223: string := "11011111"
  const B3: string := "00000011"
  const B2: string := "00000010"
  const B1: string := "00000001"

  lemma Bits223() ensures BitsOf(223, 8) == B223 { }

  lemma Bits3() ensures BitsOf(3, 8) == B3 { }

  lemma Bits2() ensures BitsOf(2, 8) == B2 { }

  lemma Bits1() ensures BitsOf(1, 8) == B1 { }

  const TestTable: seq<Entry> := [
    (IpCidrInfo(B223 + B1 + B1, 24), "Link 0"),
    (IpCidrInfo(B223 + B1 + B2, 24), "Link 1"),
    (IpCidrInfo(B223 + B1 + B3, 24), "Link 2"),
    (IpCidrInfo(B223 + B1, 16), "Link 4 (ISP)")
  ]

  lemma Decimal223() ensures NatToDecimal(223) == "223" { }

  lemma Decimal2() ensures NatToDecimal(2) == "2" { }

  lemma Decimal3() ensures NatToDecimal(3) == "3" { }

  lemma Decimal24() ensures NatToDecimal(24) == "24" { }

  lemma Decimal100() ensures NatToDecimal(100) == "100" { }

  lemma Decimal5() ensures NatToDecimal(5) == "5" { }

  lemma Decimal250() ensures NatToDecimal(250) == "250" { }

  lemma Decimal198() ensures NatToDecimal(198) == "198" { }

  lemma Decimal51() ensures NatToDecimal(51) == "51" { }

  lemma Quad223_1_1_0() ensures DottedQuad(223, 1, 1, 0) == "223.1.1.0"
  {
    Decimal223(); Decimal1(); Decimal1(); Decimal0();
    assert Join(["223", "1", "1", "0"], ".") == "223.1.1.0";
  }

  lemma Quad223_1_2_0() ensures DottedQuad(223, 1, 2, 0) == "223.1.2.0"
  {
    Decimal223(); Decimal1(); Decimal2(); Decimal0();
    assert Join(["223", "1", "2", "0"], ".") == "223.1.2.0";
  }

  lemma Quad223_1_3_0() ensures DottedQuad(223, 1, 3, 0) == "223.1.3.0"
  {
    Decimal223(); Decimal1(); Decimal3(); Decimal0();
    assert Join(["223", "1", "3", "0"], ".") == "223.1.3.0";
  }

  lemma Quad223_1_0_0() ensures DottedQuad(223, 1, 0, 0) == "223.1.0.0"
  {
    Decimal223(); Decimal1(); Decimal0(); Decimal0();
    assert Join(["223", "1", "0", "0"], ".") == "223.1.0.0";
  }

  lemma Quad223_1_1_100() ensures DottedQuad(223, 1, 1, 100) == "223.1.1.100"
  {
    Decimal223(); Decimal1(); Decimal1(); Decimal100();
    assert Join(["223", "1", "1", "100"], ".") == "223.1.1.100";
  }

  lemma Quad223_1_2_5() ensures DottedQuad(223, 1, 2, 5) == "223.1.2.5"
  {
    Decimal223(); Decimal1(); Decimal2(); Decimal5();
    assert Join(["223", "1", "2", "5"], ".") == "223.1.2.5";
  }

  lemma Quad223_1_250_1() ensures DottedQuad(223, 1, 250, 1) == "223.1.250.1"
  {
    Decimal223(); Decimal1(); Decimal250(); Decimal1();
    assert Join(["223", "1", "250", "1"], ".") == "223.1.250.1";
  }

  lemma Quad198_51_100_1() ensures DottedQuad(198, 51, 100, 1) == "198.51.100.1"
  {
    Decimal198(); Decimal51(); Decimal100(); Decimal1();
    assert Join(["198", "51", "100", "1"], ".") == "198.51.100.1";
  }

  lemma Text0() ensures DottedQuad(223, 1, 1, 0) + "/" + NatToDecimal(24) == "223.1.1.0/24" && '/' !in DottedQuad(223, 1, 1, 0)
  {
    Quad223_1_1_0(); Decimal24();
  }

  lemma Text1() ensures DottedQuad(223, 1, 2, 0) + "/" + NatToDecimal(24) == "223.1.2.0/24" && '/' !in DottedQuad(223, 1, 2, 0)
  {
    Quad223_1_2_0(); Decimal24();
  }

  lemma Text2() ensures DottedQuad(223, 1, 3, 0) + "/" + NatToDecimal(24) == "223.1.3.0/24" && '/' !in DottedQuad(223, 1, 3, 0)
  {
    Quad223_1_3_0(); Decimal24();
  }

  lemma Text3() ensures DottedQuad(223, 1, 0, 0) + "/" + NatToDecimal(16) == "223.1.0.0/16" && '/' !in DottedQuad(223, 1, 0, 0)
  {
    Quad223_1_0_0(); Decimal16();
  }

  /** The routes after normalisation. */
  const TestRoutes: seq<Route> := [
    Route("223.1.1.0/24", "Link 0"),
    Route("223.1.2.0/24", "Link 1"),
    Route("223.1.3.0/24", "Link 2"),
    Route("223.1.0.0/16", "Link 4 (ISP)")
  ]

  lemma TestNormalize()
    ensures NormalizeAll(TestArgs) == TestRoutes
  {
  }

  lemma TestPrefix0()
    ensures GetNetworkPrefix(TestRoutes[0].ipCidr) == Success(TestTable[0].0)
  {
    Text0(); Bits223(); Bits1();
    ParseSlash24(TestRoutes[0].ipCidr, 223, 1, 1, 0, B223, B1, B1);
  }

  lemma TestPrefix1()
    ensures GetNetworkPrefix(TestRoutes[1].ipCidr) == Success(TestTable[1].0)
  {
    Text1(); Bits223(); Bits1(); Bits2();
    ParseSlash24(TestRoutes[1].ipCidr, 223, 1, 2, 0, B223, B1, B2);
  }

  lemma TestPrefix2()
    ensures GetNetworkPrefix(TestRoutes[2].ipCidr) == Success(TestTable[2].0)
  {
    Text2(); Bits223(); Bits1(); Bits3();
    ParseSlash24(TestRoutes[2].ipCidr, 223, 1, 3, 0, B223, B1, B3);
  }

  lemma TestPrefix3()
    ensures GetNetworkPrefix(TestRoutes[3].ipCidr) == Success(TestTable[3].0)
  {
    Text3(); Bits223(); Bits1();
    ParseSlash16(TestRoutes[3].ipCidr, 223, 1, 0, 0, B223, B1);
  }

  /** Parsing four routes whose prefixes parse. */
  lemma ParseFourRoutes(r0: Route, r1: Route, r2: Route, r3: Route, e0: IpCidrInfo, e1: IpCidrInfo, e2: IpCidrInfo, e3: IpCidrInfo)
    requires GetNetworkPrefix(r0.ipCidr) == Success(e0) && GetNetworkPrefix(r1.ipCidr) == Success(e1)
    requires GetNetworkPrefix(r2.ipCidr) == Success(e2) && GetNetworkPrefix(r3.ipCidr) == Success(e3)
    ensures ParseRoutes([r0, r1, r2, r3]) == Success([(e0, r0.linkName), (e1, r1.linkName),
                                                      (e2, r2.linkName), (e3, r3.linkName)])
  {
    var t3 := [(e3, r3.linkName)];
    var t2 := [(e2, r2.linkName)] + t3;
    var t1 := [(e1, r1.linkName)] + t2;
    assert ParseRoutes([]) == Success([]);
    ParseRoutesCons(r3, e3, [], []);
    assert [r3] + [] == [r3] && t3 + [] == t3;
    ParseRoutesCons(r2, e2, [r3], t3);
    ParseRoutesCons(r1, e1, [r2] + [r3], t2);
    ParseRoutesCons(r0, e0, [r1] + ([r2] + [r3]), t1);
    assert [r0] + ([r1] + ([r2] + [r3])) == [r0, r1, r2, r3];
    assert [(e0, r0.linkName)] + t1 == [(e0, r0.linkName), (e1, r1.linkName), (e2, r2.linkName), (e3, r3.linkName)];
  }

  lemma TestParse()
    ensures ParseRoutes(TestRoutes) == Success(TestTable)
  {
    TestPrefix0(); TestPrefix1(); TestPrefix2(); TestPrefix3();
    ParseFourRoutes(TestRoutes[0], TestRoutes[1], TestRoutes[2], TestRoutes[3],
                    TestTable[0].0, TestTable[1].0, TestTable[2].0, TestTable[3].0);
  }

  lemma LongestFirstFour(t: seq<Entry>)
    requires |t| == 4 && Length(t[0]) >= Length(t[1]) >= Length(t[2]) >= Length(t[3])
    ensures LongestFirst(t)
  {
  }

  /** The table the test router builds: the routes in their order, already longest
      first. */
  lemma TestTableLongestFirst()
    ensures LongestFirst(TestTable)
  {
    LongestFirstFour(TestTable);
  }

  lemma TestForwardingTable()
    ensures BuildForwardingTable(NormalizeAll(TestArgs)) == Success(TestTable)
  {
    TestNormalize();
    TestParse();
    TestTableLongestFirst();
    BuildOfSorted(TestRoutes, TestTable);
  }

  /** The first-match scan over four entries. */
  lemma FirstMatchOfFour(table: seq<Entry>, bits: string)
    requires |table| == 4
    ensures FirstMatch(table, bits) ==
              if Matches(table[0], bits) then Some(0)
              else if Matches(table[1], bits) then Some(1)
              else if Matches(table[2], bits) then Some(2)
              else if Matches(table[3], bits) then Some(3)
              else None
  {
    assert table[1..][0] == table[1] && table[1..][1..][0] == table[2] && table[1..][1..][1..][0] == table[3];
    assert table[1..][1..][1..][1..] == [];
  }

  /** `route_packet` on a four-entry table once the destination's bits are known. */
  lemma LookupInFour(table: seq<Entry>, dest: string, bits: string)
    requires |table| == 4 && IpToBinary(dest) == Success(bits)
    ensures Lookup(table, dest) ==
              if Matches(table[0], bits) then Success(table[0].1)
              else if Matches(table[1], bits) then Success(table[1].1)
              else if Matches(table[2], bits) then Success(table[2].1)
              else if Matches(table[3], bits) then Success(table[3].1)
              else Success(DefaultGateway)
  {
    FirstMatchOfFour(table, bits);
    LookupOfBits(table, dest, bits);
  }

  /** `route_packet` once the destination's bits are known. */
  lemma LookupOfBits(table: seq<Entry>, dest: string, bits: string)
    requires IpToBinary(dest) == Success(bits)
    ensures FirstMatch(table, bits).Some? ==> Lookup(table, dest) == Success(table[FirstMatch(table, bits).value].1)
    ensures FirstMatch(table, bits).None? ==> Lookup(table, dest) == Success(DefaultGateway)
  {
  }

  /** The bits of a destination written as a dotted quad. */
  lemma DestIs(dest: string, x: nat, y: nat, z: nat, w: nat, ox: string, oy: string, oz: string, ow: string)
    requires x < 256 && y < 256 && z < 256 && w < 256
    requires BitsOf(x, 8) == ox && BitsOf(y, 8) == oy && BitsOf(z, 8) == oz && BitsOf(w, 8) == ow
    requires DottedQuad(x, y, z, w) == dest
    ensures IpToBinary(dest) == Success(ox + oy + oz + ow)
  {
    IpToBinaryOfDottedQuad(x, y, z, w);
    Format08bIs(x, ox); Format08bIs(y, oy); Format08bIs(z, oz); Format08bIs(w, ow);
  }

  /** A /24 entry on the first two octets of the bits matches exactly when its third
      octet is the bits' third. */
  lemma Match24(e: Entry, a: string, b: string, k: string, c: string, d: string)
    requires |a| == 8 && |b| == 8 && |k| == 8 && |c| == 8
    requires e.0 == IpCidrInfo(a + b + k, 24)
    ensures Matches(e, a + b + c + d) <==> c == k
  {
    assert (a + b + c + d)[..24] == a + b + c;
    if a + b + c == a + b + k {
      assert c == (a + b + c)[16..] && k == (a + b + k)[16..];
    }
  }

  /** A /16 entry matches bits that begin with its two octets. */
  lemma Match16(e: Entry, a: string, b: string, c: string, d: string)
    requires |a| == 8 && |b| == 8
    requires e.0 == IpCidrInfo(a + b, 16)
    ensures Matches(e, a + b + c + d)
  {
    assert (a + b + c + d)[..16] == a + b;
  }

  lemma OctetsDiffer()
    ensures B1 != B2 && B1 != B250 && B2 != B250 && B3 != B250
  {
    assert B1[6] != B2[6] && B1[0] != B250[0] && B2[0] != B250[0] && B3[0] != B250[0];
  }

  /** An entry does not match bits that differ from its prefix at position `i`. */
  lemma NoMatchAt(e: Entry, bits: string, i: nat)
    requires i < e.0.prefixLength <= |bits| && i < |e.0.cidrPrefix| && bits[i] != e.0.cidrPrefix[i]
    ensures !Matches(e, bits)
  {
    assert Take(bits, e.0.prefixLength)[i] == bits[i];
  }

  const B100: string := "01100100"
  const B5: string := "00000101"
  const B250: string := "11111010"
  const B198: string := "11000110"
  const B51: string := "00110011"

  lemma Bits100() ensures BitsOf(100, 8) == B100 { }

  lemma Bits5() ensures BitsOf(5, 8) == B5 { }

  lemma Bits250() ensures BitsOf(250, 8) == B250 { }

  lemma Bits198() ensures BitsOf(198, 8) == B198 { }

  lemma Bits51() ensures BitsOf(51, 8) == B51 { }

  /** 223.1.1.100 lies in 223.1.1.0/24, the longest prefix that holds it. */
  lemma Vector0(table: seq<Entry>, dest: string)
    requires table == TestTable && dest == "223.1.1.100"
    ensures Lookup(table, dest) == Success("Link 0")
  {
    Vector0Bits(dest);
    Vector0Match(table, dest, B223 + B1 + B1 + B100);
  }

  lemma Vector0Bits(dest: string)
    requires dest == "223.1.1.100"
    ensures IpToBinary(dest) == Success(B223 + B1 + B1 + B100)
  {
    Quad223_1_1_100(); Bits223(); Bits1(); Bits100();
    DestIs(dest, 223, 1, 1, 100, B223, B1, B1, B100);
  }

  lemma Vector0Match(table: seq<Entry>, dest: string, bits: string)
    requires table == TestTable && IpToBinary(dest) == Success(bits) && bits == B223 + B1 + B1 + B100
    ensures Lookup(table, dest) == Success("Link 0")
  {
    LookupInFour(table, dest, bits);
    Match24(table[0], B223, B1, B1, B1, B100);
  }

  /** 223.1.2.5 lies in 223.1.2.0/24. */
  lemma Vector1(table: seq<Entry>, dest: string)
    requires table == TestTable && dest == "223.1.2.5"
    ensures Lookup(table, dest) == Success("Link 1")
  {
    Vector1Bits(dest);
    Vector1Match(table, dest, B223 + B1 + B2 + B5);
  }

  lemma Vector1Bits(dest: string)
    requires dest == "223.1.2.5"
    ensures IpToBinary(dest) == Success(B223 + B1 + B2 + B5)
  {
    Quad223_1_2_5(); Bits223(); Bits1(); Bits2(); Bits5();
    DestIs(dest, 223, 1, 2, 5, B223, B1, B2, B5);
  }

  lemma Vector1Match(table: seq<Entry>, dest: string, bits: string)
    requires table == TestTable && IpToBinary(dest) == Success(bits) && bits == B223 + B1 + B2 + B5
    ensures Lookup(table, dest) == Success("Link 1")
  {
    LookupInFour(table, dest, bits);
    OctetsDiffer();
    Match24(table[0], B223, B1, B1, B2, B5);
    Match24(table[1], B223, B1, B2, B2, B5);
  }

  /** 223.1.250.1 lies only in the /16 towards the ISP. */
  lemma Vector2(table: seq<Entry>, dest: string)
    requires table == TestTable && dest == "223.1.250.1"
    ensures Lookup(table, dest) == Success("Link 4 (ISP)")
  {
    Vector2Bits(dest);
    Vector2Match(table, dest, B223 + B1 + B250 + B1);
  }

  lemma Vector2Bits(dest: string)
    requires dest == "223.1.250.1"
    ensures IpToBinary(dest) == Success(B223 + B1 + B250 + B1)
  {
    Quad223_1_250_1(); Bits223(); Bits1(); Bits250();
    DestIs(dest, 223, 1, 250, 1, B223, B1, B250, B1);
  }

  lemma Vector2Match(table: seq<Entry>, dest: string, bits: string)
    requires table == TestTable && IpToBinary(dest) == Success(bits) && bits == B223 + B1 + B250 + B1
    ensures Lookup(table, dest) == Success("Link 4 (ISP)")
  {
    LookupInFour(table, dest, bits);
    OctetsDiffer();
    Match24(table[0], B223, B1, B1, B250, B1);
    Match24(table[1], B223, B1, B2, B250, B1);
    Match24(table[2], B223, B1, B3, B250, B1);
    Match16(table[3], B223, B1, B250, B1);
  }

  /** 198.51.100.1 matches no entry. */
  lemma Vector3(table: seq<Entry>, dest: string)
    requires table == TestTable && dest == "198.51.100.1"
    ensures Lookup(table, dest) == Success(DefaultGateway)
  {
    Vector3Bits(dest);
    Vector3Match(table, dest, B198 + B51 + B100 + B1);
  }

  lemma Vector3Bits(dest: string)
    requires dest == "198.51.100.1"
    ensures IpToBinary(dest) == Success(B198 + B51 + B100 + B1)
  {
    Quad198_51_100_1(); Bits198(); Bits51(); Bits100(); Bits1();
    DestIs(dest, 198, 51, 100, 1, B198, B51, B100, B1);
  }

  lemma Vector3Match(table: seq<Entry>, dest: string, bits: string)
    requires table == TestTable && IpToBinary(dest) == Success(bits) && bits == B198 + B51 + B100 + B1
    ensures Lookup(table, dest) == Success(DefaultGateway)
  {
    LookupInFour(table, dest, bits);
    Vector3Miss(table, bits);
  }

  lemma Vector3Miss(table: seq<Entry>, bits: string)
    requires table == TestTable && bits == B198 + B51 + B100 + B1
    ensures forall k :: 0 <= k < 4 ==> !Matches(table[k], bits)
  {
    assert bits[3] == '0';
    NoMatchAt(table[0], bits, 3);
    NoMatchAt(table[1], bits, 3);
    NoMatchAt(table[2], bits, 3);
    NoMatchAt(table[3], bits, 3);
  }

  /** `test_route_packet_exact_match` and `test_route_packet_with_no_matching_prefix`. */
  lemma RouterTestVectors(router: Router)
    requires router.routes == NormalizeAll(TestArgs) && router.Valid()
    ensures router.RoutePacket("223.1.1.100") == Success("Link 0")
    ensures router.RoutePacket("223.1.2.5") == Success("Link 1")
    ensures router.RoutePacket("223.1.250.1") == Success("Link 4 (ISP)")
    ensures router.RoutePacket("198.51.100.1") == Success(DefaultGateway)
  {
    TestForwardingTable();
    Vector0(router.forwardingTable, "223.1.1.100");
    Vector1(router.forwardingTable, "223.1.2.5");
    Vector2(router.forwardingTable, "223.1.250.1");
    Vector3(router.forwardingTable, "198.51.100.1");
  }
}
