/** The IPv4 / CIDR codec of the data plane (assignment-8-data-plane/ip_utils.py):
    dotted-quad text becomes a string of bits, most significant first, and a CIDR
    prefix (section 3.1 of RFC 4632) is cut from the front of that bit string. */
module IpUtils {
  import opened Wrappers
  import opened Text

  /** What `get_network_prefix(..., return_cidr_prefix=True)` returns. */
  datatype IpCidrInfo = IpCidrInfo(cidrPrefix: string, prefixLength: nat)

  /** The `ValueError`s the codec raises, told apart by their messages. */
  datatype IpError =
    | InvalidAddress(address: string)        // "invalid IPV4 address: ..."
    | MissingSlash(text: string)             // "invalid IPV4 CIDR address: ..."
    | InvalidPrefixLength(field: string)     // "invalid CIDR prefix length: ..."
    | PrefixLengthOutOfRange(field: string)  // "CIDR prefix length must be between 0 and 32: ..."

  /** Every part is a run of decimal digits, so `int(part)` succeeds. */
  predicate AllDecimal(parts: seq<string>)
  {
    forall i :: 0 <= i < |parts| ==> ParseDecimal(parts[i]).Some?
  }

  /** The text splits on '.' into exactly four decimal parts. No range check: the
      source formats any integer, so "300.1.1.1" is accepted too. */
  predicate IsDottedQuad(address: string)
  {
    var parts := Split(address, ".");
    |parts| == 4 && AllDecimal(parts)
  }

  /** The value of the k-th part of a dotted quad. */
  function Octet(address: string, k: nat): nat
    requires IsDottedQuad(address) && k < 4
  {
    DecimalValue(Split(address, ".")[k])
  }

  /** The `''.join(format(int(p), '08b') for p in parts)` of the source; `None` when
      some `int(p)` raises. */
  function FormatParts(parts: seq<string>): (r: Option<string>)
    ensures r.Some? <==> AllDecimal(parts)
    ensures r.Some? ==> AllBits(r.value) && |r.value| >= 8 * |parts|
  {
    if |parts| == 0 then Some("")
    else
      var rest := FormatParts(parts[1..]);
      assert AllDecimal(parts) <==> ParseDecimal(parts[0]).Some? && AllDecimal(parts[1..]) by {
        assert forall i :: 1 <= i < |parts| ==> parts[i] == parts[1..][i - 1];
      }
      var first := ParseDecimal(parts[0]);
      if first.Some? && rest.Some? then Some(Format08b(first.value) + rest.value) else None
  }

  /** `ip_to_binary`. */
  function IpToBinary(address: string): (r: Result<string, IpError>)
    ensures r.Failure? ==> r.error == InvalidAddress(address)
    ensures r.Success? <==> IsDottedQuad(address)
    ensures r.Success? ==> AllBits(r.value) && |r.value| >= 32
  {
    var parts := Split(address, ".");
    if |parts| != 4 then Failure(InvalidAddress(address))
    else
      match FormatParts(parts)
      case None => Failure(InvalidAddress(address))
      case Some(bits) => Success(bits)
  }

  lemma FormatPartsStep(parts: seq<string>)
    requires |parts| > 0 && AllDecimal(parts)
    ensures AllDecimal(parts[1..]) && FormatParts(parts[1..]).Some?
    ensures FormatParts(parts) == Some(Format08b(DecimalValue(parts[0])) + FormatParts(parts[1..]).value)
  {
    assert forall i :: 0 <= i < |parts[1..]| ==> parts[1..][i] == parts[i + 1];
  }

  lemma FormatFourParts(parts: seq<string>)
    requires |parts| == 4 && AllDecimal(parts)
    ensures FormatParts(parts) == Some(Format08b(DecimalValue(parts[0])) + Format08b(DecimalValue(parts[1]))
                                       + Format08b(DecimalValue(parts[2])) + Format08b(DecimalValue(parts[3])))
  {
    var p1 := parts[1..];
    var p2 := p1[1..];
    var p3 := p2[1..];
    assert p3[1..] == [];
    FormatPartsStep(parts);
    FormatPartsStep(p1);
    FormatPartsStep(p2);
    FormatPartsStep(p3);
    Concat4(Format08b(DecimalValue(parts[0])), Format08b(DecimalValue(parts[1])),
            Format08b(DecimalValue(parts[2])), Format08b(DecimalValue(parts[3])));
  }

  lemma Concat4(b0: string, b1: string, b2: string, b3: string)
    ensures b0 + (b1 + (b2 + (b3 + ""))) == b0 + b1 + b2 + b3
  {
  }

  /** The eight-bit forms of four numbers, in order. */
  function OctetBits(a: nat, b: nat, c: nat, d: nat): string
  {
    Format08b(a) + Format08b(b) + Format08b(c) + Format08b(d)
  }

  /** Four octets give 32 bits, and each byte of them denotes its octet. */
  lemma OctetBitsBytes(a: nat, b: nat, c: nat, d: nat)
    requires a < 256 && b < 256 && c < 256 && d < 256
    ensures |OctetBits(a, b, c, d)| == 32
    ensures BinaryValue(OctetBits(a, b, c, d)[..8]) == a && BinaryValue(OctetBits(a, b, c, d)[8..16]) == b
    ensures BinaryValue(OctetBits(a, b, c, d)[16..24]) == c && BinaryValue(OctetBits(a, b, c, d)[24..32]) == d
  {
    FourBytes(Format08b(a), Format08b(b), Format08b(c), Format08b(d));
  }

  lemma FourBytes(b0: string, b1: string, b2: string, b3: string)
    requires |b0| == |b1| == |b2| == |b3| == 8
    ensures |b0 + b1 + b2 + b3| == 32
    ensures (b0 + b1 + b2 + b3)[..8] == b0 && (b0 + b1 + b2 + b3)[8..16] == b1
    ensures (b0 + b1 + b2 + b3)[16..24] == b2 && (b0 + b1 + b2 + b3)[24..32] == b3
  {
  }

  /** For a dotted quad, the bit string is the four parts' eight-bit forms in address
      order. */
  lemma IpToBinaryOctets(address: string)
    requires IsDottedQuad(address)
    ensures IpToBinary(address) == Success(OctetBits(Octet(address, 0), Octet(address, 1),
                                                     Octet(address, 2), Octet(address, 3)))
  {
    var parts := Split(address, ".");
    FormatFourParts(parts);
  }

  /** The canonical text of four numbers: decimal parts joined by dots. */
  function DottedQuad(a: nat, b: nat, c: nat, d: nat): string
  {
    Join([NatToDecimal(a), NatToDecimal(b), NatToDecimal(c), NatToDecimal(d)], ".")
  }

  lemma DigitsHaveNoDot(n: nat)
    ensures '.' !in NatToDecimal(n)
  {
    var s := NatToDecimal(n);
    assert forall i :: 0 <= i < |s| ==> s[i] != '.' by {
      forall i | 0 <= i < |s| ensures s[i] != '.' { assert IsDigit(s[i]); }
    }
  }

  /** Writing four numbers as a dotted quad and converting gives their eight-bit
      forms (and, for octets, the 32 bits of `OctetBitsBytes`). */
  lemma IpToBinaryOfDottedQuad(a: nat, b: nat, c: nat, d: nat)
    ensures IsDottedQuad(DottedQuad(a, b, c, d))
    ensures IpToBinary(DottedQuad(a, b, c, d)) == Success(OctetBits(a, b, c, d))
  {
    var parts := [NatToDecimal(a), NatToDecimal(b), NatToDecimal(c), NatToDecimal(d)];
    DigitsHaveNoDot(a); DigitsHaveNoDot(b); DigitsHaveNoDot(c); DigitsHaveNoDot(d);
    SplitJoin(parts, ".");
    var address := DottedQuad(a, b, c, d);
    assert Split(address, ".") == parts;
    assert IsDottedQuad(address);
    assert Octet(address, 0) == a && Octet(address, 1) == b && Octet(address, 2) == c && Octet(address, 3) == d;
    IpToBinaryOctets(address);
  }

  /** A text that does not split on '.' into four parts is rejected. */
  lemma IpToBinaryWrongPartCount(address: string)
    requires |Split(address, ".")| != 4
    ensures IpToBinary(address) == Failure(InvalidAddress(address))
  {
  }

  /** `get_network_prefix(text, return_cidr_prefix=True)`: split at the first '/',
      parse and range-check the length, then keep that many leading bits of the
      address. The checks run in the source's order. */
  function GetNetworkPrefix(text: string): (r: Result<IpCidrInfo, IpError>)
    ensures r == Failure(MissingSlash(text)) <==> '/' !in text
    ensures r.Success? ==> |r.value.cidrPrefix| == r.value.prefixLength <= 32 && AllBits(r.value.cidrPrefix)
  {
    var pos := IndexOf(text, '/');
    if pos == -1 then Failure(MissingSlash(text))
    else
      var ip, cidr := text[..pos], text[pos + 1..];
      match ParseDecimal(cidr)
      case None => Failure(InvalidPrefixLength(cidr))
      case Some(length) =>
        if !(0 <= length <= 32) then Failure(PrefixLengthOutOfRange(cidr))
        else
          match IpToBinary(ip)
          case Failure(e) => Failure(e)
          case Success(bits) => Success(IpCidrInfo(Take(bits, length), length))
  }

  /** `get_network_prefix(text)`: the same prefix without its length. */
  function GetNetworkPrefixBits(text: string): (r: Result<string, IpError>)
    ensures r.Success? <==> GetNetworkPrefix(text).Success?
    ensures r.Success? ==> r.value == GetNetworkPrefix(text).value.cidrPrefix
    ensures r.Failure? ==> r.error == GetNetworkPrefix(text).error
  {
    match GetNetworkPrefix(text)
    case Success(info) => Success(info.cidrPrefix)
    case Failure(e) => Failure(e)
  }

  lemma IndexOfPrefix(address: string, rest: string)
    requires '/' !in address
    ensures IndexOf(address + "/" + rest, '/') == |address|
  {
    var s := address + "/" + rest;
    assert s[..|address|] == address;
    assert s[|address|] == '/';
  }

  /** Every successful parse, including one whose length field is written unusually
      ("/023"), is the address before the first slash in binary, cut to the decimal
      length after it. */
  lemma GetNetworkPrefixSuccess(text: string)
    requires GetNetworkPrefix(text).Success?
    ensures var r := GetNetworkPrefix(text);
            var pos := IndexOf(text, '/');
            0 <= pos &&
            ParseDecimal(text[pos + 1..]) == Some(r.value.prefixLength) &&
            IpToBinary(text[..pos]).Success? &&
            r.value.cidrPrefix == IpToBinary(text[..pos]).value[..r.value.prefixLength]
  {
  }

  /** A well-formed CIDR text (an address without '/', a '/', and a decimal length up
      to 32) yields the first `length` bits of the address, or the address's error. */
  lemma GetNetworkPrefixOfWellFormed(address: string, length: nat)
    requires '/' !in address && length <= 32
    ensures IpToBinary(address).Success? ==>
              GetNetworkPrefix(address + "/" + NatToDecimal(length))
                == Success(IpCidrInfo(IpToBinary(address).value[..length], length))
    ensures IpToBinary(address).Failure? ==>
              GetNetworkPrefix(address + "/" + NatToDecimal(length)) == Failure(IpToBinary(address).error)
  {
    var text := address + "/" + NatToDecimal(length);
    IndexOfPrefix(address, NatToDecimal(length));
    assert text[..|address|] == address;
    assert text[|address| + 1..] == NatToDecimal(length);
    ParseDecimalOfNatToDecimal(length);
  }

  /** A length that is not a decimal number, or that exceeds 32, is rejected before
      the address is looked at. */
  lemma GetNetworkPrefixBadLength(address: string, field: string)
    requires '/' !in address
    ensures ParseDecimal(field).None? ==>
              GetNetworkPrefix(address + "/" + field) == Failure(InvalidPrefixLength(field))
    ensures ParseDecimal(field).Some? && ParseDecimal(field).value > 32 ==>
              GetNetworkPrefix(address + "/" + field) == Failure(PrefixLengthOutOfRange(field))
  {
    var text := address + "/" + field;
    IndexOfPrefix(address, field);
    assert text[|address| + 1..] == field;
  }

  // Eight-bit forms of the octets in the source's two unit tests.

  lemma Format192() ensures Format08b(192) == "11000000"
  {
    Format08bIs(192, "11000000");
  }


  lemma Format168() ensures Format08b(168) == "10101000"
  {
    Format08bIs(168, "10101000");
  }


  lemma Format200() ensures Format08b(200) == "11001000"
  {
    Format08bIs(200, "11001000");
  }


  lemma Format23() ensures Format08b(23) == "00010111"
  {
    Format08bIs(23, "00010111");
  }


  lemma Format16() ensures Format08b(16) == "00010000"
  {
    Format08bIs(16, "00010000");
  }


  lemma Format1() ensures Format08b(1) == "00000001" { }

  lemma Format0() ensures Format08b(0) == "00000000" { }

  lemma Decimal192() ensures NatToDecimal(192) == "192" { }

  lemma Decimal168() ensures NatToDecimal(168) == "168" { }

  lemma Decimal200() ensures NatToDecimal(200) == "200" { }

  lemma Decimal23() ensures NatToDecimal(23) == "23" { }

  lemma Decimal16() ensures NatToDecimal(16) == "16" { }

  lemma Decimal1() ensures NatToDecimal(1) == "1" { }

  lemma Decimal0() ensures NatToDecimal(0) == "0" { }

  lemma DottedQuad192() ensures DottedQuad(192, 168, 1, 1) == "192.168.1.1"
  {
    Decimal192(); Decimal168(); Decimal1();
    assert Join(["192", "168", "1", "1"], ".") == "192.168.1.1";
  }

  lemma DottedQuad200() ensures DottedQuad(200, 23, 16, 0) == "200.23.16.0"
  {
    Decimal200(); Decimal23(); Decimal16(); Decimal0();
    assert Join(["200", "23", "16", "0"], ".") == "200.23.16.0";
  }

  lemma Concat192()
    ensures "11000000" + "10101000" + "00000001" + "00000001" == "11000000101010000000000100000001"
  {
  }

  lemma Prefix200()
    ensures ("11001000" + "00010111" + "00010000" + "00000000")[..23] == "11001000000101110001000"
  {
  }

  lemma Cidr200() ensures "200.23.16.0" + "/" + NatToDecimal(23) == "200.23.16.0/23" { Decimal23(); }

  /** The unit test of the source: "192.168.1.1". */
  lemma IpToBinaryExample()
    ensures IpToBinary("192.168.1.1") == Success("11000000101010000000000100000001")
  {
    DottedQuad192(); Format192(); Format168(); Format1(); Concat192();
    IpToBinaryOfDottedQuad(192, 168, 1, 1);
  }

  lemma IpToBinary200()
    ensures IpToBinary("200.23.16.0") == Success("11001000" + "00010111" + "00010000" + "00000000")
  {
    DottedQuad200(); Format200(); Format23(); Format16(); Format0();
    IpToBinaryOfDottedQuad(200, 23, 16, 0);
  }

  /** The unit test of the source: "200.23.16.0/23". */
  lemma GetNetworkPrefixExample()
    ensures GetNetworkPrefixBits("200.23.16.0/23") == Success("11001000000101110001000")
  {
    IpToBinary200();
    GetNetworkPrefixOfWellFormed("200.23.16.0", 23);
    Cidr200();
    var info := IpCidrInfo(("11001000" + "00010111" + "00010000" + "00000000")[..23], 23);
    assert GetNetworkPrefix("200.23.16.0/23") == Success(info);
    Prefix200();
  }
}
