/** Dotted subnet masks as the validators and the CIDR conversion read them:
    every dot-separated part goes through `int()`, is printed with
    `bin(...)[2:].zfill(8)`, and the pieces are concatenated into one bit
    string. Also the dotted mask of each prefix length, and the facts that
    tie the two together. */
module SubnetMask {
  import opened Wrappers
  import opened Text
  import opened Binary
  import opened Ipv4

  /** `''.join(bin(int(o))[2:].zfill(8) for o in parts)`; `None` when some
      part is not an integer (`int()` raises). */
  function BitsOfParts(parts: seq<string>): (r: Option<string>)
    ensures r.Some? ==> |r.value| >= 8 * |parts|
  {
    if parts == [] then Some("")
    else
      match (ParseInt(parts[0]), BitsOfParts(parts[1..]))
      case (Some(n), Some(rest)) => Some(OctetBits(n) + rest)
      case (_, _) => None
  }

  /** The conversion fails exactly when some part is not an integer. */
  lemma {:induction false} BitsOfPartsDefined(parts: seq<string>)
    ensures BitsOfParts(parts).Some? <==> forall i :: 0 <= i < |parts| ==> ParseInt(parts[i]).Some?
    decreases |parts|
  {
    if parts != [] {
      BitsOfPartsDefined(parts[1..]);
      AllPartsParse(parts);
    }
  }

  lemma AllPartsParse(parts: seq<string>)
    requires parts != []
    ensures (forall i :: 0 <= i < |parts| ==> ParseInt(parts[i]).Some?)
        <==> ParseInt(parts[0]).Some? && forall i :: 0 <= i < |parts[1..]| ==> ParseInt(parts[1..][i]).Some?
  {
    assert forall i :: 1 <= i < |parts| ==> parts[i] == parts[1..][i - 1];
  }

  /** The bit string of a dotted mask, eight bits or more per part. It
      exists exactly when every part is an integer for `int()`. */
  function MaskBits(mask: string): (r: Option<string>)
    ensures r.Some? <==> forall i :: 0 <= i < |Split(mask, '.')| ==> ParseInt(Split(mask, '.')[i]).Some?
    ensures r.Some? ==> |r.value| >= 8 * |Split(mask, '.')|
  {
    BitsOfPartsDefined(Split(mask, '.'));
    BitsOfParts(Split(mask, '.'))
  }

  /** The value of an octet whose top `c` bits are set and the rest clear. */
  function MaskOctet(c: nat): nat
    requires c <= 8
  {
    Pow2Monotone(8 - c, 8);
    Pow2Values();
    0x100 - Pow2(8 - c)
  }

  /** How many of octet `j`'s bits a prefix of length `k` covers. */
  function CoveredBits(k: nat, j: nat): (c: nat)
    ensures c <= 8
  {
    if k >= 8 * (j + 1) then 8 else if k <= 8 * j then 0 else k - 8 * j
  }

  /** `str(IPv4Network(...).netmask)`: the dotted netmask of a prefix length. */
  function PrefixMask(k: nat): string
    requires k <= 32
  {
    FormatAddress(Netmask(k))
  }

  /** The eight-bit form of a mask octet is ones followed by zeros. */
  lemma MaskOctetBits(c: nat)
    requires c <= 8
    ensures MaskOctet(c) < 256
    ensures OctetBits(MaskOctet(c)) == Repeat('1', c) + Repeat('0', 8 - c)
  {
    var o := MaskOctet(c);
    var t := Repeat('1', c) + Repeat('0', 8 - c);
    MaskOctetValue(c);
    OctetBitsValue(o);
    BitsValueInjective(OctetBits(o), t);
  }

  /** `1^c 0^(8-c)` read as a binary number is the mask octet of `c`. */
  lemma MaskOctetValue(c: nat)
    requires c <= 8
    ensures MaskOctet(c) < 256
    ensures |Repeat('1', c) + Repeat('0', 8 - c)| == 8
    ensures AllBits(Repeat('1', c) + Repeat('0', 8 - c))
    ensures BitsValue(Repeat('1', c) + Repeat('0', 8 - c)) == MaskOctet(c)
  {
    var z := 8 - c;
    var ones, zeros := Repeat('1', c), Repeat('0', z);
    ContiguousNoZeroOne(c, z);
    OnesValue(c);
    ZerosValue(z);
    BitsValueAppend(ones, zeros);
    var p, q := Pow2(c), Pow2(z);
    assert BitsValue(ones + zeros) == (p - 1) * q;
    ProductIsOctetSpan(c, z);
    SubOneTimes(p, q);
  }

  lemma ProductIsOctetSpan(c: nat, z: nat)
    requires c + z == 8
    ensures Pow2(c) * Pow2(z) == 0x100
    ensures MaskOctet(c) == 0x100 - Pow2(z)
  {
    Pow2Add(c, z);
    Pow2Values();
  }

  lemma SubOneTimes(p: nat, q: nat)
    requires p >= 1
    ensures (p - 1) * q == p * q - q
  {
  }

  lemma OctetBitsValueUnique(o: nat, c: nat)
    requires o < 256 && c <= 8
    requires OctetBits(o) == Repeat('1', c) + Repeat('0', 8 - c)
    ensures o == MaskOctet(c)
  {
    MaskOctetBits(c);
    OctetBitsValue(o);
    OctetBitsValue(MaskOctet(c));
  }

  /** The eight bits of octet `j` of the string `1^k 0^(32-k)`. */
  lemma ContiguousSlice(k: nat, j: nat)
    requires k <= 32 && j < 4
    ensures (Repeat('1', k) + Repeat('0', 32 - k))[8 * j..8 * j + 8]
         == Repeat('1', CoveredBits(k, j)) + Repeat('0', 8 - CoveredBits(k, j))
  {
    var s := Repeat('1', k) + Repeat('0', 32 - k);
    var c := CoveredBits(k, j);
    var t := Repeat('1', c) + Repeat('0', 8 - c);
    assert forall i :: 0 <= i < 8 ==> s[8 * j..8 * j + 8][i] == t[i];
  }

  /** A 32-bit string is its four 8-bit slices, concatenated. */
  lemma FourSlices(s: string)
    requires |s| == 32
    ensures s == s[0..8] + (s[8..16] + (s[16..24] + (s[24..32] + "")))
  {
    assert s[24..] == s[24..32] + "";
    assert s[16..] == s[16..24] + s[24..];
    assert s[8..] == s[8..16] + s[16..];
    assert s == s[0..8] + s[8..];
  }

  /** The bit string of a dotted quad of four parts that parse as integers. */
  lemma BitsOfFour(a: nat, b: nat, c: nat, d: nat)
    ensures BitsOfParts([Decimal(a), Decimal(b), Decimal(c), Decimal(d)])
         == Some(OctetBits(a) + (OctetBits(b) + (OctetBits(c) + (OctetBits(d) + ""))))
  {
    var parts := [Decimal(a), Decimal(b), Decimal(c), Decimal(d)];
    ParseIntOfDecimal(a);
    ParseIntOfDecimal(b);
    ParseIntOfDecimal(c);
    ParseIntOfDecimal(d);
    var p1 := parts[1..];
    var p2 := p1[1..];
    var p3 := p2[1..];
    assert p3[1..] == [];
    BitsOfCons(p3, d, "");
    BitsOfCons(p2, c, OctetBits(d) + "");
    BitsOfCons(p1, b, OctetBits(c) + (OctetBits(d) + ""));
    BitsOfCons(parts, a, OctetBits(b) + (OctetBits(c) + (OctetBits(d) + "")));
  }

  /** Four numerals joined with dots split back into the four. */
  lemma SplitDecimals(a: nat, b: nat, c: nat, d: nat)
    ensures Split(Join([Decimal(a), Decimal(b), Decimal(c), Decimal(d)], '.'), '.')
         == [Decimal(a), Decimal(b), Decimal(c), Decimal(d)]
  {
    SplitDigitQuad(Decimal(a), Decimal(b), Decimal(c), Decimal(d));
  }

  lemma SplitDigitQuad(p0: string, p1: string, p2: string, p3: string)
    requires AllDigits(p0) && AllDigits(p1) && AllDigits(p2) && AllDigits(p3)
    ensures Split(Join([p0, p1, p2, p3], '.'), '.') == [p0, p1, p2, p3]
  {
    var parts := [p0, p1, p2, p3];
    forall i | 0 <= i < 4 ensures '.' !in parts[i] {
      assert AllDigits(parts[i]);
    }
    SplitJoin(parts, '.');
  }

  /** One step of the conversion: the first part's bits, then the rest's. */
  lemma BitsOfCons(parts: seq<string>, n: int, rest: string)
    requires |parts| >= 1 && ParseInt(parts[0]) == Some(n) && BitsOfParts(parts[1..]) == Some(rest)
    ensures BitsOfParts(parts) == Some(OctetBits(n) + rest)
  {
  }

  /** The bit string of a printed address is the eight-bit forms of its
      octets, in order. */
  lemma FormatBits(x: Address)
    ensures MaskBits(FormatAddress(x)) == Some(OctetBits(Octets(x)[0]) + (OctetBits(Octets(x)[1])
              + (OctetBits(Octets(x)[2]) + (OctetBits(Octets(x)[3]) + ""))))
  {
    var o := Octets(x);
    SplitDecimals(o[0], o[1], o[2], o[3]);
    BitsOfFour(o[0], o[1], o[2], o[3]);
  }

  /** The octets of the netmask of prefix `k`. */
  lemma NetmaskOctetList(k: nat)
    requires k <= 32
    ensures Octets(Netmask(k)) == [MaskOctet(CoveredBits(k, 0)), MaskOctet(CoveredBits(k, 1)),
                                   MaskOctet(CoveredBits(k, 2)), MaskOctet(CoveredBits(k, 3))]
  {
    var a, b, c, d := MaskOctet(CoveredBits(k, 0)), MaskOctet(CoveredBits(k, 1)),
                      MaskOctet(CoveredBits(k, 2)), MaskOctet(CoveredBits(k, 3));
    MaskOctetBits(CoveredBits(k, 0));
    MaskOctetBits(CoveredBits(k, 1));
    MaskOctetBits(CoveredBits(k, 2));
    MaskOctetBits(CoveredBits(k, 3));
    NetmaskOctets(k);
    OctetsOf(Netmask(k), a, b, c, d);
  }

  /** An octet whose eight bits are slice `j` of `1^k 0^(32-k)` is the
      corresponding octet of the netmask. */
  lemma OctetOfContiguous(k: nat, j: nat, oj: nat)
    requires k <= 32 && j < 4 && oj < 256
    requires OctetBits(oj) == (Repeat('1', k) + Repeat('0', 32 - k))[8 * j..8 * j + 8]
    ensures oj == MaskOctet(CoveredBits(k, j))
  {
    ContiguousSlice(k, j);
    OctetBitsValueUnique(oj, CoveredBits(k, j));
  }

  lemma FourSlicesOf(s: string, a: string, b: string, c: string, d: string)
    requires |a| == 8 && |b| == 8 && |c| == 8 && |d| == 8
    requires s == a + (b + (c + (d + "")))
    ensures s[0..8] == a && s[8..16] == b && s[16..24] == c && s[24..32] == d
  {
  }

  lemma OctetsOf(x: Address, a: nat, b: nat, c: nat, d: nat)
    requires a < 256 && b < 256 && c < 256 && d < 256
    requires x == FromOctets(a, b, c, d)
    ensures Octets(x) == [a, b, c, d]
  {
    OctetsOfFromOctets(a, b, c, d);
  }

  /** The bit string of the dotted mask of prefix `k` is `1^k 0^(32-k)`. */
  lemma PrefixMaskBits(k: nat)
    requires k <= 32
    ensures MaskBits(PrefixMask(k)) == Some(Repeat('1', k) + Repeat('0', 32 - k))
  {
    NetmaskOctetList(k);
    FormatBits(Netmask(k));
    MaskOctetsJoin(k);
  }

  /** The eight-bit forms of the four netmask octets spell `1^k 0^(32-k)`. */
  lemma MaskOctetsJoin(k: nat)
    requires k <= 32
    ensures OctetBits(MaskOctet(CoveredBits(k, 0))) + (OctetBits(MaskOctet(CoveredBits(k, 1)))
            + (OctetBits(MaskOctet(CoveredBits(k, 2))) + (OctetBits(MaskOctet(CoveredBits(k, 3))) + "")))
         == Repeat('1', k) + Repeat('0', 32 - k)
  {
    var s := Repeat('1', k) + Repeat('0', 32 - k);
    MaskOctetSlice(k, 0);
    MaskOctetSlice(k, 1);
    MaskOctetSlice(k, 2);
    MaskOctetSlice(k, 3);
    FourSlices(s);
  }

  lemma MaskOctetSlice(k: nat, j: nat)
    requires k <= 32 && j < 4
    ensures OctetBits(MaskOctet(CoveredBits(k, j))) == (Repeat('1', k) + Repeat('0', 32 - k))[8 * j..8 * j + 8]
  {
    MaskOctetBits(CoveredBits(k, j));
    ContiguousSlice(k, j);
  }

  lemma NetmaskOctets(k: nat)
    requires k <= 32
    ensures FromOctets(MaskOctet(CoveredBits(k, 0)), MaskOctet(CoveredBits(k, 1)),
                       MaskOctet(CoveredBits(k, 2)), MaskOctet(CoveredBits(k, 3))) == Netmask(k)
  {
    if k <= 8 {
      NetmaskFirstOctet(k);
    } else if k <= 16 {
      NetmaskSecondOctet(k);
    } else if k <= 24 {
      NetmaskThirdOctet(k);
    } else {
      NetmaskFourthOctet(k);
    }
  }

  lemma NetmaskFirstOctet(k: nat)
    requires k <= 8
    ensures FromOctets(MaskOctet(k), 0, 0, 0) == Netmask(k)
  {
    Pow2Values();
    Pow2Add(8 - k, 24);
    assert MaskOctet(k) * 0x100_0000 == 0x1_0000_0000 - Pow2(8 - k) * 0x100_0000;
  }

  lemma NetmaskSecondOctet(k: nat)
    requires 8 < k <= 16
    ensures FromOctets(0xff, MaskOctet(k - 8), 0, 0) == Netmask(k)
  {
    Pow2Values();
    Pow2Add(16 - k, 16);
    assert MaskOctet(k - 8) * 0x1_0000 == 0x100_0000 - Pow2(16 - k) * 0x1_0000;
  }

  lemma NetmaskThirdOctet(k: nat)
    requires 16 < k <= 24
    ensures FromOctets(0xff, 0xff, MaskOctet(k - 16), 0) == Netmask(k)
  {
    Pow2Values();
    Pow2Add(24 - k, 8);
    assert MaskOctet(k - 16) * 0x100 == 0x1_0000 - Pow2(24 - k) * 0x100;
  }

  lemma NetmaskFourthOctet(k: nat)
    requires 24 < k <= 32
    ensures FromOctets(0xff, 0xff, 0xff, MaskOctet(k - 24)) == Netmask(k)
  {
    Pow2Values();
    assert MaskOctet(k - 24) == 0x100 - Pow2(32 - k);
  }

  /** A dotted quad whose bit string has no "01" is the dotted netmask of its
      number of one bits. */
  lemma ContiguousMaskIsPrefixMask(mask: string)
    requires ParseAddress(mask).Some?
    requires MaskBits(mask).Some? && !Contains(MaskBits(mask).value, "01")
    ensures CountChar(MaskBits(mask).value, '1') <= 32
    ensures mask == PrefixMask(CountChar(MaskBits(mask).value, '1'))
  {
    var x := ParseAddress(mask).value;
    FormatParse(mask);
    FormatBits(x);
    ContiguousAddress(x);
  }

  lemma ContiguousAddress(x: Address)
    requires MaskBits(FormatAddress(x)).Some? && !Contains(MaskBits(FormatAddress(x)).value, "01")
    ensures CountChar(MaskBits(FormatAddress(x)).value, '1') <= 32
    ensures x == Netmask(CountChar(MaskBits(FormatAddress(x)).value, '1'))
  {
    var o := Octets(x);
    FormatBits(x);
    var k := ContiguousOctets(o[0], o[1], o[2], o[3]);
    FromOctetsOfOctets(x);
    FromOctetsOfOctets(Netmask(k));
  }

  /** Four octets whose eight-bit forms, concatenated, contain no "01" are
      the octets of the netmask of their number of one bits. */
  lemma ContiguousOctets(a: nat, b: nat, c: nat, d: nat) returns (k: nat)
    requires a < 256 && b < 256 && c < 256 && d < 256
    requires !Contains(OctetBits(a) + (OctetBits(b) + (OctetBits(c) + (OctetBits(d) + ""))), "01")
    ensures k == CountChar(OctetBits(a) + (OctetBits(b) + (OctetBits(c) + (OctetBits(d) + ""))), '1')
    ensures k <= 32 && [a, b, c, d] == Octets(Netmask(k))
  {
    OctetBitsValue(a);
    OctetBitsValue(b);
    OctetBitsValue(c);
    OctetBitsValue(d);
    k := ContiguousQuad(OctetBits(a), OctetBits(b), OctetBits(c), OctetBits(d));
    OctetOfContiguous(k, 0, a);
    OctetOfContiguous(k, 1, b);
    OctetOfContiguous(k, 2, c);
    OctetOfContiguous(k, 3, d);
    NetmaskOctetList(k);
  }

  /** Four eight-bit strings that together contain no "01" are the four
      slices of `1^k 0^(32-k)`. */
  lemma ContiguousQuad(w: string, x: string, y: string, z: string) returns (k: nat)
    requires |w| == 8 && |x| == 8 && |y| == 8 && |z| == 8
    requires AllBits(w) && AllBits(x) && AllBits(y) && AllBits(z)
    requires !Contains(w + (x + (y + (z + ""))), "01")
    ensures k == CountChar(w + (x + (y + (z + ""))), '1') && k <= 32
    ensures w == (Repeat('1', k) + Repeat('0', 32 - k))[0..8]
    ensures x == (Repeat('1', k) + Repeat('0', 32 - k))[8..16]
    ensures y == (Repeat('1', k) + Repeat('0', 32 - k))[16..24]
    ensures z == (Repeat('1', k) + Repeat('0', 32 - k))[24..32]
  {
    var bits := w + (x + (y + (z + "")));
    assert AllBits(bits);
    NoZeroOneIsContiguous(bits);
    k := CountChar(bits, '1');
    FourSlicesOf(bits, w, x, y, z);
  }

  /** A dotted prefix mask is read back as its prefix length, as
      `IPv4Network` reads the part after the slash. */
  lemma ParseNetmaskOfPrefixMask(k: nat)
    requires k <= 32
    ensures ParseNetmask(PrefixMask(k)) == Some(k)
  {
    var x := Netmask(k);
    ParseFormat(x);
    DotInFormat(x);
    var p := PrefixOfNetmask(x);
    assert p.Some?;
    NetmaskInjective(p.value, k);
  }

  /** A printed address is not a decimal numeral. */
  lemma DotInFormat(x: Address)
    ensures !AllDigits(FormatAddress(x))
  {
    var o := Octets(x);
    var parts := [Decimal(o[0]), Decimal(o[1]), Decimal(o[2]), Decimal(o[3])];
    assert FormatAddress(x) == parts[0] + ['.'] + Join(parts[1..], '.');
    assert FormatAddress(x)[|parts[0]|] == '.';
  }

  /** Distinct prefix lengths have distinct netmasks. */
  lemma NetmaskInjective(p: nat, q: nat)
    requires p <= 32 && q <= 32 && Netmask(p) == Netmask(q)
    ensures p == q
  {
    if p < q {
      Pow2StrictlyMonotone(32 - q, 32 - p);
    } else if q < p {
      Pow2StrictlyMonotone(32 - p, 32 - q);
    }
  }

  /** The dotted mask of /24. */
  lemma SampleMaskText(k: nat)
    requires k == 24
    ensures PrefixMask(k) == "255.255.255.0"
  {
    NetmaskOctetList(k);
    Pow2Values();
    assert MaskOctet(8) == 255 && MaskOctet(0) == 0;
    var o := Octets(Netmask(k));
    assert o == [255, 255, 255, 0];
    assert Decimal(255) == "255";
    assert Decimal(0) == "0";
    var parts := ["255", "255", "255", "0"];
    assert PrefixMask(k) == Join(parts, '.');
    assert Join(parts[3..], '.') == "0";
    assert Join(parts[2..], '.') == "255.0";
    assert Join(parts[1..], '.') == "255.255.0";
  }
}
