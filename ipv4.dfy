/** IPv4 addresses, netmasks and networks as Python's `ipaddress` module
    reads and prints them: dotted-quad notation, the prefix notation of
    section 3.1 of RFC 4632, and the host addresses of a network, which
    leave out the network and broadcast addresses (section 3.2.1.3 of
    RFC 1122) except on /31 and /32 networks (RFC 3021). */
module Ipv4 {
  import opened Wrappers
  import opened Text
  import opened Binary

  const AddressSpace: nat := 0x1_0000_0000

  type Address = a: nat | a < AddressSpace

  /** One decimal octet of a dotted quad: non-empty, ASCII digits only, at
      most three of them, no leading zero, at most 255. */
  function ParseOctet(s: string): (r: Option<nat>)
    ensures r.Some? ==> r.value < 256 && Decimal(r.value) == s
  {
    if s == [] then None
    else if !AllDigits(s) then None
    else if |s| > 3 then None
    else if s != "0" && s[0] == '0' then None
    else if DecimalValue(s) > 255 then None
    else
      DecimalCanonical(s);
      Some(DecimalValue(s))
  }

  lemma ParseOctetOfDecimal(n: nat)
    requires n < 256
    ensures ParseOctet(Decimal(n)) == Some(n)
  {
    DecimalRoundTrip(n);
  }

  function FromOctets(a: nat, b: nat, c: nat, d: nat): Address
    requires a < 256 && b < 256 && c < 256 && d < 256
  {
    a * 0x100_0000 + b * 0x1_0000 + c * 0x100 + d
  }

  /** The four octets of an address, most significant first. */
  function Octets(x: Address): (o: seq<nat>)
    ensures |o| == 4 && forall i :: 0 <= i < 4 ==> o[i] < 256
  {
    [x / 0x100_0000, x / 0x1_0000 % 0x100, x / 0x100 % 0x100, x % 0x100]
  }

  lemma OctetsOfFromOctets(a: nat, b: nat, c: nat, d: nat)
    requires a < 256 && b < 256 && c < 256 && d < 256
    ensures Octets(FromOctets(a, b, c, d)) == [a, b, c, d]
  {
    var x := FromOctets(a, b, c, d);
    var hi := a * 0x1_0000 + b * 0x100 + c;
    DivModUnique(x, 0x100, hi, d);
    DivModUnique(hi, 0x100, a * 0x100 + b, c);
    DivModUnique(a * 0x100 + b, 0x100, a, b);
    DivBy256Twice(x);
    DivBy256Thrice(x);
  }

  lemma FromOctetsOfOctets(x: Address)
    ensures FromOctets(Octets(x)[0], Octets(x)[1], Octets(x)[2], Octets(x)[3]) == x
  {
    DivBy256Twice(x);
    DivBy256Thrice(x);
    assert x == 0x100 * (x / 0x100) + x % 0x100;
    assert x / 0x100 == 0x100 * (x / 0x1_0000) + x / 0x100 % 0x100;
    assert x / 0x1_0000 == 0x100 * (x / 0x100_0000) + x / 0x1_0000 % 0x100;
  }

  lemma DivBy256Twice(y: nat)
    ensures y / 0x100 / 0x100 == y / 0x1_0000
  {
    var q, r, r0 := y / 0x100 / 0x100, y / 0x100 % 0x100, y % 0x100;
    assert y == 0x100 * (y / 0x100) + r0;
    assert y / 0x100 == 0x100 * q + r;
    DivModUnique(y, 0x1_0000, q, 0x100 * r + r0);
  }

  lemma DivBy256Thrice(y: nat)
    ensures y / 0x1_0000 / 0x100 == y / 0x100_0000
  {
    var q, r, r0 := y / 0x1_0000 / 0x100, y / 0x1_0000 % 0x100, y % 0x1_0000;
    assert y == 0x1_0000 * (y / 0x1_0000) + r0;
    assert y / 0x1_0000 == 0x100 * q + r;
    DivModUnique(y, 0x100_0000, q, 0x1_0000 * r + r0);
  }

  /** `IPv4Address(s)` for a string: four dotted octets. */
  function ParseAddress(s: string): (r: Option<Address>)
    ensures r.Some? <==> |Split(s, '.')| == 4 && forall i :: 0 <= i < 4 ==> ParseOctet(Split(s, '.')[i]).Some?
  {
    var parts := Split(s, '.');
    if |parts| != 4 then None
    else
      var o := [ParseOctet(parts[0]), ParseOctet(parts[1]), ParseOctet(parts[2]), ParseOctet(parts[3])];
      if o[0].Some? && o[1].Some? && o[2].Some? && o[3].Some? then
        Some(FromOctets(o[0].value, o[1].value, o[2].value, o[3].value))
      else None
  }

  /** `str(IPv4Address(x))`. */
  function FormatAddress(x: Address): string {
    var o := Octets(x);
    Join([Decimal(o[0]), Decimal(o[1]), Decimal(o[2]), Decimal(o[3])], '.')
  }

  /** Printing then parsing an address gives the address back. */
  lemma ParseFormat(x: Address)
    ensures ParseAddress(FormatAddress(x)) == Some(x)
  {
    var o := Octets(x);
    var parts := [Decimal(o[0]), Decimal(o[1]), Decimal(o[2]), Decimal(o[3])];
    assert forall i :: 0 <= i < 4 ==> '.' !in parts[i] by {
      forall i | 0 <= i < 4 ensures '.' !in parts[i] {
        assert AllDigits(parts[i]);
      }
    }
    SplitJoin(parts, '.');
    ParseOctetOfDecimal(o[0]);
    ParseOctetOfDecimal(o[1]);
    ParseOctetOfDecimal(o[2]);
    ParseOctetOfDecimal(o[3]);
    FromOctetsOfOctets(x);
  }

  /** A string that parses as an address is exactly that address's printed
      form: the parser accepts one spelling per address. */
  lemma FormatParse(s: string)
    requires ParseAddress(s).Some?
    ensures FormatAddress(ParseAddress(s).value) == s
  {
    var parts := Split(s, '.');
    var a, b, c, d := ParseOctet(parts[0]).value, ParseOctet(parts[1]).value,
                      ParseOctet(parts[2]).value, ParseOctet(parts[3]).value;
    OctetsOfFromOctets(a, b, c, d);
    assert parts == [Decimal(a), Decimal(b), Decimal(c), Decimal(d)];
    JoinSplit(s, '.');
  }

  lemma FormatInjective(x: Address, y: Address)
    requires FormatAddress(x) == FormatAddress(y)
    ensures x == y
  {
    ParseFormat(x);
    ParseFormat(y);
  }

  lemma FormatAlphabet(x: Address, c: char)
    requires c != '.' && !IsDigit(c)
    ensures c !in FormatAddress(x)
  {
    var o := Octets(x);
    var parts := [Decimal(o[0]), Decimal(o[1]), Decimal(o[2]), Decimal(o[3])];
    forall i | 0 <= i < 4 ensures c !in parts[i] {
      assert AllDigits(parts[i]);
    }
    NotInJoin(parts, '.', c);
  }

  /** Number of addresses a prefix of this length covers. */
  function HostSpan(prefix: nat): (n: nat)
    requires prefix <= 32
    ensures 1 <= n <= AddressSpace
  {
    Pow2Monotone(32 - prefix, 32);
    Pow2Values();
    Pow2(32 - prefix)
  }

  /** The netmask of a prefix length: `prefix` one bits followed by zeros. */
  function Netmask(prefix: nat): Address
    requires prefix <= 32
  {
    AddressSpace - HostSpan(prefix)
  }

  function PrefixSearch(m: nat, p: nat): (r: Option<nat>)
    requires p <= 33
    ensures r.Some? ==> p <= r.value <= 32 && Netmask(r.value) == m
    ensures r.None? ==> forall q :: p <= q <= 32 ==> Netmask(q) != m
    decreases 33 - p
  {
    if p == 33 then None
    else if Netmask(p) == m then Some(p)
    else PrefixSearch(m, p + 1)
  }

  /** `_prefix_from_ip_int`: the prefix length whose netmask is `m`, if any. */
  function PrefixOfNetmask(m: nat): (r: Option<nat>)
    ensures r.Some? ==> r.value <= 32 && Netmask(r.value) == m
    ensures r.None? ==> forall q :: 0 <= q <= 32 ==> Netmask(q) != m
  {
    PrefixSearch(m, 0)
  }

  /** `_make_netmask` for a string: a prefix length written in decimal, or
      else a dotted netmask, or else a dotted hostmask. */
  function ParseNetmask(s: string): (r: Option<nat>)
    ensures r.Some? ==> r.value <= 32
  {
    if |s| >= 1 && AllDigits(s) && DecimalValue(s) <= 32 then Some(DecimalValue(s))
    else
      match ParseAddress(s)
      case None => None
      case Some(m) =>
        match PrefixOfNetmask(m)
        case Some(p) => Some(p)
        case None => PrefixOfNetmask(AddressSpace - 1 - m)
  }

  /** A network: its first address and its prefix length. */
  datatype Network = Network(address: Address, prefix: nat)

  /** The prefix is a length and the host bits of the address are clear. */
  predicate WellFormed(n: Network) {
    n.prefix <= 32 && n.address % HostSpan(n.prefix) == 0
  }

  /** The address with its host bits cleared. */
  function ClearHostBits(a: Address, prefix: nat): (r: Address)
    requires prefix <= 32
    ensures r <= a && a - r < HostSpan(prefix) && r % HostSpan(prefix) == 0
    ensures a % HostSpan(prefix) == 0 ==> r == a
  {
    var span := HostSpan(prefix);
    RoundDown(a, span);
    a - a % span
  }

  /** Subtracting the remainder leaves a multiple below the number. */
  lemma RoundDown(a: nat, span: nat)
    requires span > 0
    ensures a % span <= a && (a - a % span) % span == 0
  {
    var q := a / span;
    assert a - a % span == q * span;
    MultipleMod(q, span);
  }

  lemma MultipleMod(q: nat, s: nat)
    requires s > 0
    ensures (q * s) % s == 0 && (q * s) / s == q
  {
    DivModUnique(q * s, s, q, 0);
  }

  /** Euclidean division has one quotient and one remainder. */
  lemma DivModUnique(x: int, s: int, d: int, r: int)
    requires s > 0 && 0 <= r < s && x == s * d + r
    ensures x / s == d && x % s == r
  {
    var d', r' := x / s, x % s;
    assert s * d + r == s * d' + r';
    if d > d' {
      MulMonotone(1, d - d', s);
    } else if d < d' {
      MulMonotone(1, d' - d, s);
    }
  }

  /** `IPv4Network(s, strict=False)`: an address with an optional
      `/netmask`; set host bits are cleared rather than refused. */
  function ParseNetwork(s: string): (r: Option<Network>)
    ensures r.Some? ==> WellFormed(r.value)
  {
    var parts := Split(s, '/');
    if |parts| > 2 then None
    else
      var mask := if |parts| == 2 then ParseNetmask(parts[1]) else Some(32);
      match (ParseAddress(parts[0]), mask)
      case (Some(a), Some(p)) => Some(Network(ClearHostBits(a, p), p))
      case _ => None
  }

  /** `str(network)`: the address, a slash and the prefix length. The
      printed form of a well-formed network parses back to it. */
  function FormatNetwork(n: Network): (r: string)
    requires n.prefix <= 32
    ensures WellFormed(n) ==> ParseNetwork(r) == Some(n)
  {
    ParseWithPrefix(n.address, n.prefix);
    FormatAddress(n.address) + "/" + Decimal(n.prefix)
  }

  /** An address written with a prefix length parses to the network the
      address lies in. */
  lemma ParseWithPrefix(a: Address, prefix: nat)
    requires prefix <= 32
    ensures ParseNetwork(FormatAddress(a) + "/" + Decimal(prefix))
         == Some(Network(ClearHostBits(a, prefix), prefix))
  {
    var addr, len := FormatAddress(a), Decimal(prefix);
    SplitAtSlash(a, prefix);
    PrefixLengthParses(prefix);
    ParseFormat(a);
  }

  lemma SplitAtSlash(a: Address, prefix: nat)
    ensures Split(FormatAddress(a) + "/" + Decimal(prefix), '/') == [FormatAddress(a), Decimal(prefix)]
  {
    var addr, len := FormatAddress(a), Decimal(prefix);
    FormatAlphabet(a, '/');
    assert '/' !in len by { assert AllDigits(len); }
    assert addr + "/" + len == Join([addr, len], '/');
    SplitJoin([addr, len], '/');
  }

  lemma PrefixLengthParses(prefix: nat)
    requires prefix <= 32
    ensures ParseNetmask(Decimal(prefix)) == Some(prefix)
  {
    DecimalRoundTrip(prefix);
  }

  /** A well-formed network lies wholly inside the address space. */
  lemma NetworkFits(n: Network)
    requires WellFormed(n)
    ensures n.address + HostSpan(n.prefix) <= AddressSpace
  {
    var span := HostSpan(n.prefix);
    var k := Pow2(n.prefix);
    Pow2Add(32 - n.prefix, n.prefix);
    assert 32 - n.prefix + n.prefix == 32;
    Pow2Values();
    assert span * k == AddressSpace;
    assert k * span == AddressSpace;
    AlignedFits(n.address, span, k);
  }

  lemma AlignedFits(a: nat, span: nat, k: nat)
    requires span > 0 && a < k * span && a % span == 0
    ensures a + span <= k * span
  {
    var q := a / span;
    assert a == q * span;
    if q >= k {
      MulMonotone(k, q, span);
    }
    MulMonotone(q + 1, k, span);
    assert (q + 1) * span == q * span + span;
  }

  lemma MulMonotone(a: nat, b: nat, c: nat)
    requires a <= b
    ensures a * c <= b * c
  {
  }

  /** The broadcast address: the last address of the network. */
  function Broadcast(n: Network): Address
    requires WellFormed(n)
  {
    NetworkFits(n);
    n.address + HostSpan(n.prefix) - 1
  }

  /** The addresses from `lo` up to but excluding `hi`, in order. */
  function Range(lo: nat, hi: nat): (r: seq<nat>)
    ensures |r| == if lo <= hi then hi - lo else 0
    ensures forall i :: 0 <= i < |r| ==> r[i] == lo + i
    ensures forall x :: x in r <==> lo <= x < hi
    decreases hi - lo
  {
    if lo >= hi then [] else [lo] + Range(lo + 1, hi)
  }

  /** `IPv4Network.hosts()`: ascending, hence distinct, and inside the
      address space. On prefixes up to 30 they are the addresses strictly
      between the network and broadcast addresses; on /31 both addresses;
      on /32 the one address. */
  function Hosts(n: Network): (r: seq<nat>)
    requires WellFormed(n)
    ensures forall i, j :: 0 <= i < j < |r| ==> r[i] < r[j]
    ensures forall x :: x in r <==>
      if n.prefix <= 30 then n.address < x < Broadcast(n)
      else n.address <= x <= Broadcast(n)
    ensures forall x :: x in r ==> x < AddressSpace
  {
    NetworkFits(n);
    if n.prefix == 32 then
      assert HostSpan(32) == 1;
      [n.address]
    else if n.prefix == 31 then
      assert HostSpan(31) == 2 by { assert Pow2(1) == 2; }
      [n.address, n.address + 1]
    else
      Range(n.address + 1, Broadcast(n))
  }

  /** How many hosts a network has: 2^(32-prefix) - 2, except 2 on a /31
      and 1 on a /32. */
  lemma HostsCount(n: Network)
    requires WellFormed(n)
    ensures |Hosts(n)| == if n.prefix == 32 then 1
                          else if n.prefix == 31 then 2
                          else HostSpan(n.prefix) - 2
  {
    if n.prefix <= 30 {
      Pow2Monotone(1, 32 - n.prefix);
      assert Pow2(1) == 2;
    }
  }
}
