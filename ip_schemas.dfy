/** The field validators of the address-pool and address-record request
    schemas. Each validator hands back its input unchanged when it accepts
    it, and names the field's error otherwise. */
module IpSchemas {
  import opened Wrappers
  import opened Text
  import opened Binary
  import opened Ipv4
  import opened SubnetMask
  import opened Records

  datatype FieldError =
    | InvalidNetwork
    | InvalidGateway
    | InvalidSubnetMask
    | InvalidDnsServer(entry: string)
    | InvalidIpAddress
    | InvalidStatus
    | InvalidMacAddress

  /** `IPv4Network(v, strict=False)` succeeds. */
  function ValidateNetwork(v: string): (r: Result<string, FieldError>)
    ensures r.Ok? <==> ParseNetwork(v).Some?
    ensures r.Ok? ==> r.value == v
    ensures r.Err? ==> r.error == InvalidNetwork
  {
    if ParseNetwork(v).Some? then Ok(v) else Err(InvalidNetwork)
  }

  /** Host bits are not refused: an address with any prefix length passes. */
  lemma NetworkAcceptsHostBits(a: Address, prefix: nat)
    requires prefix <= 32
    ensures ValidateNetwork(FormatAddress(a) + "/" + Decimal(prefix)) == Ok(FormatAddress(a) + "/" + Decimal(prefix))
  {
    ParseWithPrefix(a, prefix);
  }

  /** `IPv4Address(v)` succeeds: the gateway check of the pool schemas. */
  function ValidateGateway(v: string): (r: Result<string, FieldError>)
    ensures r.Ok? <==> ParseAddress(v).Some?
    ensures r.Ok? ==> r.value == v
    ensures r.Err? ==> r.error == InvalidGateway
  {
    if ParseAddress(v).Some? then Ok(v) else Err(InvalidGateway)
  }

  /** `IPv4Address(v)` succeeds: the address check of the record,
      allocation and reservation schemas. */
  function ValidateIpAddress(v: string): (r: Result<string, FieldError>)
    ensures r.Ok? <==> ParseAddress(v).Some?
    ensures r.Ok? ==> r.value == v
    ensures r.Err? ==> r.error == InvalidIpAddress
  {
    if ParseAddress(v).Some? then Ok(v) else Err(InvalidIpAddress)
  }

  /** The address validators accept exactly the printed forms of addresses. */
  lemma AddressValidatorsAcceptPrinted(v: string)
    ensures ValidateIpAddress(v).Ok? <==> exists x: Address :: FormatAddress(x) == v
    ensures ValidateGateway(v).Ok? <==> ValidateIpAddress(v).Ok?
  {
    if ParseAddress(v).Some? {
      FormatParse(v);
    }
    forall x: Address | FormatAddress(x) == v ensures ParseAddress(v).Some? {
      ParseFormat(x);
    }
  }

  /** The update schema checks a gateway only when one is given. */
  function ValidateGatewayUpdate(v: Option<string>): (r: Result<Option<string>, FieldError>)
    ensures v.None? ==> r == Ok(None)
    ensures v.Some? ==> (r.Ok? <==> ValidateGateway(v.value).Ok?)
    ensures r.Ok? ==> r.value == v
  {
    match v
    case None => Ok(None)
    case Some(s) =>
      match ValidateGateway(s)
      case Ok(_) => Ok(v)
      case Err(e) => Err(e)
  }

  /** `IPPoolCreate.is_active`: a new pool is active unless said otherwise. */
  function PoolIsActive(isActive: Option<bool>): (r: bool)
    ensures isActive.None? ==> r
    ensures isActive.Some? ==> r == isActive.value
  {
    isActive.GetOr(true)
  }

  /** The subnet-mask check: exactly four dot-separated parts, each one an
      integer for `int()`, and no "01" in the concatenation of their
      eight-bit forms. */
  function ValidateSubnetMask(v: string): (r: Result<string, FieldError>)
    ensures r.Ok? <==> |Split(v, '.')| == 4 && MaskBits(v).Some? && !Contains(MaskBits(v).value, "01")
    ensures r.Ok? ==> r.value == v
    ensures r.Err? ==> r.error == InvalidSubnetMask
  {
    if |Split(v, '.')| != 4 then Err(InvalidSubnetMask)
    else
      match MaskBits(v)
      case None => Err(InvalidSubnetMask)
      case Some(bits) => if Contains(bits, "01") then Err(InvalidSubnetMask) else Ok(v)
  }

  /** A mask is refused when some part is not an integer. */
  lemma SubnetMaskNeedsIntegers(v: string, i: nat)
    requires i < |Split(v, '.')| && ParseInt(Split(v, '.')[i]).None?
    ensures ValidateSubnetMask(v) == Err(InvalidSubnetMask)
  {
    BitsOfPartsDefined(Split(v, '.'));
  }

  /** Every prefix length's dotted netmask is accepted. */
  lemma SubnetMaskAcceptsPrefixMasks(k: nat)
    requires k <= 32
    ensures ValidateSubnetMask(PrefixMask(k)) == Ok(PrefixMask(k))
  {
    PrefixMaskBits(k);
    ContiguousNoZeroOne(k, 32 - k);
    ParseFormat(Netmask(k));
  }

  /** On dotted quads, whose octets are at most 255, the check accepts
      exactly the netmasks. */
  lemma SubnetMaskOnDottedQuads(v: string)
    requires ParseAddress(v).Some?
    ensures ValidateSubnetMask(v).Ok? <==> exists k :: 0 <= k <= 32 && ParseAddress(v).value == Netmask(k)
  {
    if ValidateSubnetMask(v).Ok? {
      var k := AcceptedDottedQuadIsNetmask(v);
    }
    if exists k :: 0 <= k <= 32 && ParseAddress(v).value == Netmask(k) {
      var k :| 0 <= k <= 32 && ParseAddress(v).value == Netmask(k);
      FormatParse(v);
      SubnetMaskAcceptsPrefixMasks(k);
    }
  }

  lemma AcceptedDottedQuadIsNetmask(v: string) returns (k: nat)
    requires ParseAddress(v).Some? && ValidateSubnetMask(v).Ok?
    ensures k <= 32 && ParseAddress(v).value == Netmask(k)
  {
    ContiguousMaskIsPrefixMask(v);
    k := CountChar(MaskBits(v).value, '1');
    ParseFormat(Netmask(k));
  }

  /** Octets above 255 are not range-checked: "256.0.0.0" is accepted, yet
      it is no address. */
  lemma SubnetMaskAcceptsOctet256()
    ensures ValidateSubnetMask("256.0.0.0").Ok?
    ensures ParseAddress("256.0.0.0").None?
  {
    Octet256Accepted();
    Octet256NoAddress();
  }

  lemma Octet256Accepted()
    ensures ValidateSubnetMask("256.0.0.0").Ok?
  {
    var parts := Octet256Parts();
    Pow2Values();
    PowerOfTwoFirstOctet(8, 0);
    AcceptContiguousBits("256.0.0.0", 1, 32);
  }

  /** A mask of four parts whose bits are ones then zeros passes. */
  lemma AcceptContiguousBits(v: string, k: nat, m: nat)
    requires |Split(v, '.')| == 4 && MaskBits(v) == Some(Repeat('1', k) + Repeat('0', m))
    ensures ValidateSubnetMask(v).Ok?
  {
    ContiguousNoZeroOne(k, m);
  }

  /** The bits of a first part of `2^j` followed by three zeros; `z` stands
      for the zero octet. */
  lemma PowerOfTwoFirstOctet(j: nat, z: nat)
    requires j >= 8 && z == 0
    ensures Split(Join([Decimal(Pow2(j)), Decimal(z), Decimal(z), Decimal(z)], '.'), '.')
         == [Decimal(Pow2(j)), Decimal(z), Decimal(z), Decimal(z)]
    ensures MaskBits(Join([Decimal(Pow2(j)), Decimal(z), Decimal(z), Decimal(z)], '.'))
         == Some(Repeat('1', 1) + Repeat('0', j + 24))
  {
    PowerOfTwoOctetBits(j, z);
    FirstOctetThenZeros(Pow2(j), z, Repeat('1', 1) + Repeat('0', j + 24));
  }

  /** A mask written as one number and three zeros converts to the bits of
      that number followed by 24 zeros. */
  lemma FirstOctetThenZeros(n: nat, z: nat, bits: string)
    requires z == 0 && OctetBits(n) + (OctetBits(z) + (OctetBits(z) + (OctetBits(z) + ""))) == bits
    ensures Split(Join([Decimal(n), Decimal(z), Decimal(z), Decimal(z)], '.'), '.')
         == [Decimal(n), Decimal(z), Decimal(z), Decimal(z)]
    ensures MaskBits(Join([Decimal(n), Decimal(z), Decimal(z), Decimal(z)], '.')) == Some(bits)
  {
    SplitDecimals(n, z, z, z);
    BitsOfFour(n, z, z, z);
  }

  lemma PowerOfTwoOctetBits(j: nat, z: nat)
    requires j >= 8 && z == 0
    ensures OctetBits(Pow2(j)) + (OctetBits(z) + (OctetBits(z) + (OctetBits(z) + "")))
         == Repeat('1', 1) + Repeat('0', j + 24)
  {
    BinOfPow2(j);
    assert OctetBits(Pow2(j)) == Repeat('1', 1) + Repeat('0', j);
    assert OctetBits(z) == Repeat('0', 8);
    OneThenZeros(j);
  }

  lemma OneThenZeros(j: nat)
    ensures (Repeat('1', 1) + Repeat('0', j)) + (Repeat('0', 8) + (Repeat('0', 8) + (Repeat('0', 8) + "")))
         == Repeat('1', 1) + Repeat('0', j + 24)
  {
    var z8 := Repeat('0', 8);
    assert z8 + "" == z8;
    RepeatAdd('0', 8, 8);
    RepeatAdd('0', 8, 16);
    RepeatAdd('0', j, 24);
  }

  lemma Octet256NoAddress()
    ensures ParseAddress("256.0.0.0").None?
  {
    var parts := Octet256Parts();
    ParseOctetAbove255(256);
    assert ParseOctet(parts[0]).None?;
  }

  lemma Octet256Parts() returns (parts: seq<string>)
    ensures parts == [Decimal(256), Decimal(0), Decimal(0), Decimal(0)]
    ensures Split("256.0.0.0", '.') == parts
  {
    parts := [Decimal(256), Decimal(0), Decimal(0), Decimal(0)];
    assert Decimal(256) == "256";
    assert "256.0.0.0" == Join(parts, '.');
    forall i | 0 <= i < 4 ensures '.' !in parts[i] {
      assert AllDigits(parts[i]);
    }
    SplitJoin(parts, '.');
  }

  lemma ParseOctetAbove255(n: nat)
    requires n > 255
    ensures ParseOctet(Decimal(n)).None?
  {
    DecimalRoundTrip(n);
  }

  /** An entry of a DNS list that is an address once stripped. */
  predicate IsDnsEntry(e: string) {
    ParseAddress(Strip(e)).Some?
  }

  /** `validate_dns_servers`: every comma-separated entry, stripped, is an
      address; the error names the first entry that is not, unstripped. */
  function ValidateDnsServers(v: string): (r: Result<string, FieldError>)
    ensures r.Ok? <==> forall i :: 0 <= i < |Split(v, ',')| ==> IsDnsEntry(Split(v, ',')[i])
    ensures r.Ok? ==> r.value == v
    ensures r.Err? ==> r.error.InvalidDnsServer? && r.error.entry in Split(v, ',')
                       && !IsDnsEntry(r.error.entry)
    ensures r.Err? ==> exists i :: 0 <= i < |Split(v, ',')| && r.error.entry == Split(v, ',')[i]
                                   && forall j :: 0 <= j < i ==> IsDnsEntry(Split(v, ',')[j])
  {
    var entries := Split(v, ',');
    match FirstFailing(entries, IsDnsEntry)
    case None => Ok(v)
    case Some(i) => Err(InvalidDnsServer(entries[i]))
  }

  /** The addresses printed and joined with commas form an accepted list. */
  lemma DnsAcceptsPrintedList(xs: seq<Address>)
    requires |xs| >= 1
    ensures ValidateDnsServers(Join(seq(|xs|, i requires 0 <= i < |xs| => FormatAddress(xs[i])), ','))
         .Ok?
  {
    var parts := seq(|xs|, i requires 0 <= i < |xs| => FormatAddress(xs[i]));
    forall i | 0 <= i < |parts| ensures ',' !in parts[i] && IsDnsEntry(parts[i]) {
      FormatAlphabet(xs[i], ',');
      StripPrinted(xs[i]);
      ParseFormat(xs[i]);
    }
    SplitJoin(parts, ',');
  }

  /** A printed address has no surrounding white space. */
  lemma StripPrinted(x: Address)
    ensures Strip(FormatAddress(x)) == FormatAddress(x)
  {
    var s := FormatAddress(x);
    forall c | IsSpace(c) ensures c !in s {
      FormatAlphabet(x, c);
    }
    StripNoSpace(s);
  }

  /** The empty string is refused, naming the empty entry. */
  lemma DnsRejectsEmpty()
    ensures ValidateDnsServers("") == Err(InvalidDnsServer(""))
  {
    EmptyNotDnsEntry();
    var entries := Split("", ',');
    assert entries == [""];
    assert FirstFailing(entries, IsDnsEntry) == Some(0);
  }

  lemma EmptyNotDnsEntry()
    ensures !IsDnsEntry("")
  {
    assert Strip("") == "";
    assert |Split("", '.')| == 1;
  }

  /** The update schema checks a DNS list only when one is given. */
  function ValidateDnsServersUpdate(v: Option<string>): (r: Result<Option<string>, FieldError>)
    ensures v.None? ==> r == Ok(None)
    ensures v.Some? ==> (r.Ok? <==> ValidateDnsServers(v.value).Ok?)
    ensures r.Ok? ==> r.value == v
  {
    match v
    case None => Ok(None)
    case Some(s) =>
      match ValidateDnsServers(s)
      case Ok(_) => Ok(v)
      case Err(e) => Err(e)
  }

  /** `validate_status`: one of the three stored status names. */
  function ValidateStatus(v: string): (r: Result<string, FieldError>)
    ensures r.Ok? <==> v in ["available", "allocated", "reserved"]
    ensures r.Ok? ==> r.value == v
    ensures r.Err? ==> r.error == InvalidStatus
  {
    if v == "available" || v == "allocated" || v == "reserved" then Ok(v) else Err(InvalidStatus)
  }

  /** The accepted strings are exactly the names of the record statuses. */
  lemma StatusValidatorMatchesRecords(v: string)
    ensures ValidateStatus(v).Ok? <==> ParseStatus(v).Some?
  {
  }

  predicate IsHexDigit(c: char) {
    ('0' <= c <= '9') || ('a' <= c <= 'f') || ('A' <= c <= 'F')
  }

  /** Six pairs of hex digits separated by ':' or '-', separators possibly
      mixed: the EUI-48 text form of IEEE 802. */
  predicate IsMacForm(s: string) {
    |s| == 17
    && forall i :: 0 <= i < 17 ==>
         if i % 3 == 2 then s[i] == ':' || s[i] == '-' else IsHexDigit(s[i])
  }

  /** `re.match('^([0-9A-Fa-f]{2}[:-]){5}([0-9A-Fa-f]{2})$', v)`: `$` also
      matches just before a final line feed, so one trailing "\n" passes. */
  function ValidateMacAddress(v: Option<string>): (r: Result<Option<string>, FieldError>)
    ensures r.Ok? <==> v.None? || IsMacForm(v.value)
                       || (|v.value| == 18 && v.value[17] == '\n' && IsMacForm(v.value[..17]))
    ensures r.Ok? ==> r.value == v
  {
    match v
    case None => Ok(None)
    case Some(s) =>
      if IsMacForm(s) || (|s| == 18 && s[17] == '\n' && IsMacForm(s[..17])) then Ok(v)
      else Err(InvalidMacAddress)
  }

  /** The same pattern anchored at the very end of the string, as the
      error message describes it. */
  function ValidateMacAddressStrict(v: Option<string>): (r: Result<Option<string>, FieldError>)
    ensures r.Ok? <==> v.None? || IsMacForm(v.value)
    ensures r.Ok? && v.Some? ==> |v.value| == 17
    ensures r.Ok? ==> r.value == v
  {
    match v
    case None => Ok(None)
    case Some(s) => if IsMacForm(s) then Ok(v) else Err(InvalidMacAddress)
  }

  /** The as-written check passes a MAC address followed by a line feed,
      which the intended check refuses. */
  lemma MacTrailingNewline(m: string)
    requires IsMacForm(m)
    ensures ValidateMacAddress(Some(m + "\n")).Ok?
    ensures ValidateMacAddressStrict(Some(m + "\n")).Err?
  {
    assert (m + "\n")[..17] == m;
  }

  /** The two checks agree on every string without a line feed at the end. */
  lemma MacChecksAgree(v: string)
    requires |v| == 0 || v[|v| - 1] != '\n'
    ensures ValidateMacAddress(Some(v)) == ValidateMacAddressStrict(Some(v))
  {
  }

  /** The hex digit of a nibble, in either case. */
  function HexChar(d: nat, upper: bool): (c: char)
    requires d < 16
    ensures IsHexDigit(c)
  {
    if d < 10 then ('0' as int + d) as char
    else if upper then ('A' as int + d - 10) as char
    else ('a' as int + d - 10) as char
  }

  /** Six bytes written as hex pairs with the given separators: position
      `3g` and `3g + 1` hold the high and low nibble of byte `g`, position
      `3g + 2` the separator after it. */
  function FormatMac(bytes: seq<nat>, seps: seq<char>, upper: bool): (s: string)
    requires |bytes| == 6 && |seps| == 5
    requires forall i :: 0 <= i < 6 ==> bytes[i] < 256
  {
    seq(17, i requires 0 <= i < 17 =>
      if i % 3 == 2 then seps[i / 3]
      else if i % 3 == 0 then HexChar(bytes[i / 3] / 16, upper)
      else HexChar(bytes[i / 3] % 16, upper))
  }

  /** Every printed MAC address passes the strict check, with either
      separator at each position and in either case. */
  lemma MacAcceptsPrinted(bytes: seq<nat>, seps: seq<char>, upper: bool)
    requires |bytes| == 6 && |seps| == 5
    requires forall i :: 0 <= i < 6 ==> bytes[i] < 256
    requires forall i :: 0 <= i < 5 ==> seps[i] == ':' || seps[i] == '-'
    ensures ValidateMacAddressStrict(Some(FormatMac(bytes, seps, upper))).Ok?
  {
    var s := FormatMac(bytes, seps, upper);
    assert |s| == 17;
  }
}
