/** The value-level pieces of the orchestrator: how a new VM id is chosen,
    how an address is picked for a new server, the prefix length of a
    dotted mask, the parameters posted to `create_vm`, and the names given
    to a backup. */
module VpsProvisioning {
  import opened Wrappers
  import opened Text
  import opened Binary
  import opened Ipv4
  import opened SubnetMask
  import opened Records
  import opened IpManager
  import opened Hypervisor
  import opened IpSchemas

  /** The first VM id tried. */
  const FirstVmid: int := 100

  /** The vmid column of the server table. */
  function Vmids(servers: seq<Server>): (r: seq<int>)
    ensures |r| == |servers| && forall i :: 0 <= i < |servers| ==> r[i] == servers[i].vmid
  {
    seq(|servers|, i requires 0 <= i < |servers| => servers[i].vmid)
  }

  /** The VM ids the hypervisor lists over the given nodes, skipping every
      node whose listing raises. */
  function ReportedVmids(nodes: seq<string>, vmsOn: map<string, seq<int>>): (r: seq<int>)
    ensures forall v :: v in r <==> exists k :: 0 <= k < |nodes| && nodes[k] in vmsOn && v in vmsOn[nodes[k]]
  {
    if nodes == [] then []
    else
      var init := ReportedVmids(nodes[..|nodes| - 1], vmsOn);
      var last := nodes[|nodes| - 1];
      assert forall k :: 0 <= k < |nodes| - 1 ==> nodes[..|nodes| - 1][k] == nodes[k];
      init + (if last in vmsOn then vmsOn[last] else [])
  }

  /** A number above every element. */
  function UpperBound(s: seq<int>): (b: int)
    ensures forall i :: 0 <= i < |s| ==> s[i] < b
  {
    if s == [] then 0
    else
      var b := UpperBound(s[1..]);
      if s[0] + 1 > b then s[0] + 1 else b
  }

  /** The smallest number from `v` on that is not in `used`. */
  function SmallestFree(used: seq<int>, v: int): (r: int)
    ensures r >= v && r !in used
    ensures forall w :: v <= w < r ==> w in used
    decreases UpperBound(used) - v
  {
    if v in used then SmallestFree(used, v + 1) else v
  }

  /** The largest element. */
  function Max(s: seq<int>): (m: int)
    requires s != []
    ensures m in s && forall i :: 0 <= i < |s| ==> s[i] <= m
  {
    if |s| == 1 then s[0]
    else
      var m := Max(s[1..]);
      assert forall i :: 1 <= i < |s| ==> s[i] == s[1..][i - 1];
      if s[0] >= m then s[0] else m
  }

  /** The id taken when the hypervisor cannot list its nodes: one past the
      largest recorded id, or the first id on an empty table. */
  function FallbackVmid(vmids: seq<int>): (r: int)
    ensures vmids == [] ==> r == FirstVmid
    ensures vmids != [] ==> r - 1 in vmids && forall i :: 0 <= i < |vmids| ==> vmids[i] < r
  {
    if vmids == [] then FirstVmid else Max(vmids) + 1
  }

  /** `_get_next_vmid`: the smallest id from 100 on that no node reports,
      or the fallback when the node listing raises. */
  function NextVmidOf(nodes: Option<seq<string>>, vmsOn: map<string, seq<int>>, recorded: seq<int>): (r: int)
    ensures nodes.Some? ==> r >= FirstVmid && r !in ReportedVmids(nodes.value, vmsOn)
                            && forall w :: FirstVmid <= w < r ==> w in ReportedVmids(nodes.value, vmsOn)
    ensures nodes.None? ==> r == FallbackVmid(recorded)
  {
    match nodes
    case None => FallbackVmid(recorded)
    case Some(ns) => SmallestFree(ReportedVmids(ns, vmsOn), FirstVmid)
  }

  /** The loop of `_get_next_vmid` that counts up from 100 past the ids in use. */
  method FirstFreeVmid(used: seq<int>) returns (vmid: int)
    ensures vmid == SmallestFree(used, FirstVmid)
  {
    vmid := FirstVmid;
    while vmid in used
      invariant vmid >= FirstVmid
      invariant SmallestFree(used, vmid) == SmallestFree(used, FirstVmid)
      decreases UpperBound(used) - vmid
    {
      vmid := vmid + 1;
    }
  }

  /** The loop of `_get_next_vmid` that gathers the ids every node reports,
      passing over the nodes whose listing raises. */
  method GatherVmids(nodes: seq<string>, vmsOn: map<string, seq<int>>) returns (vms: seq<int>)
    ensures vms == ReportedVmids(nodes, vmsOn)
  {
    vms := [];
    var k := 0;
    while k < |nodes|
      invariant 0 <= k <= |nodes|
      invariant vms == ReportedVmids(nodes[..k], vmsOn)
    {
      assert nodes[..k + 1][..k] == nodes[..k];
      if nodes[k] in vmsOn {
        vms := vms + vmsOn[nodes[k]];
      }
      k := k + 1;
    }
    assert nodes[..k] == nodes;
  }

  /** `_convert_subnet_mask_to_cidr`: the number of one bits in the mask's
      binary form; `None` when some part is not an integer (`int()`
      raises). The number of parts is not checked. */
  function CidrOf(mask: string): (r: Option<nat>)
    ensures r.Some? <==> MaskBits(mask).Some?
  {
    match MaskBits(mask)
    case None => None
    case Some(bits) => Some(CountChar(bits, '1'))
  }

  /** The binary form of a list of parts, extended by one integer part. */
  lemma {:induction false} BitsOfPartsSnoc(parts: seq<string>, a: string, p: string, n: int)
    requires BitsOfParts(parts) == Some(a) && ParseInt(p) == Some(n)
    ensures BitsOfParts(parts + [p]) == Some(a + OctetBits(n))
    decreases |parts|
  {
    if parts == [] {
      assert parts + [p] == [p] && [p][1..] == [];
      assert a + OctetBits(n) == OctetBits(n) + "";
    } else {
      var m := ParseInt(parts[0]).value;
      var rest := BitsOfParts(parts[1..]).value;
      BitsOfPartsSnoc(parts[1..], rest, p, n);
      BitsOfPartsCons(parts[0], parts[1..] + [p], m, rest + OctetBits(n));
      ConsSnoc(parts, p);
      Associative(OctetBits(m), rest, OctetBits(n));
    }
  }

  lemma ConsSnoc<T>(xs: seq<T>, x: T)
    requires xs != []
    ensures [xs[0]] + (xs[1..] + [x]) == xs + [x]
  {
  }

  lemma TakeOneMore<T>(xs: seq<T>, k: nat)
    requires k < |xs|
    ensures xs[..k + 1] == xs[..k] + [xs[k]]
  {
  }

  lemma TakeAll<T>(xs: seq<T>)
    ensures xs[..|xs|] == xs
  {
  }

  lemma Associative<T>(a: seq<T>, b: seq<T>, c: seq<T>)
    ensures a + (b + c) == (a + b) + c
  {
  }

  /** The binary form of a list with an integer first part. */
  lemma BitsOfPartsCons(head: string, tail: seq<string>, m: int, b: string)
    requires ParseInt(head) == Some(m) && BitsOfParts(tail) == Some(b)
    ensures BitsOfParts([head] + tail) == Some(OctetBits(m) + b)
  {
    assert ([head] + tail)[0] == head && ([head] + tail)[1..] == tail;
  }

  /** The loop of `_convert_subnet_mask_to_cidr`, which builds the binary
      form octet by octet and then counts its ones. */
  method SubnetMaskToCidr(mask: string) returns (r: Option<nat>)
    ensures r == CidrOf(mask)
  {
    var parts := Split(mask, '.');
    var bits := "";
    var k := 0;
    while k < |parts|
      invariant 0 <= k <= |parts|
      invariant BitsOfParts(parts[..k]) == Some(bits)
    {
      var n := ParseInt(parts[k]);
      if n.None? {
        NoCidrAtPart(mask, k);
        return None;
      }
      BitsOfPartsSnoc(parts[..k], bits, parts[k], n.value);
      TakeOneMore(parts, k);
      bits := bits + OctetBits(n.value);
      k := k + 1;
    }
    TakeAll(parts);
    CidrOfBits(mask, bits);
    r := Some(CountChar(bits, '1'));
  }

  /** A part that is not an integer leaves the mask without a prefix length. */
  lemma NoCidrAtPart(mask: string, k: nat)
    requires k < |Split(mask, '.')| && ParseInt(Split(mask, '.')[k]).None?
    ensures CidrOf(mask) == None
  {
    BitsOfPartsDefined(Split(mask, '.'));
  }

  /** The prefix length counts the ones of the mask's binary form. */
  lemma CidrOfBits(mask: string, bits: string)
    requires BitsOfParts(Split(mask, '.')) == Some(bits)
    ensures CidrOf(mask) == Some(CountChar(bits, '1'))
  {
  }

  /** The prefix length of the dotted mask of a prefix length is that
      prefix length: the conversion inverts `PrefixMask`. */
  lemma CidrOfPrefixMask(k: nat)
    requires k <= 32
    ensures CidrOf(PrefixMask(k)) == Some(k)
  {
    PrefixMaskBits(k);
    OnesCount(k);
  }

  lemma OnesCount(k: nat)
    requires k <= 32
    ensures CountChar(Repeat('1', k) + Repeat('0', 32 - k), '1') == k
  {
    CountCharAppend(Repeat('1', k), Repeat('0', 32 - k), '1');
    CountRepeat('1', k, '1');
    CountRepeat('0', 32 - k, '1');
  }

  /** On a dotted-quad mask without "01" in its binary form the conversion
      yields a prefix length whose mask is the mask itself. */
  lemma CidrOfContiguous(mask: string)
    requires ParseAddress(mask).Some?
    requires MaskBits(mask).Some? && !Contains(MaskBits(mask).value, "01")
    ensures CidrOf(mask).Some? && CidrOf(mask).value <= 32
    ensures PrefixMask(CidrOf(mask).value) == mask
  {
    ContiguousMaskIsPrefixMask(mask);
  }

  /** The binary form of parts that are all integers in 0..255 is eight
      characters per part. */
  lemma {:induction false} BitsOfOctetParts(parts: seq<string>)
    requires forall i :: 0 <= i < |parts| ==> ParseInt(parts[i]).Some? && 0 <= ParseInt(parts[i]).value < 256
    ensures BitsOfParts(parts).Some? && |BitsOfParts(parts).value| == 8 * |parts|
    decreases |parts|
  {
    if parts != [] {
      OctetBitsValue(ParseInt(parts[0]).value);
      BitsOfOctetParts(parts[1..]);
    }
  }

  /** Four parts that are integers in 0..255 give a prefix length of at
      most 32. */
  lemma CidrAtMost32(mask: string)
    requires |Split(mask, '.')| == 4
    requires forall i :: 0 <= i < 4 ==> ParseInt(Split(mask, '.')[i]).Some?
                                        && 0 <= ParseInt(Split(mask, '.')[i]).value < 256
    ensures CidrOf(mask).Some? && CidrOf(mask).value <= 32
  {
    BitsOfOctetParts(Split(mask, '.'));
  }

  /** The sample mask 255.255.255.0 is /24. */
  lemma CidrSample(mask: string)
    requires mask == "255.255.255.0"
    ensures CidrOf(mask) == Some(24)
  {
    var k := 24;
    SampleMaskText(k);
    CidrOfPrefixMask(k);
  }


  /** `str(n)` for an integer. */
  function IntString(n: int): (s: string)
    ensures |s| >= 1
  {
    if n < 0 then "-" + Decimal(-n) else Decimal(n)
  }

  /** `int(str(n)) == n`. */
  lemma IntStringRoundTrip(n: int)
    ensures ParseInt(IntString(n)) == Some(n)
  {
    if n < 0 {
      ParseNegative(-n);
    } else {
      ParseIntOfDecimal(n);
    }
  }

  lemma ParseNegative(m: nat)
    ensures ParseInt("-" + Decimal(m)) == Some(-(m as int))
  {
    var s := "-" + Decimal(m);
    assert s[1..] == Decimal(m);
    StripNoSpace(s);
    DecimalRoundTrip(m);
  }

  /** The VM parameters `create_vps` posts: the guest type follows the OS,
      a Linux template naming Ubuntu or Debian is cloned, any other Linux
      template is used as a template, and Windows boots an installer ISO.
      The network configuration carries the address with the prefix length
      and the gateway; the name server is the first entry of the pool's DNS
      list. */
  function VmParamsFor(vmid: int, name: string, cores: int, memory: int, address: string,
                       cidr: nat, gateway: string, dnsServers: string,
                       osType: string, osTemplate: string): (p: VmParams)
    ensures p.vmid == vmid && p.name == name && p.cores == cores && p.memory == memory
    ensures p.ostype == "l26" <==> osType == "linux"
    ensures p.ostype == "win10" <==> osType != "linux"
    ensures p.install.Clone? <==> osType == "linux" && (Contains(osTemplate, "ubuntu") || Contains(osTemplate, "debian"))
    ensures p.install.FromTemplate? <==> osType == "linux" && !Contains(osTemplate, "ubuntu") && !Contains(osTemplate, "debian")
    ensures p.install.IsoInstall? <==> osType != "linux"
    ensures p.install.IsoInstall? ==> p.install.boot == "d"
    ensures !p.install.IsoInstall? ==> p.install.source == "template-" + osTemplate
    ensures p.install.IsoInstall? ==> p.install.ide2 == "local:iso/windows-" + osTemplate + ".iso,media=cdrom"
    ensures p.storage == "local-lvm" && p.net0 == "virtio,bridge=vmbr0"
    ensures p.nameserver == Split(dnsServers, ',')[0] && ',' !in p.nameserver
  {
    VmParams(vmid, name, cores, memory, "local-lvm", "virtio,bridge=vmbr0",
             "ip=" + address + "/" + Decimal(cidr) + ",gw=" + gateway,
             Split(dnsServers, ',')[0],
             if osType == "linux" then "l26" else "win10",
             if osType == "linux" then
               if Contains(osTemplate, "ubuntu") || Contains(osTemplate, "debian")
               then Clone("template-" + osTemplate)
               else FromTemplate("template-" + osTemplate)
             else IsoInstall("local:iso/windows-" + osTemplate + ".iso,media=cdrom", "d"))
  }

  /** The network configuration the VM is given: the address with the
      prefix length, then the gateway, as two comma-separated fields that
      read back as such when neither the address nor the gateway has a
      comma. */
  lemma IpConfigFields(vmid: int, name: string, cores: int, memory: int, address: string,
                       cidr: nat, gateway: string, dnsServers: string,
                       osType: string, osTemplate: string)
    ensures var p := VmParamsFor(vmid, name, cores, memory, address, cidr, gateway, dnsServers,
                                 osType, osTemplate);
            p.ipconfig0 == "ip=" + address + "/" + Decimal(cidr) + ",gw=" + gateway
            && (',' !in address && ',' !in gateway ==>
                  Split(p.ipconfig0, ',') == ["ip=" + address + "/" + Decimal(cidr), "gw=" + gateway])
  {
    var prefix := Decimal(cidr);
    var ip := "ip=" + address + "/" + prefix;
    var gw := "gw=" + gateway;
    assert VmParamsFor(vmid, name, cores, memory, address, cidr, gateway, dnsServers,
                       osType, osTemplate).ipconfig0 == ip + [','] + gw;
    if ',' !in address && ',' !in gateway {
      assert ',' !in prefix by {
        assert forall i :: 0 <= i < |prefix| ==> IsDigit(prefix[i]);
      }
      assert ',' !in ip;
      assert Join([ip, gw], ',') == ip + [','] + gw;
      SplitJoin([ip, gw], ',');
    }
  }

  /** A pool whose DNS list passed the request check gives the VM a name
      server that is the head of that list and, stripped, an address. */
  lemma NameserverValidated(vmid: int, name: string, cores: int, memory: int, address: string,
                            cidr: nat, gateway: string, dnsServers: string,
                            osType: string, osTemplate: string)
    requires ValidateDnsServers(dnsServers).Ok?
    ensures var p := VmParamsFor(vmid, name, cores, memory, address, cidr, gateway, dnsServers,
                                 osType, osTemplate);
            StartsWith(dnsServers, p.nameserver) && ParseAddress(Strip(p.nameserver)).Some?
  {
    NameserverIsFirstEntry(dnsServers);
    assert IsDnsEntry(Split(dnsServers, ',')[0]);
  }

  /** The name server is the pool's DNS list up to its first comma, and the
      whole list when it has none. */
  lemma NameserverIsFirstEntry(dnsServers: string)
    ensures StartsWith(dnsServers, Split(dnsServers, ',')[0])
    ensures ',' !in dnsServers ==> Split(dnsServers, ',')[0] == dnsServers
  {
    var parts := Split(dnsServers, ',');
    JoinSplit(dnsServers, ',');
    if |parts| > 1 {
      assert Join(parts, ',') == parts[0] + [','] + Join(parts[1..], ',');
    }
    if ',' !in dnsServers {
      SplitWithoutSep(dnsServers, ',');
    }
  }

  /** Why no address could be picked for a new server. */
  datatype ResolveError = AddressUnavailable | PoolExhausted | NoAddress

  /** The address a new server gets (`create_vps`, before `allocate_ip`):
      the record with the given allocation id, which must be available;
      else the first available record of the given pool; else the first
      available record of any pool. The result is the record's position. */
  function Resolve(table: seq<Allocation>, allocationId: Option<int>, poolId: Option<int>)
    : (r: Result<nat, ResolveError>)
    ensures r.Ok? ==> r.value < |table| && table[r.value].status == Available
    ensures r.Ok? && Truthy(allocationId) ==> table[r.value].id == allocationId.value
    ensures r.Ok? && !Truthy(allocationId) && Truthy(poolId) ==> table[r.value].poolId == poolId.value
    ensures Truthy(allocationId) ==>
              (r.Err? <==> forall i :: 0 <= i < |table| && table[i].id == allocationId.value
                                       ==> (table[i].status != Available
                                            || exists j :: 0 <= j < i && table[j].id == allocationId.value))
    ensures !Truthy(allocationId) ==>
              var first := FirstAvailable(table, if Truthy(poolId) then poolId else None);
              (r.Err? <==> first.None?) && (r.Ok? ==> first == Some(r.value))
    ensures r.Err? ==> r.error == if Truthy(allocationId) then AddressUnavailable
                                  else if Truthy(poolId) then PoolExhausted else NoAddress
  {
    if Truthy(allocationId) then
      match RecordById(table, allocationId.value)
      case None => Err(AddressUnavailable)
      case Some(i) => if table[i].status != Available then Err(AddressUnavailable) else Ok(i)
    else if Truthy(poolId) then
      match FirstAvailable(table, poolId)
      case None => Err(PoolExhausted)
      case Some(i) => Ok(i)
    else
      match FirstAvailable(table, None)
      case None => Err(NoAddress)
      case Some(i) => Ok(i)
  }

  /** A clock reading `datetime.now()` can return, with a four-digit year. */
  predicate ValidClock(t: DateTime) {
    1000 <= t.year <= 9999 && 1 <= t.month <= 12 && 1 <= t.day <= 31
    && t.hour < 24 && t.minute < 60 && t.second < 60
  }

  /** A number printed in at least `width` digits, as `strftime` pads. */
  function Padded(n: nat, width: nat): (s: string)
    ensures AllDigits(s) && DecimalValue(s) == n
    ensures n < 10 && width == 2 ==> |s| == 2
    ensures 10 <= n < 100 && width == 2 ==> |s| == 2
  {
    var d := Decimal(n);
    DecimalRoundTrip(n);
    LeadingZeroDigits(|ZFill(d, width)| - |d|, d);
    ZFill(d, width)
  }

  /** Leading zeros do not change a numeral's value. */
  lemma {:induction false} LeadingZeroDigits(k: nat, s: string)
    requires AllDigits(s)
    ensures AllDigits(Repeat('0', k) + s) && DecimalValue(Repeat('0', k) + s) == DecimalValue(s)
    decreases |s|
  {
    var t := Repeat('0', k) + s;
    if s == [] {
      assert t == Repeat('0', k);
      ZeroDigits(k);
    } else {
      var init := s[..|s| - 1];
      LeadingZeroDigits(k, init);
      assert t[..|t| - 1] == Repeat('0', k) + init;
    }
  }

  lemma {:induction false} ZeroDigits(k: nat)
    ensures AllDigits(Repeat('0', k)) && DecimalValue(Repeat('0', k)) == 0
    decreases k
  {
    if k > 0 {
      assert Repeat('0', k)[..k - 1] == Repeat('0', k - 1) by { RepeatAdd('0', k - 1, 1); }
      ZeroDigits(k - 1);
    }
  }

  function Year(t: DateTime): (s: string)
    requires ValidClock(t)
    ensures |s| == 4 && AllDigits(s) && DecimalValue(s) == t.year
  {
    DecimalFour(t.year);
    Padded(t.year, 4)
  }

  lemma DecimalFour(n: nat)
    requires 1000 <= n <= 9999
    ensures |Decimal(n)| == 4
  {
    assert Decimal(n) == Decimal(n / 10) + [DigitChar(n % 10)];
  }

  /** `strftime('%Y%m%d%H%M%S')`. */
  function IdStamp(t: DateTime): (s: string)
    requires ValidClock(t)
    ensures |s| == 14
  {
    Year(t) + Padded(t.month, 2) + Padded(t.day, 2) + Padded(t.hour, 2)
    + Padded(t.minute, 2) + Padded(t.second, 2)
  }

  /** `strftime('%Y_%m_%d-%H_%M_%S')`. */
  function FileStamp(t: DateTime): (s: string)
    requires ValidClock(t)
    ensures |s| == 19
  {
    Year(t) + "_" + Padded(t.month, 2) + "_" + Padded(t.day, 2) + "-" + Padded(t.hour, 2)
    + "_" + Padded(t.minute, 2) + "_" + Padded(t.second, 2)
  }

  /** The backup id: the VM id and the time of the first `now()` call. */
  function BackupId(vmid: int, t: DateTime): (s: string)
    requires ValidClock(t)
    ensures StartsWith(s, IntString(vmid) + "-")
  {
    IntString(vmid) + "-" + IdStamp(t)
  }

  /** The backup file name: the VM id and the time of the second `now()`
      call, in the hypervisor's naming scheme. */
  function BackupFileName(vmid: int, t: DateTime): (s: string)
    requires ValidClock(t)
    ensures StartsWith(s, "vzdump-qemu-" + IntString(vmid) + "-")
  {
    "vzdump-qemu-" + IntString(vmid) + "-" + FileStamp(t) + ".vma.zst"
  }

  /** The time stamp of a backup id determines the clock reading to the
      second. */
  lemma IdStampInjective(t1: DateTime, t2: DateTime)
    requires ValidClock(t1) && ValidClock(t2) && IdStamp(t1) == IdStamp(t2)
    ensures t1 == t2
  {
    IdStampFields(t1);
    IdStampFields(t2);
  }

  lemma IdStampFields(t: DateTime)
    requires ValidClock(t)
    ensures IdStamp(t)[0..4] == Year(t)
    ensures IdStamp(t)[4..6] == Padded(t.month, 2) && IdStamp(t)[6..8] == Padded(t.day, 2)
    ensures IdStamp(t)[8..10] == Padded(t.hour, 2) && IdStamp(t)[10..12] == Padded(t.minute, 2)
    ensures IdStamp(t)[12..14] == Padded(t.second, 2)
  {
    FieldSlices(Year(t), Padded(t.month, 2), Padded(t.day, 2), Padded(t.hour, 2),
                Padded(t.minute, 2), Padded(t.second, 2));
  }

  /** Where each field of a stamp of fixed-width fields lies. */
  lemma FieldSlices(y: string, mo: string, d: string, h: string, mi: string, sec: string)
    requires |y| == 4 && |mo| == 2 && |d| == 2 && |h| == 2 && |mi| == 2 && |sec| == 2
    ensures var s := y + mo + d + h + mi + sec;
            s[0..4] == y && s[4..6] == mo && s[6..8] == d && s[8..10] == h
            && s[10..12] == mi && s[12..14] == sec
  {
  }

  /** Two backups of one VM get the same id exactly when they are taken in
      the same second. */
  lemma BackupIdCollides(vmid: int, t1: DateTime, t2: DateTime)
    requires ValidClock(t1) && ValidClock(t2)
    ensures BackupId(vmid, t1) == BackupId(vmid, t2) <==> t1 == t2
  {
    if BackupId(vmid, t1) == BackupId(vmid, t2) {
      var n := |IntString(vmid)| + 1;
      assert BackupId(vmid, t1)[n..] == IdStamp(t1);
      assert BackupId(vmid, t2)[n..] == IdStamp(t2);
      IdStampInjective(t1, t2);
    }
  }
}
