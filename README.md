# Address inventory and VPS orchestration, modelled in Dafny

This project models the core of a small VPS hosting backend. It has three parts.

- **Address inventory.** Pools of IPv4 addresses are kept in a table with one record per address. A record is available, allocated or reserved. Creating a pool adds one record for each host of its network, leaving out the gateway. The records then move between states through allocate, reserve and release.
- **VPS orchestrator.** This part drives a Proxmox-style hypervisor. Each operation spans three resources: the address table, the server and backup tables, and the remote VMs. The operations are create, delete, start, stop, restart, back up, refresh status, and pick a VM id.
- **Request validators.** These are the pydantic schemas that screen pools, address records, server requests and backup requests.

The model is written in the source's own form.

- The address tables belong to the class `IpManager.AddressInventory`. Its methods `CreatePool`, `Allocate`, `Reserve` and `Release` change them in place. Each method is proved against a function of the old table (`AllocateIn`, `ReserveIn`, `ReleaseIn`, `PoolRecordsAdded`). The queries are functions over the table.
- The orchestrator is the class `VpsManager.Service`. Its fields are the server table, the backup table and the row-id counters. It shares the inventory and drives a `Hypervisor.Client`.
  - Each method's `ensures` says the new state, the hypervisor call log and the result are exactly what a function of `VpsLifecycle` gives for the old state. These functions are `CreateSpec`, `DeleteSpec`, `PowerSpec`, `BackupSpec` and `Reconciled`.
  - The properties of the service are lemmas about those functions. They cover error paths, compensation, preserved table constraints, idempotence and round trips.
- The hypervisor's queries are fixed answers. Whether each state-changing call raises is set by its position in the call log. So one model covers every pattern of remote failures.
- The commit points are explicit. `allocate_ip` commits on its own. An exception later in `create_vps` therefore cannot undo the claim, and the model shows this (`CreateUncompensated`).
- Python built-ins the code depends on are modelled in their own modules: `str.split`, `str.strip`, `int()`, `bin()[2:].zfill(8)` and `str.count`. So are the parts of `ipaddress` it uses: dotted quads, `IPv4Network(strict=False)` and `hosts()`.

Three behaviours of the code shape the model and are worth knowing before reading it.

- **Deletion.** `delete_vps` (backend/app/services/vps_manager.py:164-192) stops a running VM, deletes it, releases the address and removes the row in one `try`. Any failure rolls the database back and re-raises. The hypervisor calls already made stay made, and nothing resumes them (`VpsLifecycle.DeleteOutcome`, `VpsLifecycle.FailedServerStays`).
- **Pool creation.** `create_ip_pool` commits the pool row (backend/app/services/ip_manager.py:41) before it adds and commits the address records (backend/app/services/ip_manager.py:56-65). A record whose address is already stored fails the second commit, so the pool stays with no records (`IpManager.AddressInventory.CreatePool`).
- **Validation in `create_ip_pool`.** The service does not check the gateway, the mask or the DNS list; only the request schema does (backend/app/api/schemas/ip.py:24-56). An unparsable gateway is logged and every host is kept (`IpManager.PoolAddresses`).

## Model

| member | source | states |
|---|---|---|
| Wrappers.FirstFailing | backend/app/services/ip_manager.py:75-80 | the first position whose element fails the test, with all earlier ones passing; None exactly when every element passes (`query.first()` over a filter) |
| Records.StatusName | backend/app/models/ip.py:35 | the status column holds one of the three names "available", "allocated", "reserved" |
| Records.ParseStatus | backend/app/models/ip.py:35 | a stored string denotes the status whose name it is, and no status when no status has that name |
| Records.StatusNameRoundTrip | backend/app/models/ip.py:35 | each status is read back from its stored name |
| Text.Split | backend/app/api/schemas/ip.py:36 | `str.split` with one separator: at least one piece, no piece contains the separator |
| Text.JoinSplit | backend/app/api/schemas/ip.py:50 | joining the pieces of a split restores the string |
| Text.SplitJoin | backend/app/api/schemas/ip.py:50 | splitting a join of separator-free pieces restores the pieces |
| Text.Strip | backend/app/api/schemas/ip.py:53 | `str.strip()`: a piece of the input with no space at either end |
| Text.StripNoSpace | backend/app/api/schemas/ip.py:53 | a string with no space at either end is its own stripped form |
| Text.Decimal | backend/app/services/ip_manager.py:58 | `str(n)` is a canonical numeral with the digit count of n |
| Text.DecimalRoundTrip | backend/app/services/ip_manager.py:58 | a printed number denotes that number |
| Text.DecimalCanonical | backend/app/services/ip_manager.py:58 | a canonical numeral is the printed form of its value |
| Text.ParseInt | backend/app/api/schemas/ip.py:40 | `int()` of a run of ASCII digits is its decimal value, and `int()` succeeds only on a string that is not blank |
| Text.ParseIntOfDecimal | backend/app/api/schemas/ip.py:40 | `int(str(n)) == n` for every natural n |
| Text.NotInJoin | backend/app/api/schemas/ip.py:40 | a character absent from every piece and distinct from the separator is absent from their join |
| Text.ContainsAt | backend/app/api/schemas/ip.py:41 | a string that has `sub` at some position passes the `in` test |
| Text.ContainsWitness | backend/app/api/schemas/ip.py:41 | a string that passes the `in` test has `sub` at some position |
| Binary.Bin | backend/app/api/schemas/ip.py:40 | `bin(n)[2:]` is a non-empty bit string, led by a one when n is positive |
| Binary.ZFill | backend/app/api/schemas/ip.py:40 | `zfill(w)` pads with leading zeros to at least w characters |
| Binary.BinSlice | backend/app/api/schemas/ip.py:40 | for a negative value `bin(n)[2:]` keeps the 'b' of "-0b", so it is not a bit string |
| Binary.CountChar | backend/app/services/vps_manager.py:348 | `str.count` never exceeds the length |
| Binary.BinRoundTrip | backend/app/api/schemas/ip.py:40 | the binary numeral of n denotes n |
| Binary.BinOfPow2 | backend/app/api/schemas/ip.py:40 | `bin(2^n)[2:]` is a one followed by n zeros |
| Binary.BinLength | backend/app/api/schemas/ip.py:40 | n fits in k binary digits exactly when n < 2^k |
| Binary.OctetBitsValue | backend/app/api/schemas/ip.py:40 | an octet's padded form has exactly eight bits and denotes the octet |
| Binary.NoZeroOneIsContiguous | backend/app/api/schemas/ip.py:41 | a bit string has no "01" exactly when it is ones followed by zeros |
| Binary.ContiguousCount | backend/app/services/vps_manager.py:348 | ones then zeros has as many '1's as leading ones |
| Binary.BitsValueInjective | backend/app/api/schemas/ip.py:40 | two bit strings of one length with the same value are equal |
| Ipv4.ParseOctet | backend/app/api/schemas/ip.py:27 | an accepted octet is at most 255 and written in its one canonical spelling |
| Ipv4.ParseAddress | backend/app/api/schemas/ip.py:27 | `IPv4Address(s)` accepts a string exactly when it splits on dots into four parts that are each an accepted octet |
| Ipv4.ParseOctetOfDecimal | backend/app/api/schemas/ip.py:27 | every printed octet value is accepted back |
| Ipv4.OctetsOfFromOctets | backend/app/services/ip_manager.py:58 | assembling an address from four octets and splitting it gives the octets back |
| Ipv4.FromOctetsOfOctets | backend/app/services/ip_manager.py:58 | splitting an address into octets and reassembling gives the address back |
| Ipv4.ParseFormat | backend/app/api/schemas/ip.py:27 | `IPv4Address(str(a)) == a` for every address |
| Ipv4.FormatParse | backend/app/api/schemas/ip.py:27 | a string that parses is the printed form of its address, so the check accepts one spelling per address |
| Ipv4.FormatInjective | backend/app/services/ip_manager.py:58 | distinct addresses print differently, so the records of distinct hosts get distinct address strings |
| Ipv4.FormatAlphabet | backend/app/services/ip_manager.py:58 | a printed address holds only digits and dots |
| Ipv4.HostSpan | backend/app/services/ip_manager.py:28 | a prefix covers between 1 and 2^32 addresses |
| Ipv4.PrefixOfNetmask | backend/app/services/ip_manager.py:28 | the prefix length whose netmask is the given value, and None when no prefix length has it |
| Ipv4.ParseNetmask | backend/app/services/ip_manager.py:28 | the part after the slash yields a prefix length of at most 32 |
| Ipv4.ClearHostBits | backend/app/services/ip_manager.py:28 | `strict=False` rounds the address down to a multiple of the span and keeps an aligned address |
| Ipv4.ParseNetwork | backend/app/services/ip_manager.py:28 | every parsed network is well formed: prefix at most 32, host bits clear |
| Ipv4.FormatNetwork | backend/app/services/ip_manager.py:33 | the canonical `str(net)` stored with the pool parses back to the same network |
| Ipv4.ParseWithPrefix | backend/app/services/ip_manager.py:28 | an address with a prefix length parses to the network containing it, host bits cleared |
| Ipv4.PrefixLengthParses | backend/app/services/ip_manager.py:28 | a printed prefix length is read back as itself |
| Ipv4.NetworkFits | backend/app/services/ip_manager.py:45 | a well-formed network lies inside the address space |
| Ipv4.Range | backend/app/services/ip_manager.py:45 | the consecutive addresses from lo up to but excluding hi |
| Ipv4.HostsCount | backend/app/services/ip_manager.py:45 | `hosts()` has 2^(32-p) - 2 addresses, or 2 on a /31 and 1 on a /32 |
| Ipv4.Hosts | backend/app/services/ip_manager.py:45 | `hosts()` is ascending and inside the address space. Up to /30 it is exactly the addresses strictly between the network and broadcast addresses; on /31 and /32 it is every address of the network |
| SubnetMask.BitsOfParts | backend/app/api/schemas/ip.py:40 | the concatenated eight-bit forms take at least eight characters per part |
| SubnetMask.BitsOfPartsDefined | backend/app/api/schemas/ip.py:40 | the bit string exists exactly when every part is an integer for `int()` |
| SubnetMask.MaskBits | backend/app/api/schemas/ip.py:36-40 | the bit string of a mask exists exactly when every dot-separated part is an integer for `int()`, and it takes at least eight characters per part |
| SubnetMask.MaskOctetBits | backend/app/api/schemas/ip.py:40 | each octet of a prefix mask prints as ones then zeros |
| SubnetMask.PrefixMaskBits | backend/app/api/schemas/ip.py:40 | the dotted mask of /k converts to k ones then 32-k zeros |
| SubnetMask.BitsOfFour | backend/app/api/schemas/ip.py:40 | the bit string of four printed numbers is their four eight-bit forms in order |
| SubnetMask.SplitDecimals | backend/app/api/schemas/ip.py:36 | four numerals joined with dots split back into the four |
| SubnetMask.FormatBits | backend/app/api/schemas/ip.py:40 | the bit string of a printed address is its octets' eight-bit forms |
| SubnetMask.ContiguousOctets | backend/app/api/schemas/ip.py:41 | four octets whose bits contain no "01" are the netmask of their count of ones |
| SubnetMask.ContiguousQuad | backend/app/api/schemas/ip.py:41 | four eight-bit strings without "01" overall are the slices of 1^k 0^(32-k) |
| SubnetMask.ContiguousMaskIsPrefixMask | backend/app/api/schemas/ip.py:41 | a dotted quad whose bit string has no "01" is the dotted netmask of its count of ones |
| SubnetMask.ContiguousAddress | backend/app/api/schemas/ip.py:41 | an address whose bit string has no "01" is the netmask of its count of ones |
| SubnetMask.ParseNetmaskOfPrefixMask | backend/app/services/ip_manager.py:28 | `IPv4Network` reads a dotted prefix mask after the slash as its prefix length |
| SubnetMask.NetmaskInjective | backend/app/services/ip_manager.py:28 | distinct prefix lengths have distinct netmasks |
| SubnetMask.DotInFormat | backend/app/services/ip_manager.py:28 | a printed address is never read as a bare prefix length |
| SubnetMask.SampleMaskText | backend/scripts/init_db.py:71 | the dotted mask of /24 is "255.255.255.0" |
| IpSchemas.ValidateNetwork | backend/app/api/schemas/ip.py:16-22 | accepts exactly what `IPv4Network(v, strict=False)` parses, returning v unchanged, else the network error |
| IpSchemas.NetworkAcceptsHostBits | backend/app/api/schemas/ip.py:19 | an address with set host bits and any prefix length passes |
| IpSchemas.ValidateGateway | backend/app/api/schemas/ip.py:24-30 | accepts exactly the strings `IPv4Address` parses, returning them unchanged, else the gateway error |
| IpSchemas.ValidateIpAddress | backend/app/api/schemas/ip.py:111-117 | the same check for the address field of the record, allocation and reservation schemas, with its own error |
| IpSchemas.AddressValidatorsAcceptPrinted | backend/app/api/schemas/ip.py:111-117 | the address checks accept exactly the printed forms of addresses, and the gateway check agrees with them |
| IpSchemas.ValidateGatewayUpdate | backend/app/api/schemas/ip.py:71-79 | an omitted gateway passes; a given one passes exactly when the create check accepts it |
| IpSchemas.PoolIsActive | backend/app/api/schemas/ip.py:59-60 | a new pool is active unless the request says otherwise |
| IpSchemas.ValidateSubnetMask | backend/app/api/schemas/ip.py:32-46 | accepts exactly four dot-separated parts, all integers, whose bit string has no "01", returning the input unchanged |
| IpSchemas.SubnetMaskNeedsIntegers | backend/app/api/schemas/ip.py:40 | a part that `int()` rejects makes the mask invalid |
| IpSchemas.SubnetMaskAcceptsPrefixMasks | backend/app/api/schemas/ip.py:32-46 | the dotted netmask of every prefix length 0..32 is accepted |
| IpSchemas.SubnetMaskOnDottedQuads | backend/app/api/schemas/ip.py:40-44 | on valid dotted quads the check accepts exactly the netmasks, in both directions |
| IpSchemas.AcceptedDottedQuadIsNetmask | backend/app/api/schemas/ip.py:40-44 | an accepted dotted quad is the netmask of some prefix length |
| IpSchemas.SubnetMaskAcceptsOctet256 | backend/app/api/schemas/ip.py:40-44 | "256.0.0.0" passes although it is no address, because octets are not range-checked |
| IpSchemas.AcceptContiguousBits | backend/app/api/schemas/ip.py:41 | four parts whose bits are ones then zeros pass |
| IpSchemas.ValidateDnsServers | backend/app/api/schemas/ip.py:48-56 | accepts exactly the lists whose every comma-separated entry, stripped, is an address. The error names the first offending entry, unstripped: every entry before it passes |
| IpSchemas.DnsAcceptsPrintedList | backend/app/api/schemas/ip.py:48-56 | printed addresses joined by commas form an accepted list |
| IpSchemas.StripPrinted | backend/app/api/schemas/ip.py:53 | a printed address has no surrounding space |
| IpSchemas.DnsRejectsEmpty | backend/app/api/schemas/ip.py:48-56 | the empty string is refused, naming the empty entry |
| IpSchemas.ValidateDnsServersUpdate | backend/app/api/schemas/ip.py:81-90 | an omitted list passes; a given one passes exactly when the create check accepts it |
| IpSchemas.ValidateStatus | backend/app/api/schemas/ip.py:119-124 | accepts exactly "available", "allocated" and "reserved" and returns the input unchanged |
| IpSchemas.StatusValidatorMatchesRecords | backend/app/api/schemas/ip.py:119-124 | the accepted strings are exactly the stored names of the record statuses |
| IpSchemas.ValidateMacAddress | backend/app/api/schemas/ip.py:126-133 | as written: accepts None, six hex pairs with ':' or '-' separators, and also such a string followed by one line feed |
| IpSchemas.ValidateMacAddressStrict | backend/app/api/schemas/ip.py:126-133 | as intended: accepts None or exactly six hex pairs with ':' or '-' separators, 17 characters |
| IpSchemas.MacTrailingNewline | backend/app/api/schemas/ip.py:131 | a MAC address plus a line feed passes the written check and fails the intended one |
| IpSchemas.MacChecksAgree | backend/app/api/schemas/ip.py:131 | the two checks agree on every string that does not end in a line feed |
| IpSchemas.HexChar | backend/app/api/schemas/ip.py:131 | the digit of a nibble is a hex digit of either case |
| IpSchemas.MacAcceptsPrinted | backend/app/api/schemas/ip.py:131 | every MAC address printed in either case, with any mix of separators, passes |
| VpsSchemas.CreateErrors | backend/app/api/schemas/vps.py:10-23 | each of cpu_cores, memory and disk_size is reported exactly when it is not positive, and os_type exactly when it is not "linux" or "windows", each at most once |
| VpsSchemas.ValidateCreate | backend/app/api/schemas/vps.py:7-29 | a create request passes exactly when the three sizes are positive and the OS type is allowed. It then carries every field over (name, node, sizes, OS type and template, notes, address record and pool), with the bandwidth defaulted. Otherwise it fails with every broken field |
| VpsSchemas.CreateBandwidthUnbounded | backend/app/api/schemas/vps.py:15 | the bandwidth defaults to 1000 and any given value, even a negative one, passes |
| VpsSchemas.ValidateUpdate | backend/app/api/schemas/vps.py:32-39 | an update passes exactly when each present size is positive; the refused fields are exactly those |
| VpsSchemas.UpdateBounds | backend/app/api/schemas/vps.py:37 | an empty update passes, and the bandwidth never decides whether an update passes |
| VpsSchemas.BackupCreate | backend/app/api/schemas/vps.py:81-84 | storage defaults to "local" and is_auto to false; given values are kept |
| VpsSchemas.BackupBaseIsAuto | backend/app/api/schemas/vps.py:78 | a stored backup counts as automatic unless said otherwise |
| VpsSchemas.BackupDefaultsDisagree | backend/app/api/schemas/vps.py:78-84 | an omitted is_auto means manual in the create schema and automatic in the base schema |
| IpManager.Addresses | backend/app/models/ip.py:32 | the address column, one entry per record in table order |
| IpManager.IndexOf | backend/app/services/ip_manager.py:92 | the first record holding the address, and None exactly when no record holds it |
| IpManager.IndexOfUnique | backend/app/models/ip.py:32 | with unique addresses, the lookup finds each record at its own position |
| IpManager.AllocateIn | backend/app/services/ip_manager.py:83-108 | an unknown address or a record not available is refused, naming its status. On success only that record changes, to allocated with the given user, hostname, MAC address and notes |
| IpManager.Assigned | backend/app/services/ip_manager.py:100-104 | an allocated record has the given user, hostname, MAC address and notes, and keeps its id, address and pool |
| IpManager.ReserveIn | backend/app/services/ip_manager.py:111-130 | the same two refusals. On success only that record changes: it becomes reserved with the new notes, and user, hostname and MAC address stay |
| IpManager.ReleaseIn | backend/app/services/ip_manager.py:133-151 | an unknown or already available address is refused. On success only that record changes, to available with user, hostname, MAC address and notes cleared |
| IpManager.Released | backend/app/services/ip_manager.py:143-147 | a released record is available with user, hostname, MAC address and notes cleared, and keeps its id, address and pool |
| IpManager.StatusChangesKeepAddresses | backend/app/models/ip.py:32 | allocating, reserving and releasing leave the address column as it was |
| IpManager.ReplaceRecord | backend/app/models/ip.py:32 | rewriting one record's status columns keeps addresses and ids unique, available records cleared and ids below the counter |
| IpManager.AllocateThenRelease | backend/app/services/ip_manager.py:133-151 | releasing a freshly allocated record restores the table exactly |
| IpManager.AllocateTwiceConflicts | backend/app/services/ip_manager.py:97-98 | an allocated address cannot be allocated again or reserved; the error reports "allocated" |
| IpManager.ReleaseTwiceFails | backend/app/services/ip_manager.py:140-141 | a second release of the same address is refused: release is not idempotent |
| IpManager.FirstAvailable | backend/app/services/ip_manager.py:73-80 | the first available record, in the given pool when the pool id is truthy. None exactly when there is no such record |
| IpManager.FirstAvailableZeroPool | backend/app/services/ip_manager.py:77 | pool id 0 is falsy and filters nothing |
| IpManager.AllocatedNotOffered | backend/app/services/ip_manager.py:73-108 | after an allocation that address is never offered again |
| IpManager.Count | backend/app/services/ip_manager.py:161 | a count never exceeds the table size |
| IpManager.CountUpdate | backend/app/services/ip_manager.py:161-164 | replacing one record shifts a count by what the old and new records contribute |
| IpManager.CountByStatus | backend/app/services/ip_manager.py:161-164 | the available, allocated and reserved counts add up to the total |
| IpManager.CountMatches | backend/app/services/ip_manager.py:161-164 | a query's `count()` is the number of table positions whose record passes the filter |
| IpManager.InScopeCount | backend/app/services/ip_manager.py:161 | the total counted is the number of positions whose record is in scope |
| IpManager.WithStatusCount | backend/app/services/ip_manager.py:162-164 | a status count is the number of positions whose record is in scope and has that status |
| IpManager.Statistics | backend/app/services/ip_manager.py:154-170 | the total is the number of records in scope (those of the pool when the pool id is truthy, else all), and each status count is the number of records in scope with that status. So the three add up to the total, none exceeds it, and the total is at most the table size |
| IpManager.Percentage | backend/app/services/ip_manager.py:171-173 | a share is 0 when the total is 0 and otherwise lies in 0..100 |
| IpManager.StatisticsAfterAllocate | backend/app/services/ip_manager.py:154-170 | an allocation in the counted scope moves exactly one record from available to allocated |
| IpManager.Filter | backend/app/services/ip_manager.py:191-200 | keeps exactly the records that pass the test, never more than the table holds |
| IpManager.FilterConcat | backend/app/services/ip_manager.py:191-200 | filtering keeps table order: the records kept from two stretches of a table are those of the first followed by those of the second |
| IpManager.Page | backend/app/services/ip_manager.py:202 | `offset(skip).limit(limit)`: the slice from skip, at most limit long, empty past the end |
| IpManager.PagesAdjoin | backend/app/services/ip_manager.py:202 | two consecutive pages make the page of twice the size |
| IpManager.ListAllocations | backend/app/services/ip_manager.py:182-202 | the page is exactly `offset(skip).limit(limit)` of the records that pass the truthy filters, in table order: as many as remain after `skip`, at most `limit`, the i-th being kept record `skip + i`. So every listed record is in the table and passes the filters, and a first page large enough lists every such record |
| IpManager.Kept | backend/app/services/ip_manager.py:191-200 | the records that pass the filters are exactly the table's records that pass all three |
| IpManager.StatusFilter | backend/app/services/ip_manager.py:196-197 | a non-empty status filter passes only records stored under that name, and a name of no status passes nothing |
| IpManager.ListPools | backend/app/services/ip_manager.py:177-179 | the pools from position skip on, at most limit of them, in order |
| IpManager.FirstIndex | backend/app/services/ip_manager.py:51 | the position of the first occurrence of the value |
| IpManager.Remove | backend/app/services/ip_manager.py:51 | `list.remove(x)` drops the first occurrence of x and nothing else: one element fewer, one x fewer in the multiset, the elements before that occurrence in place and those after it shifted down by one |
| IpManager.Splice | backend/app/services/ip_manager.py:51 | cutting out one position takes that element out of the multiset and shifts every later element down by one |
| IpManager.RemoveAt | backend/app/services/ip_manager.py:51 | dropping one element of an ascending list keeps it ascending and removes exactly that element |
| IpManager.DropGateway | backend/app/services/ip_manager.py:48-53 | the list loses one address exactly when the gateway parses and is among the hosts. From ascending hosts the rest stay ascending and are exactly the hosts other than the gateway |
| IpManager.PoolAddresses | backend/app/services/ip_manager.py:45-53 | the pool's addresses are ascending and in the address space. They are exactly the hosts other than a parsable gateway, one fewer than the hosts exactly when the gateway is a host |
| IpManager.GatewayOnFirstHost | backend/app/services/ip_manager.py:45-53 | a gateway on the first host leaves the second host through the last, 2^(32-p) - 3 addresses |
| IpManager.RemoveFirstOfRange | backend/app/services/ip_manager.py:51 | removing the low end of a range leaves the rest of it |
| IpManager.DropFirstOfRange | backend/app/services/ip_manager.py:48-53 | when the gateway is the first of a run of consecutive hosts, dropping it leaves the rest of the run |
| IpManager.NewRecords | backend/app/services/ip_manager.py:56-62 | one available record per address, with nothing attached, in the new pool and numbered consecutively |
| IpManager.NewRecordsUnique | backend/app/models/ip.py:32 | distinct addresses make records with distinct address strings |
| IpManager.AppendUnique | backend/app/models/ip.py:32 | appending records whose addresses are new and distinct keeps the address column unique |
| IpManager.AppendPoolRecords | backend/app/services/ip_manager.py:56-64 | committing a new pool's records keeps both keys unique, available records cleared and ids below the advanced counter |
| IpManager.AppendFreshIds | backend/app/services/ip_manager.py:56-64 | rows numbered upward from the counter keep ids unique |
| IpManager.SampleNetwork | backend/scripts/init_db.py:66-73 | "192.168.1.0/255.255.255.0" parses as 192.168.1.0/24 |
| IpManager.SampleHosts | backend/scripts/init_db.py:66-73 | with gateway 192.168.1.1 the sample network yields 192.168.1.2 through 192.168.1.254 |
| IpManager.SamplePool | backend/scripts/init_db.py:66-73 | the initialisation script's pool parses as 192.168.1.0/24 and gets the 253 addresses .2 to .254 |
| IpManager.PoolById | backend/app/services/ip_manager.py:205-207 | a found pool has the id asked for, and None means no pool has it |
| IpManager.RecordById | backend/app/services/vps_manager.py:60 | a found record has the id asked for, and None means no record has it |
| IpManager.BuildRecords | backend/app/services/ip_manager.py:56-62 | the loop builds exactly the records `NewRecords` describes |
| IpManager.PoolNames | backend/app/models/ip.py:11 | the name column, in table order |
| IpManager.AddressInventory.constructor | backend/app/services/ip_manager.py:15-212 | empty tables with both counters at 1 satisfy the table invariant |
| IpManager.AddressInventory.CreatePool | backend/app/services/ip_manager.py:15-70 | with an unparsable network and mask, or a name already taken, the call fails and nothing changes. Otherwise the pool is committed with its canonical network, and then its records are committed; if one of the records' addresses is already recorded the records are rolled back, the pool stays and the call fails. The invariant holds throughout |
| IpManager.AddressInventory.CommitPool | backend/app/services/ip_manager.py:31-41 | the pool row is appended under the next pool id and the records are untouched; the invariant is kept |
| IpManager.AddressInventory.AddPoolRecords | backend/app/services/ip_manager.py:45-64 | the records of every pool address are appended and committed, or, on a repeated address, nothing is added |
| IpManager.AddressInventory.Allocate | backend/app/services/ip_manager.py:83-108 | the table becomes what `AllocateIn` gives, or stays on error; the invariant is kept and the changed record returned |
| IpManager.AddressInventory.Reserve | backend/app/services/ip_manager.py:111-130 | the table becomes what `ReserveIn` gives, or stays on error; the invariant is kept |
| IpManager.AddressInventory.Release | backend/app/services/ip_manager.py:133-151 | the table becomes what `ReleaseIn` gives, or stays on error; the invariant is kept |
| Hypervisor.Client.constructor | backend/app/services/proxmox.py:38-159 | fixed query answers, a fixed failure pattern and an empty call log |
| Hypervisor.Client.Perform | backend/app/services/proxmox.py:95-159 | every state-changing call is logged, and it raises exactly when its log position is a failing one |
| VpsProvisioning.Vmids | backend/app/models/vps.py:12 | the vmid column, in table order |
| VpsProvisioning.ReportedVmids | backend/app/services/vps_manager.py:320-328 | a VM id is gathered exactly when some node whose listing succeeds reports it |
| VpsProvisioning.SmallestFree | backend/app/services/vps_manager.py:331-333 | the smallest value from the start on that is not in use; every value skipped is in use |
| VpsProvisioning.Max | backend/app/services/vps_manager.py:338 | the largest recorded vmid |
| VpsProvisioning.FallbackVmid | backend/app/services/vps_manager.py:336-339 | without the hypervisor: one past the largest recorded VM id, or 100 on an empty table |
| VpsProvisioning.NextVmidOf | backend/app/services/vps_manager.py:316-339 | with a node listing, the smallest id from 100 that no node reports, every id in between being reported; otherwise the fallback |
| VpsProvisioning.FirstFreeVmid | backend/app/services/vps_manager.py:331-333 | the counting loop ends on the smallest free id from 100 |
| VpsProvisioning.GatherVmids | backend/app/services/vps_manager.py:320-326 | the node loop gathers exactly the reported ids, passing over nodes whose listing raises |
| VpsProvisioning.CidrOf | backend/app/services/vps_manager.py:342-348 | the conversion yields a value exactly when every part of the mask is an integer |
| VpsProvisioning.SubnetMaskToCidr | backend/app/services/vps_manager.py:342-348 | the loop that builds the binary form octet by octet and counts its ones computes `CidrOf` |
| VpsProvisioning.NoCidrAtPart | backend/app/services/vps_manager.py:347 | a part that is not an integer makes the conversion raise |
| VpsProvisioning.CidrOfBits | backend/app/services/vps_manager.py:348 | the prefix length is the number of ones in the mask's binary form |
| VpsProvisioning.CidrOfPrefixMask | backend/app/services/vps_manager.py:342-348 | converting the dotted mask of /k gives k: the conversion inverts prefix to mask |
| VpsProvisioning.OnesCount | backend/app/services/vps_manager.py:348 | k ones then zeros count k |
| VpsProvisioning.CidrOfContiguous | backend/app/services/vps_manager.py:342-348 | on a contiguous dotted-quad mask the result is at most 32 and its mask is the input |
| VpsProvisioning.BitsOfOctetParts | backend/app/services/vps_manager.py:347 | octet-valued parts give exactly eight bits each |
| VpsProvisioning.CidrAtMost32 | backend/app/services/vps_manager.py:342-348 | four octet-valued parts give a prefix length of at most 32 |
| VpsProvisioning.CidrSample | backend/app/services/vps_manager.py:342-348 | "255.255.255.0" converts to 24 |
| VpsProvisioning.IntString | backend/app/services/vps_manager.py:262 | `str(n)` of any integer is non-empty |
| VpsProvisioning.IntStringRoundTrip | backend/app/services/vps_manager.py:262 | `int(str(n)) == n` for every integer |
| VpsProvisioning.ParseNegative | backend/app/services/vps_manager.py:262 | `int()` reads a minus sign before the digits |
| VpsProvisioning.VmParamsFor | backend/app/services/vps_manager.py:106-135 | the VM parameters carry the id, name, cores and memory, storage "local-lvm" and net0 "virtio,bridge=vmbr0". The guest type is "l26" exactly for linux and "win10" otherwise. Linux clones "template-" plus the template name when that name contains "ubuntu" or "debian", and otherwise uses that same source as a template. Windows boots "local:iso/windows-" plus the template name plus ".iso,media=cdrom" with boot "d". The name server is the first comma-separated entry of the pool's DNS list |
| VpsProvisioning.NameserverIsFirstEntry | backend/app/services/vps_manager.py:110 | the name server is the DNS list up to its first comma, the whole list when there is none |
| VpsProvisioning.IpConfigFields | backend/app/services/vps_manager.py:107-121 | `ipconfig0` is "ip=" plus the address, "/", the printed prefix length, ",gw=" and the gateway. With no comma in the address or the gateway it splits into exactly those two fields |
| VpsProvisioning.NameserverValidated | backend/app/services/vps_manager.py:110 | when the pool's DNS list passed the request check (backend/app/api/schemas/ip.py:48-56), the VM's name server is the head of that list and, stripped, an address |
| VpsProvisioning.Resolve | backend/app/services/vps_manager.py:58-70 | the address comes from, in order: a truthy allocation id, which must exist and be available; a truthy pool's first available record; any first available record. Each case fails with its own error exactly when it finds nothing |
| VpsProvisioning.Padded | backend/app/services/vps_manager.py:262 | a zero-padded two-digit field denotes its number and is two characters long for every value below 100 |
| VpsProvisioning.Year | backend/app/services/vps_manager.py:262 | the year prints in four digits |
| VpsProvisioning.IdStamp | backend/app/services/vps_manager.py:262 | `%Y%m%d%H%M%S` is 14 characters |
| VpsProvisioning.FileStamp | backend/app/services/vps_manager.py:263 | `%Y_%m_%d-%H_%M_%S` is 19 characters |
| VpsProvisioning.BackupId | backend/app/services/vps_manager.py:262 | the backup id starts with the VM id and a dash |
| VpsProvisioning.BackupFileName | backend/app/services/vps_manager.py:263 | the file name starts with "vzdump-qemu-", the VM id and a dash |
| VpsProvisioning.IdStampFields | backend/app/services/vps_manager.py:262 | each field of the stamp sits at its fixed position |
| VpsProvisioning.IdStampInjective | backend/app/services/vps_manager.py:262 | equal stamps come from the same clock reading to the second |
| VpsProvisioning.BackupIdCollides | backend/app/services/vps_manager.py:262 | two backups of one VM get the same id exactly when taken in the same second |
| VpsLifecycle.ServerIndex | backend/app/services/vps_manager.py:282-284 | the first row with the id; None means no row has it |
| VpsLifecycle.OwnedBy | backend/app/services/vps_manager.py:289 | exactly the user's servers, in table order (a `Filter`, so `FilterConcat` applies) |
| VpsLifecycle.ServersOfUser | backend/app/services/vps_manager.py:287-289 | the page is exactly `offset(skip).limit(limit)` of the user's servers in table order: as many as remain after `skip`, at most `limit`, the i-th being owned server `skip + i`. Each listed server is the user's, and a large enough first page lists them all |
| VpsLifecycle.AllServers | backend/app/services/vps_manager.py:292-294 | the servers from position skip on, at most limit, in order |
| VpsLifecycle.BackupsOf | backend/app/services/vps_manager.py:299 | exactly the server's backups, in table order (a `Filter`, so `FilterConcat` applies) |
| VpsLifecycle.ServerBackups | backend/app/services/vps_manager.py:297-299 | the page is exactly `offset(skip).limit(limit)` of the server's backups in table order: as many as remain after `skip`, at most `limit`, the i-th being backup `skip + i` of the server. Each listed backup is the server's, and a large enough first page lists them all |
| VpsLifecycle.CreateSpec | backend/app/services/vps_manager.py:19-161 | `create_vps` leaves the backups alone and makes at most the two hypervisor calls create and start |
| VpsLifecycle.CreateUnresolved | backend/app/services/vps_manager.py:57-70 | when no usable address record can be found (an unknown or unavailable record, or no free address in the pool or anywhere), `create_vps` fails with that error, makes no hypervisor call and changes nothing; and that error arises in no other case |
| VpsLifecycle.Claim | backend/app/services/vps_manager.py:73-78 | from the claim on, backups untouched and at most two calls |
| VpsLifecycle.NewServer | backend/app/services/vps_manager.py:86-101 | the new row is "creating" with no backup time, under the given row id, user, VM id and address record, with the request's name, node, cores, memory, disk size and bandwidth |
| VpsLifecycle.Register | backend/app/services/vps_manager.py:81-104 | from the pool lookup on, backups untouched and at most two calls |
| VpsLifecycle.Provision | backend/app/services/vps_manager.py:137-156 | the remote half: backups untouched and at most two calls |
| VpsLifecycle.ProvisionPaths | backend/app/services/vps_manager.py:137-156 | a failed create compensates with a "creating" row. A failed start compensates after marking "stopped". Otherwise the row ends "running" |
| VpsLifecycle.Abandon | backend/app/services/vps_manager.py:151-156 | the compensation makes no hypervisor call and leaves the backups |
| VpsLifecycle.CreateSpecAsWritten | backend/app/services/vps_manager.py:81 | as written, with `IPPool` undefined, no hypervisor call is made and no server row is added |
| VpsLifecycle.ClaimAvailable | backend/app/services/vps_manager.py:73-78 | allocating the resolved available record claims exactly that record |
| VpsLifecycle.CreateReachesRegister | backend/app/services/vps_manager.py:58-81 | once an address resolves the claim is committed and creation goes on with the claimed record |
| VpsLifecycle.ClaimKeepsTable | backend/app/services/vps_manager.py:73-78 | the claim keeps the address table's constraints and releasing it restores the table |
| VpsLifecycle.CreateSucceeds | backend/app/services/vps_manager.py:19-161 | creation succeeds exactly when an address resolves, the pool exists, the VM id is new, the mask converts and both calls succeed. The server is then "running" on the claimed record, and the calls were create and start of that VM |
| VpsLifecycle.RegisterSucceeds | backend/app/services/vps_manager.py:81-150 | from the pool lookup on, success exactly when provisionable and both calls succeed |
| VpsLifecycle.CreateRemoteFailure | backend/app/services/vps_manager.py:151-156 | a refused create or start is compensated: the address table is exactly as before, and the one new row is a "failed" server on an available record |
| VpsLifecycle.CreateUncompensated | backend/app/services/vps_manager.py:73-104 | a missing pool, a VM id already recorded or a bad mask leaves the address allocated, and the bad mask also leaves a "creating" row |
| VpsLifecycle.RegisterUncompensated | backend/app/services/vps_manager.py:81-108 | those errors change nothing beyond the claim but the bad mask's row |
| VpsLifecycle.ProvisionErrors | backend/app/services/vps_manager.py:137-156 | the remote half raises only for the hypervisor or the release |
| VpsLifecycle.CreateNeverRefusesClaim | backend/app/services/vps_manager.py:73-78 | on a consistent database neither the claim nor the compensating release is refused |
| VpsLifecycle.RegisterReleases | backend/app/services/vps_manager.py:151-156 | when the claimed record can be released no address error arises |
| VpsLifecycle.CreateKeepsConsistent | backend/app/services/vps_manager.py:19-161 | every path of creation keeps unique addresses, ids, VM ids and backup ids, and the counters ahead |
| VpsLifecycle.RegisterKeepsConsistent | backend/app/services/vps_manager.py:81-161 | the same from the pool lookup on |
| VpsLifecycle.ProvisionKeepsConsistent | backend/app/services/vps_manager.py:137-156 | the same for the remote half |
| VpsLifecycle.AddedConsistent | backend/app/models/vps.py:12 | a server with a fresh VM id and the next row id keeps the constraints |
| VpsLifecycle.ReleaseKeepsTable | backend/app/services/ip_manager.py:133-151 | a release keeps the address table's constraints |
| VpsLifecycle.AddedKeepsServers | backend/app/models/vps.py:12 | appending a server with a fresh VM id keeps VM ids unique |
| VpsLifecycle.CreateAsWrittenLeaks | backend/app/services/vps_manager.py:73-83 | as written, creation never succeeds. Once an address resolves it stays allocated with no server, is offered to no later request, and the available count drops by one |
| VpsLifecycle.RetryAfterRemoteFailure | backend/app/services/vps_manager.py:55 | while the hypervisor lists the same VMs, every creation after a failed one reuses the failed row's VM id and cannot succeed. This covers a failed `create_vm` and a failed `start_vm`; after the latter a real hypervisor would list the new VM, so that case rests on the fixed listing |
| VpsLifecycle.Without | backend/app/services/vps_manager.py:185 | the table without one row, the others in order |
| VpsLifecycle.DeleteSpec | backend/app/services/vps_manager.py:164-192 | deletion only appends to the call log |
| VpsLifecycle.TeardownCalls | backend/app/services/vps_manager.py:172-176 | a running server gets a stop and then a delete, any other server only the delete; the delete is last |
| VpsLifecycle.DropServer | backend/app/services/vps_manager.py:179-186 | makes no hypervisor call. On success it returns the row and removes it, with nothing else but the addresses changed. A server with no address record, or whose record is gone, is removed with the addresses untouched. Otherwise the record is released as `release_ip` does, and a refused release is the error and changes nothing |
| VpsLifecycle.DeletePaths | backend/app/services/vps_manager.py:170-192 | a refused stop or delete rolls everything back; otherwise the record is released and the row removed |
| VpsLifecycle.DeleteOutcome | backend/app/services/vps_manager.py:164-192 | every failure leaves the database as it was. An unknown id is the only "no such server" error. Success removes exactly that row, keeps the backups and makes the stop (when running) and delete calls. A server with no address record, or whose record is gone, leaves the addresses as they were; otherwise its record is released exactly as `release_ip` releases it |
| VpsLifecycle.WithoutKeepsServers | backend/app/models/vps.py:12 | removing a row keeps VM ids unique |
| VpsLifecycle.DeleteKeepsConsistent | backend/app/services/vps_manager.py:164-192 | deletion keeps every table constraint |
| VpsLifecycle.DropKeepsConsistent | backend/app/services/vps_manager.py:179-186 | the release and the removal keep every table constraint |
| VpsLifecycle.NewestServer | backend/app/services/vps_manager.py:166 | the newest row is found by its id and removing it restores the older rows |
| VpsLifecycle.RecordOfId | backend/app/services/vps_manager.py:180 | with unique ids a record is found by its id |
| VpsLifecycle.DeleteNewest | backend/app/services/vps_manager.py:164-192 | deleting the newest server ends as `release_ip` makes of its record |
| VpsLifecycle.CreateThenDelete | backend/app/services/vps_manager.py:19-192 | creating and then deleting a server, every call succeeding, restores all tables. Only the row-id counter moves on |
| VpsLifecycle.DeleteClaimed | backend/app/services/vps_manager.py:164-192 | deleting a running newest server whose release restores the table gives the old database back |
| VpsLifecycle.DeleteFailedNewest | backend/app/services/vps_manager.py:179-192 | deleting a "failed" server on an available record is refused by `release_ip` and rolled back |
| VpsLifecycle.FailedServerStays | backend/app/services/vps_manager.py:151-192 | a server whose creation failed cannot be deleted: its record is already available, so the release is refused, the row stays and the VM delete call has been made anyway |
| VpsLifecycle.PowerOutcome | backend/app/services/vps_manager.py:195-246 | an unknown id raises. A start of a running server, or a stop of a stopped one, returns it without a call. Otherwise the call is made, and either it fails with nothing written or only that server's status becomes the target |
| VpsLifecycle.PowerSpec | backend/app/services/vps_manager.py:195-246 | start, stop and restart add at most one hypervisor call to the log, change no address record and no backup, and keep the number of servers and both id counters |
| VpsLifecycle.SameIdKeepsIndex | backend/app/services/vps_manager.py:197 | rewriting a row without changing its id keeps every lookup |
| VpsLifecycle.PowerIdempotent | backend/app/services/vps_manager.py:200-221 | repeating a start or a stop that succeeded changes nothing and calls nothing; a restart calls the hypervisor again |
| VpsLifecycle.PowerKeepsConsistent | backend/app/services/vps_manager.py:195-246 | power operations keep every table constraint |
| VpsLifecycle.StatusKeepsServers | backend/app/services/vps_manager.py:206 | rewriting a status keeps VM ids unique |
| VpsLifecycle.BackupOutcome | backend/app/services/vps_manager.py:249-279 | every failure leaves the database as it was. Success happens exactly when the server exists, the backup call succeeds and the id is new. It then adds one row with the stamped id, sets only that server's last backup time, and makes one "zstd" backup call |
| VpsLifecycle.BackupSpec | backend/app/services/vps_manager.py:249-279 | `create_backup` adds at most one hypervisor call to the log, changes no address record, and keeps the number of servers and the server id counter |
| VpsLifecycle.NewBackup | backend/app/services/vps_manager.py:260-267 | the backup row belongs to the server and has size 0 and the given notes and flag. Its id is `vmid-%Y%m%d%H%M%S` of the first clock reading and its file name is built from the second reading |
| VpsLifecycle.CommitBackup | backend/app/services/vps_manager.py:268-273 | fails, changing nothing, exactly when the backup id is already stored. Otherwise it appends the backup under the next id, sets that server's last backup time and leaves the other servers, the addresses and the call log alone |
| VpsLifecycle.CommitTwice | backend/app/models/vps.py:52 | a second row under an id already taken is refused and changes nothing |
| VpsLifecycle.BackupSameSecond | backend/app/services/vps_manager.py:262 | a second backup of one server in the same second is refused by the unique backup id; in another second it goes through |
| VpsLifecycle.BackupKeepsConsistent | backend/app/services/vps_manager.py:249-279 | backups keep every table constraint |
| VpsLifecycle.CommitKeepsConsistent | backend/app/services/vps_manager.py:268-273 | the backup commit keeps every table constraint |
| VpsLifecycle.Reconciled | backend/app/services/vps_manager.py:302-313 | every row, in order, takes its refreshed form |
| VpsLifecycle.Refreshed | backend/app/services/vps_manager.py:307-311 | a server whose VM reports a status takes that status and nothing else changes; a server whose status query fails stays as it was |
| VpsLifecycle.ReconciledStatuses | backend/app/services/vps_manager.py:306-311 | only the status changes: a reported row takes the reported status and an unreported one stays as it was |
| VpsLifecycle.ReconcileIdempotent | backend/app/services/vps_manager.py:302-313 | refreshing twice against the same reports equals refreshing once |
| VpsLifecycle.ReconcileKeepsConsistent | backend/app/services/vps_manager.py:302-313 | refreshing keeps every table constraint |
| VpsManager.Service.constructor | backend/app/services/vps_manager.py:15-16 | empty server and backup tables with counters at 1, sharing a valid inventory |
| VpsManager.Service.NextVmid | backend/app/services/vps_manager.py:316-339 | the chosen VM id is `NextVmidOf` of the hypervisor's listing and the recorded VM ids |
| VpsManager.Service.CreateVps | backend/app/services/vps_manager.py:19-161 | the tables, the call log and the result become what `CreateSpec` gives with the chosen VM id; the invariant is kept |
| VpsManager.Service.Create | backend/app/services/vps_manager.py:53-161 | the same for a given VM id, with the inventory's invariant kept |
| VpsManager.Service.Register | backend/app/services/vps_manager.py:81-161 | the state becomes what `VpsLifecycle.Register` gives |
| VpsManager.Service.Provision | backend/app/services/vps_manager.py:137-156 | the state becomes what `VpsLifecycle.Provision` gives |
| VpsManager.Service.Abandon | backend/app/services/vps_manager.py:151-156 | the state becomes what `VpsLifecycle.Abandon` gives |
| VpsManager.Service.DeleteVps | backend/app/services/vps_manager.py:164-192 | the state becomes what `DeleteSpec` gives; the invariant is kept |
| VpsManager.Service.TearDown | backend/app/services/vps_manager.py:164-192 | the same, with the inventory's invariant kept |
| VpsManager.Service.RemoveVm | backend/app/services/vps_manager.py:171-176 | the stop (when running) and the delete are logged, the delete only after a successful stop, and success is reported exactly when all succeeded |
| VpsManager.Service.DropServer | backend/app/services/vps_manager.py:178-186 | the state becomes what `VpsLifecycle.DropServer` gives |
| VpsManager.Service.StartVps | backend/app/services/vps_manager.py:195-211 | the state becomes what `PowerSpec` gives for a start; the invariant is kept |
| VpsManager.Service.StopVps | backend/app/services/vps_manager.py:214-230 | the state becomes what `PowerSpec` gives for a stop; the invariant is kept |
| VpsManager.Service.RestartVps | backend/app/services/vps_manager.py:233-246 | the state becomes what `PowerSpec` gives for a restart; the invariant is kept |
| VpsManager.Service.CreateBackup | backend/app/services/vps_manager.py:249-279 | the state becomes what `BackupSpec` gives; the invariant is kept |
| VpsManager.Service.TakeBackup | backend/app/services/vps_manager.py:249-279 | the same without assuming the invariant |
| VpsManager.Service.CommitBackupRow | backend/app/services/vps_manager.py:268-279 | the state becomes what `CommitBackup` gives |
| VpsManager.Service.UpdateVpsStatus | backend/app/services/vps_manager.py:302-313 | the server table becomes `Reconciled` of the old one and nothing else changes; the invariant is kept |
| VpsManager.Service.RefreshedRows | backend/app/services/vps_manager.py:306-311 | the loop refreshes every row in order and yields `Reconciled` |

## Left out

- Concurrency is not modelled. This covers the read-then-write race between the status check and the update in `allocate_ip` and its siblings, and the background task that runs `update_vps_status`. The model is sequential.
- Database sessions are modelled by their effect only. Every `commit` is a point after which the state persists. A `rollback` restores the state of the last commit. Row ids come from counters.
- Logging, the HTTP endpoints, authentication, configuration and the hypervisor connection setup (`backend/app/services/proxmox.py:13-36`) are not modelled. Neither are the hypervisor's own query helpers beyond the node listing, the VM listing and the status query.
- The hypervisor's own state is not modelled. Its query answers are fixed for the lifetime of a client, and the failure of each state-changing call depends only on its position in the call log. A created VM does not appear in later listings.
- IpManager.Percentage: does not model `round(..., 2)`, because it works on floating point; the exact share is a `real`.
- IpManager.Statistics: returns the four counts; the percentages are `Percentage` of those counts.
- Text.ParseInt: accepts only ASCII decimal digits with an optional sign and ASCII white space. Python's `int()` also accepts underscores between digits and non-ASCII digits and spaces.
- Text.Strip: removes ASCII white space only; `str.strip()` also removes the other Unicode white space.
- Ipv4.ParseAddress: follows `ipaddress` for dotted quads, including the refusal of leading zeros. It does not model the integer and bytes constructors.
- VpsLifecycle.NewServer: does not store the `config or {}` column or the creation timestamps, which no operation reads.
- VpsLifecycle.NewBackup: the file size is the constant 0 the code writes, kept as an integer rather than a float.
- VpsLifecycle.DeleteOutcome: keeps the deleted server's backups as they were. The `backups` relationship (backend/app/models/vps.py:42) has no delete cascade, so on flush the ORM sets their `vps_id` to NULL; ORM flush behaviour is not modelled, and in the model `ServerBackups` still lists them under the old id.
- VpsLifecycle.DeleteSpec: returns the deleted server rather than the message dictionary `delete_vps` builds from its name.
- VpsProvisioning.IdStamp: clock readings are parameters. The year is limited to four digits, as `strftime('%Y')` prints it for years 1000 to 9999.
- VpsLifecycle.RetryAfterRemoteFailure: holds the hypervisor's listing fixed. After a failed `start_vm` the VM exists, and a real hypervisor would list it and hand out a fresh id; the lemma describes that case only under the fixed listing.
- VpsProvisioning.ReportedVmids: the node listing is modelled as the node names only. A listing that raises skips its node, as the inner `except` does.
- The methods `Create`, `Register`, `Provision`, `Abandon`, `TearDown`, `RemoveVm`, `DropServer`, `TakeBackup`, `CommitBackupRow` and `RefreshedRows` of `VpsManager.Service` are steps of single source functions, split so that each proof stays small.

## Findings

| source | as written | input that shows it | evidently intended | confidence | as-written member | corrected member |
|---|---|---|---|---|---|---|
| backend/app/services/vps_manager.py:81 | `create_vps` looks up `IPPool`, which the module never imports (lines 7-11). Every creation that gets past `allocate_ip` raises a name error after the claim has been committed, and the outer rollback cannot undo it | any create request on a database with an available address | import the pool model, so that the lookup finds the claimed record's pool | high (not executed) | VpsLifecycle.CreateAsWrittenLeaks | VpsLifecycle.CreateSucceeds |
| backend/app/api/schemas/ip.py:131 | the MAC pattern ends in `$`, which `re.match` also lets match just before a final line feed | "00:11:22:33:44:55\n" | accept only the 17-character form the error message describes | high (not executed) | IpSchemas.MacTrailingNewline | IpSchemas.MacChecksAgree |
