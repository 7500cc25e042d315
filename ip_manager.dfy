/** The address inventory: pools of IPv4 addresses and one record per
    address, each available, allocated or reserved. The queries are
    functions over the record table; pool creation and the three status
    changes are methods of `AddressInventory`, proved against the functions
    that say what they compute. Table order stands for the database's row
    order, which is the order of creation. */
module IpManager {
  import opened Wrappers
  import opened Text
  import opened Ipv4
  import opened Records
  import opened SubnetMask

  /** Why an inventory operation raised. */
  datatype IpError =
    | UnknownAddress
    | NotAvailable(current: Status)
    | AlreadyAvailable
    | InvalidNetwork
    | DuplicatePoolName
    | DuplicateAddress

  /** The address column, in table order. */
  function Addresses(table: seq<Allocation>): (r: seq<string>)
    ensures |r| == |table| && forall i :: 0 <= i < |table| ==> r[i] == table[i].address
  {
    seq(|table|, i requires 0 <= i < |table| => table[i].address)
  }

  /** The uniqueness constraint on the address column. */
  predicate UniqueAddresses(table: seq<Allocation>) {
    forall i, j :: 0 <= i < j < |table| ==> table[i].address != table[j].address
  }

  /** The primary key: no two records share an id. */
  predicate UniqueIds(table: seq<Allocation>) {
    forall i, j :: 0 <= i < j < |table| ==> table[i].id != table[j].id
  }

  /** `filter(ip_address == address).first()`: the position of the first
      record holding `address`. */
  function IndexOf(table: seq<Allocation>, address: string): (r: Option<nat>)
    ensures r.None? <==> address !in Addresses(table)
    ensures r.Some? ==> r.value < |table| && table[r.value].address == address
                        && forall j :: 0 <= j < r.value ==> table[j].address != address
  {
    var r := FirstFailing(table, (a: Allocation) => a.address != address);
    if r.None? then
      assert forall j :: 0 <= j < |table| ==> Addresses(table)[j] != address;
      r
    else r
  }

  /** On a table with unique addresses the first holder is the only one. */
  lemma IndexOfUnique(table: seq<Allocation>, i: nat)
    requires UniqueAddresses(table) && i < |table|
    ensures IndexOf(table, table[i].address) == Some(i)
  {
  }

  /** The record as `allocate_ip` leaves it: the same row, address and
      pool, now allocated and carrying exactly the given details. */
  function Assigned(a: Allocation, userId: Option<int>, hostname: Option<string>,
                     mac: Option<string>, notes: Option<string>): (r: Allocation)
    ensures r.id == a.id && r.address == a.address && r.poolId == a.poolId
    ensures r.status == Allocated && r.userId == userId && r.hostname == hostname
            && r.mac == mac && r.notes == notes
  {
    a.(status := Allocated, userId := userId, hostname := hostname, mac := mac, notes := notes)
  }

  /** `allocate_ip`: the table after allocating `address`, or the error.
      An unknown address and a record that is not available are refused
      and nothing changes; otherwise only that record changes. */
  function AllocateIn(table: seq<Allocation>, address: string, userId: Option<int>,
                      hostname: Option<string>, mac: Option<string>, notes: Option<string>)
    : (r: Result<seq<Allocation>, IpError>)
    ensures IndexOf(table, address).None? ==> r == Err(UnknownAddress)
    ensures IndexOf(table, address).Some? && table[IndexOf(table, address).value].status != Available
            ==> r == Err(NotAvailable(table[IndexOf(table, address).value].status))
    ensures r.Ok? ==> IndexOf(table, address).Some?
                      && var i := IndexOf(table, address).value;
                         table[i].status == Available
                         && |r.value| == |table|
                         && r.value[i] == Assigned(table[i], userId, hostname, mac, notes)
                         && forall j :: 0 <= j < |table| && j != i ==> r.value[j] == table[j]
  {
    match IndexOf(table, address)
    case None => Err(UnknownAddress)
    case Some(i) =>
      if table[i].status != Available then Err(NotAvailable(table[i].status))
      else Ok(table[i := Assigned(table[i], userId, hostname, mac, notes)])
  }

  /** `reserve_ip`: the same two refusals; on success the record becomes
      reserved and only its notes are replaced. */
  function ReserveIn(table: seq<Allocation>, address: string, notes: Option<string>)
    : (r: Result<seq<Allocation>, IpError>)
    ensures IndexOf(table, address).None? ==> r == Err(UnknownAddress)
    ensures IndexOf(table, address).Some? && table[IndexOf(table, address).value].status != Available
            ==> r == Err(NotAvailable(table[IndexOf(table, address).value].status))
    ensures r.Ok? ==> IndexOf(table, address).Some?
                      && var i := IndexOf(table, address).value;
                         table[i].status == Available
                         && |r.value| == |table|
                         && r.value[i].status == Reserved && r.value[i].notes == notes
                         && r.value[i].userId == table[i].userId
                         && r.value[i].hostname == table[i].hostname
                         && r.value[i].mac == table[i].mac
                         && r.value[i].address == table[i].address
                         && r.value[i].id == table[i].id && r.value[i].poolId == table[i].poolId
                         && forall j :: 0 <= j < |table| && j != i ==> r.value[j] == table[j]
  {
    match IndexOf(table, address)
    case None => Err(UnknownAddress)
    case Some(i) =>
      if table[i].status != Available then Err(NotAvailable(table[i].status))
      else Ok(table[i := table[i].(status := Reserved, notes := notes)])
  }

  /** Every available record carries no user, hostname, MAC address or
      notes: pool creation makes them so and only a release makes a record
      available again. */
  predicate Cleared(table: seq<Allocation>) {
    forall i :: 0 <= i < |table| && table[i].status == Available ==> table[i] == Released(table[i])
  }

  /** The record as `release_ip` leaves it: the same row, address and
      pool, available again with nothing attached. */
  function Released(a: Allocation): (r: Allocation)
    ensures r.id == a.id && r.address == a.address && r.poolId == a.poolId
    ensures r.status == Available && r.userId.None? && r.hostname.None? && r.mac.None? && r.notes.None?
  {
    a.(status := Available, userId := None, hostname := None, mac := None, notes := None)
  }

  /** `release_ip`: refuses an unknown address and one that is already
      available; otherwise the record becomes available with its user,
      hostname, MAC address and notes cleared. */
  function ReleaseIn(table: seq<Allocation>, address: string): (r: Result<seq<Allocation>, IpError>)
    ensures IndexOf(table, address).None? ==> r == Err(UnknownAddress)
    ensures IndexOf(table, address).Some? && table[IndexOf(table, address).value].status == Available
            ==> r == Err(AlreadyAvailable)
    ensures r.Ok? ==> IndexOf(table, address).Some?
                      && var i := IndexOf(table, address).value;
                         table[i].status != Available
                         && |r.value| == |table|
                         && r.value[i] == Released(table[i])
                         && forall j :: 0 <= j < |table| && j != i ==> r.value[j] == table[j]
  {
    match IndexOf(table, address)
    case None => Err(UnknownAddress)
    case Some(i) =>
      if table[i].status == Available then Err(AlreadyAvailable)
      else Ok(table[i := Released(table[i])])
  }

  /** None of the three status changes touches the address column, so the
      uniqueness constraint survives them. */
  lemma StatusChangesKeepAddresses(table: seq<Allocation>, address: string, userId: Option<int>,
                                   hostname: Option<string>, mac: Option<string>, notes: Option<string>)
    ensures AllocateIn(table, address, userId, hostname, mac, notes).Ok? ==>
              Addresses(AllocateIn(table, address, userId, hostname, mac, notes).value) == Addresses(table)
    ensures ReserveIn(table, address, notes).Ok? ==>
              Addresses(ReserveIn(table, address, notes).value) == Addresses(table)
    ensures ReleaseIn(table, address).Ok? ==> Addresses(ReleaseIn(table, address).value) == Addresses(table)
  {
  }

  /** Changing one record's status columns keeps both keys unique, the
      available records cleared and the ids below the counter. */
  lemma ReplaceRecord(table: seq<Allocation>, i: nat, b: Allocation, next: nat)
    requires i < |table| && UniqueAddresses(table) && UniqueIds(table) && Cleared(table)
    requires forall a :: a in table ==> 1 <= a.id < next
    requires b.address == table[i].address && b.id == table[i].id
    requires b.status == Available ==> b == Released(b)
    ensures var t := table[i := b];
            UniqueAddresses(t) && UniqueIds(t) && Cleared(t) && forall a :: a in t ==> 1 <= a.id < next
  {
    var t := table[i := b];
    forall a | a in t ensures 1 <= a.id < next {
      var m :| 0 <= m < |t| && t[m] == a;
      assert m != i ==> a in table;
    }
  }

  /** A record that a fresh pool created, allocated and then released, is
      as it was: releasing undoes allocating. */
  lemma AllocateThenRelease(table: seq<Allocation>, address: string, userId: Option<int>,
                            hostname: Option<string>, mac: Option<string>, notes: Option<string>)
    requires AllocateIn(table, address, userId, hostname, mac, notes).Ok?
    requires var i := IndexOf(table, address).value;
             table[i] == Released(table[i])
    ensures ReleaseIn(AllocateIn(table, address, userId, hostname, mac, notes).value, address) == Ok(table)
  {
    var t := AllocateIn(table, address, userId, hostname, mac, notes).value;
    var i := IndexOf(table, address).value;
    assert Addresses(t) == Addresses(table);
    assert IndexOf(t, address) == Some(i);
    assert t[i := Released(t[i])] == table;
  }

  /** An address cannot be allocated twice, nor reserved once allocated. */
  lemma AllocateTwiceConflicts(table: seq<Allocation>, address: string, userId: Option<int>,
                               hostname: Option<string>, mac: Option<string>, notes: Option<string>,
                               userId': Option<int>, hostname': Option<string>,
                               mac': Option<string>, notes': Option<string>)
    requires AllocateIn(table, address, userId, hostname, mac, notes).Ok?
    ensures AllocateIn(AllocateIn(table, address, userId, hostname, mac, notes).value,
                       address, userId', hostname', mac', notes') == Err(NotAvailable(Allocated))
    ensures ReserveIn(AllocateIn(table, address, userId, hostname, mac, notes).value, address, notes')
         == Err(NotAvailable(Allocated))
  {
    var t := AllocateIn(table, address, userId, hostname, mac, notes).value;
    assert Addresses(t) == Addresses(table);
    assert IndexOf(t, address) == IndexOf(table, address);
  }

  /** Releasing is not idempotent: a second release of the same address is
      refused. */
  lemma ReleaseTwiceFails(table: seq<Allocation>, address: string)
    requires ReleaseIn(table, address).Ok?
    ensures ReleaseIn(ReleaseIn(table, address).value, address) == Err(AlreadyAvailable)
  {
    var t := ReleaseIn(table, address).value;
    assert Addresses(t) == Addresses(table);
    assert IndexOf(t, address) == IndexOf(table, address);
  }

  /** The record `get_available_ip` may hand out: available, and in the pool
      asked for when the pool id is truthy. */
  predicate Offerable(a: Allocation, poolId: Option<int>) {
    a.status == Available && (Truthy(poolId) ==> a.poolId == poolId.value)
  }

  /** `get_available_ip`: the position of the first offerable record. */
  function FirstAvailable(table: seq<Allocation>, poolId: Option<int>): (r: Option<nat>)
    ensures r.None? <==> forall i :: 0 <= i < |table| ==> !Offerable(table[i], poolId)
    ensures r.Some? ==> r.value < |table| && Offerable(table[r.value], poolId)
                        && forall j :: 0 <= j < r.value ==> !Offerable(table[j], poolId)
  {
    FirstFailing(table, (a: Allocation) => !Offerable(a, poolId))
  }

  /** The pool id 0 filters nothing, like no pool id at all. */
  lemma FirstAvailableZeroPool(table: seq<Allocation>)
    ensures FirstAvailable(table, Some(0)) == FirstAvailable(table, None)
  {
    var r, r' := FirstAvailable(table, Some(0)), FirstAvailable(table, None);
    if r.Some? && r'.Some? {
      if r.value < r'.value {
        assert Offerable(table[r.value], None);
      } else if r'.value < r.value {
        assert Offerable(table[r'.value], Some(0));
      }
    }
  }

  /** An allocated address is offered no more; the next one is. */
  lemma AllocatedNotOffered(table: seq<Allocation>, address: string, userId: Option<int>,
                            hostname: Option<string>, mac: Option<string>, notes: Option<string>,
                            poolId: Option<int>)
    requires UniqueAddresses(table)
    requires AllocateIn(table, address, userId, hostname, mac, notes).Ok?
    ensures var t := AllocateIn(table, address, userId, hostname, mac, notes).value;
            FirstAvailable(t, poolId).Some? ==> t[FirstAvailable(t, poolId).value].address != address
  {
    var t := AllocateIn(table, address, userId, hostname, mac, notes).value;
    var i := IndexOf(table, address).value;
    assert !Offerable(t[i], poolId);
    if FirstAvailable(t, poolId).Some? {
      var k := FirstAvailable(t, poolId).value;
      assert table[k].address == t[k].address;
    }
  }

  /** How many records satisfy a predicate. */
  function Count(table: seq<Allocation>, p: Allocation -> bool): (n: nat)
    ensures n <= |table|
  {
    if table == [] then 0 else Count(table[..|table| - 1], p) + (if p(table[|table| - 1]) then 1 else 0)
  }

  /** Replacing one record changes a count by what the two records add. */
  lemma {:induction false} CountUpdate(table: seq<Allocation>, i: nat, a: Allocation, p: Allocation -> bool)
    requires i < |table|
    ensures Count(table[i := a], p) + (if p(table[i]) then 1 else 0)
         == Count(table, p) + (if p(a) then 1 else 0)
    decreases |table|
  {
    var t := table[i := a];
    if i < |table| - 1 {
      assert t[..|t| - 1] == table[..|table| - 1][i := a];
      CountUpdate(table[..|table| - 1], i, a, p);
    } else {
      assert t[..|t| - 1] == table[..|table| - 1];
    }
  }

  /** A count is the number of positions whose record passes. */
  lemma {:induction false} CountMatches(table: seq<Allocation>, p: Allocation -> bool)
    ensures Count(table, p) == |set i | 0 <= i < |table| && p(table[i])|
    decreases |table|
  {
    if table != [] {
      var n := |table| - 1;
      var init := table[..n];
      CountMatches(init, p);
      var before := set i | 0 <= i < |init| && p(init[i]);
      var after := set i | 0 <= i < |table| && p(table[i]);
      assert after == before + (if p(table[n]) then {n} else {});
      assert n !in before;
    }
  }

  /** Counting by status splits the records in three. */
  lemma {:induction false} CountByStatus(table: seq<Allocation>, poolId: Option<int>)
    ensures Count(table, WithStatus(poolId, Available))
          + Count(table, WithStatus(poolId, Allocated))
          + Count(table, WithStatus(poolId, Reserved))
         == Count(table, InScope(poolId))
    decreases |table|
  {
    if table != [] {
      CountByStatus(table[..|table| - 1], poolId);
    }
  }

  /** The records of the scope counted, as a test. */
  function InScope(poolId: Option<int>): Allocation -> bool {
    (a: Allocation) => InPool(a, poolId)
  }

  /** The records of the scope counted with status `st`, as a test. */
  function WithStatus(poolId: Option<int>, st: Status): Allocation -> bool {
    (a: Allocation) => InPool(a, poolId) && a.status == st
  }

  /** The scope's count is the number of positions it covers. */
  lemma InScopeCount(table: seq<Allocation>, poolId: Option<int>)
    ensures Count(table, InScope(poolId)) == |set i | 0 <= i < |table| && InPool(table[i], poolId)|
  {
    CountMatches(table, InScope(poolId));
    assert (set i | 0 <= i < |table| && InScope(poolId)(table[i]))
        == (set i | 0 <= i < |table| && InPool(table[i], poolId));
  }

  /** A status count is the number of positions of the scope with that status. */
  lemma WithStatusCount(table: seq<Allocation>, poolId: Option<int>, st: Status)
    ensures Count(table, WithStatus(poolId, st))
         == |set i | 0 <= i < |table| && InPool(table[i], poolId) && table[i].status == st|
  {
    CountMatches(table, WithStatus(poolId, st));
    assert (set i | 0 <= i < |table| && WithStatus(poolId, st)(table[i]))
        == (set i | 0 <= i < |table| && InPool(table[i], poolId) && table[i].status == st);
  }

  /** `get_ip_usage_statistics` without the percentages. */
  datatype Stats = Stats(total: nat, availableCount: nat, allocatedCount: nat, reservedCount: nat)

  /** The records a statistics or listing query counts: those of the pool
      asked for when the pool id is truthy, else all. */
  predicate InPool(a: Allocation, poolId: Option<int>) {
    Truthy(poolId) ==> a.poolId == poolId.value
  }

  /** `get_ip_usage_statistics`: how many records are in scope, and how
      many of them are available, allocated and reserved. */
  function Statistics(table: seq<Allocation>, poolId: Option<int>): (s: Stats)
    ensures s.total == |set i | 0 <= i < |table| && InPool(table[i], poolId)|
    ensures s.availableCount == |set i | 0 <= i < |table| && InPool(table[i], poolId) && table[i].status == Available|
    ensures s.allocatedCount == |set i | 0 <= i < |table| && InPool(table[i], poolId) && table[i].status == Allocated|
    ensures s.reservedCount == |set i | 0 <= i < |table| && InPool(table[i], poolId) && table[i].status == Reserved|
    ensures s.availableCount <= s.total && s.allocatedCount <= s.total && s.reservedCount <= s.total
    ensures s.availableCount + s.allocatedCount + s.reservedCount == s.total
    ensures s.total <= |table|
  {
    CountByStatus(table, poolId);
    InScopeCount(table, poolId);
    WithStatusCount(table, poolId, Available);
    WithStatusCount(table, poolId, Allocated);
    WithStatusCount(table, poolId, Reserved);
    Stats(Count(table, InScope(poolId)), Count(table, WithStatus(poolId, Available)),
          Count(table, WithStatus(poolId, Allocated)), Count(table, WithStatus(poolId, Reserved)))
  }

  /** `round((part / total) * 100, 2) if total > 0 else 0`, without the
      rounding. */
  function Percentage(part: nat, total: nat): (r: real)
    requires part <= total
    ensures total == 0 ==> r == 0.0
    ensures 0.0 <= r <= 100.0
  {
    if total == 0 then 0.0 else (part as real / total as real) * 100.0
  }

  /** Allocating a record of the pool counted moves one record from
      available to allocated and leaves the total alone. */
  lemma StatisticsAfterAllocate(table: seq<Allocation>, address: string, userId: Option<int>,
                                hostname: Option<string>, mac: Option<string>, notes: Option<string>,
                                poolId: Option<int>)
    requires AllocateIn(table, address, userId, hostname, mac, notes).Ok?
    requires InPool(table[IndexOf(table, address).value], poolId)
    ensures var before := Statistics(table, poolId);
            var after := Statistics(AllocateIn(table, address, userId, hostname, mac, notes).value, poolId);
            after.total == before.total && after.reservedCount == before.reservedCount
            && after.availableCount + 1 == before.availableCount
            && after.allocatedCount == before.allocatedCount + 1
  {
    var i := IndexOf(table, address).value;
    var a := Assigned(table[i], userId, hostname, mac, notes);
    CountUpdate(table, i, a, InScope(poolId));
    CountUpdate(table, i, a, WithStatus(poolId, Available));
    CountUpdate(table, i, a, WithStatus(poolId, Allocated));
    CountUpdate(table, i, a, WithStatus(poolId, Reserved));
  }

  /** The rows in table order that pass `p`: a query's `filter`. */
  function Filter<T(!new)>(table: seq<T>, p: T -> bool): (r: seq<T>)
    ensures |r| <= |table|
    ensures forall a :: a in r <==> a in table && p(a)
  {
    if table == [] then []
    else
      var init := Filter(table[..|table| - 1], p);
      assert table == table[..|table| - 1] + [table[|table| - 1]];
      init + (if p(table[|table| - 1]) then [table[|table| - 1]] else [])
  }

  /** Filtering keeps table order: the rows kept from two stretches of a
      table are those of the first stretch followed by those of the second. */
  lemma {:induction false} FilterConcat<T(!new)>(a: seq<T>, b: seq<T>, p: T -> bool)
    ensures Filter(a + b, p) == Filter(a, p) + Filter(b, p)
    decreases |b|
  {
    if b == [] {
      assert a + b == a;
    } else {
      var n := |b| - 1;
      assert (a + b)[..|a + b| - 1] == a + b[..n];
      assert (a + b)[|a + b| - 1] == b[n];
      FilterConcat(a, b[..n], p);
    }
  }

  /** `offset(skip).limit(limit)`. */
  function Page<T>(s: seq<T>, skip: nat, limit: nat): (r: seq<T>)
    ensures |r| <= limit
    ensures skip <= |s| ==> r == s[skip..if skip + limit <= |s| then skip + limit else |s|]
    ensures skip > |s| ==> r == []
  {
    if skip >= |s| then [] else if skip + limit <= |s| then s[skip..skip + limit] else s[skip..]
  }

  /** What `get_ip_allocations` keeps: the pool when truthy, the status when
      a non-empty string is given, the user when truthy. */
  predicate Listed(a: Allocation, poolId: Option<int>, status: Option<string>, userId: Option<int>) {
    InPool(a, poolId)
    && (status.Some? && status.value != "" ==> StatusName(a.status) == status.value)
    && (Truthy(userId) ==> a.userId == Some(userId.value))
  }

  /** `get_ip_allocations`: one page of the records the filters keep, in
      table order. */
  function ListAllocations(table: seq<Allocation>, poolId: Option<int>, status: Option<string>,
                           userId: Option<int>, skip: nat, limit: nat): (r: seq<Allocation>)
    ensures var kept := Kept(table, poolId, status, userId);
            |r| == (if skip >= |kept| then 0 else if skip + limit <= |kept| then limit else |kept| - skip)
            && forall i :: 0 <= i < |r| ==> r[i] == kept[skip + i]
    ensures |r| <= limit
    ensures forall a :: a in r ==> a in table && Listed(a, poolId, status, userId)
    ensures skip == 0 && limit >= |table| ==>
              forall a :: a in table && Listed(a, poolId, status, userId) ==> a in r
  {
    var kept := Kept(table, poolId, status, userId);
    var r := Page(kept, skip, limit);
    assert forall a :: a in r ==> a in kept;
    r
  }

  /** The records that pass the filters, in table order. */
  function Kept(table: seq<Allocation>, poolId: Option<int>, status: Option<string>,
                userId: Option<int>): (r: seq<Allocation>)
    ensures forall a :: a in r <==> a in table && Listed(a, poolId, status, userId)
  {
    Filter(table, (a: Allocation) => Listed(a, poolId, status, userId))
  }

  /** A record passes a non-empty status filter only when the filter is
      the stored name of its status; a string naming no status lets
      nothing through. */
  lemma StatusFilter(a: Allocation, poolId: Option<int>, status: string, userId: Option<int>)
    requires status != ""
    ensures Listed(a, poolId, Some(status), userId) ==> ParseStatus(status) == Some(a.status)
    ensures ParseStatus(status).None? ==> !Listed(a, poolId, Some(status), userId)
  {
    StatusNameRoundTrip(a.status);
  }

  /** The position of the first occurrence of `x`. */
  function FirstIndex(s: seq<nat>, x: nat): (k: nat)
    requires x in s
    ensures k < |s| && s[k] == x && forall j :: 0 <= j < k ==> s[j] != x
  {
    if s[0] == x then 0 else 1 + FirstIndex(s[1..], x)
  }

  /** `ip_list.remove(x)`: the list without its first occurrence of `x`. */
  function Remove(s: seq<nat>, x: nat): (r: seq<nat>)
    requires x in s
    ensures |r| == |s| - 1
    ensures multiset(r) == multiset(s) - multiset{x}
    ensures forall i :: 0 <= i < |r| ==> r[i] == s[if i < FirstIndex(s, x) then i else i + 1]
  {
    var k := FirstIndex(s, x);
    var r := s[..k] + s[k + 1..];
    Splice(s, k, r);
    r
  }

  /** Cutting out position `k` takes one `s[k]` out of the multiset and
      shifts every later element down by one. */
  lemma Splice(s: seq<nat>, k: nat, r: seq<nat>)
    requires k < |s| && r == s[..k] + s[k + 1..]
    ensures multiset(r) == multiset(s) - multiset{s[k]}
    ensures forall i :: 0 <= i < |r| ==> r[i] == s[if i < k then i else i + 1]
  {
    assert s == s[..k] + [s[k]] + s[k + 1..];
  }

  predicate Ascending(s: seq<nat>) {
    forall i, j :: 0 <= i < j < |s| ==> s[i] < s[j]
  }

  /** Dropping one element of an ascending list keeps it ascending and
      leaves exactly the other elements. */
  lemma RemoveAt(s: seq<nat>, k: nat)
    requires Ascending(s) && k < |s|
    ensures Ascending(s[..k] + s[k + 1..])
    ensures forall y :: y in s[..k] + s[k + 1..] <==> y in s && y != s[k]
  {
    var r := s[..k] + s[k + 1..];
    assert forall i :: 0 <= i < |r| ==> r[i] == s[if i < k then i else i + 1];
    forall y ensures y in r <==> y in s && y != s[k] {
      if y in s && y != s[k] {
        var m :| 0 <= m < |s| && s[m] == y;
        assert r[if m < k then m else m - 1] == y;
      }
    }
  }

  /** The addresses `create_ip_pool` makes records for: the hosts of the
      network, less the gateway when the gateway parses and is one of them.
      They are ascending and inside the address space, and there is one
      fewer than the hosts exactly when the gateway is a host. */
  function PoolAddresses(net: Network, gateway: string): (r: seq<nat>)
    requires WellFormed(net)
    ensures Ascending(r)
    ensures forall i :: 0 <= i < |r| ==> r[i] < AddressSpace
    ensures forall x :: x in r <==>
              x in Hosts(net) && (ParseAddress(gateway).Some? ==> x != ParseAddress(gateway).value)
    ensures |r| == if ParseAddress(gateway).Some? && ParseAddress(gateway).value in Hosts(net)
                   then |Hosts(net)| - 1 else |Hosts(net)|
  {
    var h, g := Hosts(net), ParseAddress(gateway);
    assert Ascending(h);
    var r := DropGateway(h, g);
    assert forall i :: 0 <= i < |r| ==> r[i] in r;
    r
  }

  /** `ip_list.remove(gateway)` when the gateway parses and is listed.
      From ascending hosts it leaves them ascending and drops exactly the
      gateway. */
  function DropGateway(hosts: seq<nat>, g: Option<Address>): (r: seq<nat>)
    ensures |r| == if g.Some? && g.value in hosts then |hosts| - 1 else |hosts|
    ensures Ascending(hosts) ==> Ascending(r)
    ensures Ascending(hosts) ==> forall x :: x in r <==> x in hosts && (g.Some? ==> x != g.value)
  {
    match g
    case None => hosts
    case Some(x) =>
      if x !in hosts then hosts
      else if Ascending(hosts) then
        RemoveAt(hosts, FirstIndex(hosts, x));
        Remove(hosts, x)
      else Remove(hosts, x)
  }

  /** A gateway on the first host of a network of at least four addresses
      leaves the addresses from the second host to the last one. */
  lemma GatewayOnFirstHost(net: Network, gateway: string)
    requires WellFormed(net) && net.prefix <= 30
    requires ParseAddress(gateway) == Some(net.address + 1)
    ensures PoolAddresses(net, gateway) == Range(net.address + 2, Broadcast(net))
    ensures |PoolAddresses(net, gateway)| == HostSpan(net.prefix) - 3
  {
    Binary.Pow2Monotone(2, 32 - net.prefix);
    assert Binary.Pow2(2) == 4;
    var lo, hi := net.address + 1, Broadcast(net);
    assert Hosts(net) == Range(lo, hi);
    DropFirstOfRange(lo, hi);
  }

  /** Dropping the low end of a non-empty range as the gateway leaves the
      rest of it. */
  lemma DropFirstOfRange(lo: nat, hi: nat)
    requires lo < hi && lo < AddressSpace
    ensures DropGateway(Range(lo, hi), Some(lo)) == Range(lo + 1, hi)
  {
    RemoveFirstOfRange(lo, hi);
  }

  /** Removing the low end of a non-empty range leaves the rest of it. */
  lemma RemoveFirstOfRange(lo: nat, hi: nat)
    requires lo < hi
    ensures lo in Range(lo, hi) && Remove(Range(lo, hi), lo) == Range(lo + 1, hi)
  {
    var r := Range(lo, hi);
    assert r[0] == lo;
    assert FirstIndex(r, lo) == 0;
    assert r == [lo] + Range(lo + 1, hi);
  }

  /** The records a new pool's addresses become, ids from `firstId` on. */
  function NewRecords(addresses: seq<nat>, poolId: nat, firstId: nat): (r: seq<Allocation>)
    requires forall i :: 0 <= i < |addresses| ==> addresses[i] < AddressSpace
    ensures |r| == |addresses|
    ensures forall i :: 0 <= i < |r| ==>
              r[i] == Allocation(firstId + i, FormatAddress(addresses[i]), poolId,
                                 None, Available, None, None, None)
  {
    seq(|addresses|, i requires 0 <= i < |addresses| =>
      Allocation(firstId + i, FormatAddress(addresses[i]), poolId, None, Available, None, None, None))
  }

  /** Distinct addresses make records with distinct address strings. */
  lemma NewRecordsUnique(addresses: seq<nat>, poolId: nat, firstId: nat)
    requires forall i :: 0 <= i < |addresses| ==> addresses[i] < AddressSpace
    requires Ascending(addresses)
    ensures UniqueAddresses(NewRecords(addresses, poolId, firstId))
  {
    var r := NewRecords(addresses, poolId, firstId);
    forall i, j | 0 <= i < j < |r| ensures r[i].address != r[j].address {
      if r[i].address == r[j].address {
        FormatInjective(addresses[i], addresses[j]);
      }
    }
  }

  /** Appending records whose addresses are unique and new keeps the
      address column unique. */
  lemma AppendUnique(table: seq<Allocation>, added: seq<Allocation>)
    requires UniqueAddresses(table) && UniqueAddresses(added)
    requires !Clashes(added, table)
    ensures UniqueAddresses(table + added)
  {
    var t := table + added;
    forall i, j | 0 <= i < j < |t| ensures t[i].address != t[j].address {
      if i < |table| && j >= |table| {
        assert t[j] == added[j - |table|];
        assert Addresses(table)[i] == t[i].address;
      }
    }
  }

  /** Appending the records of a new pool's distinct addresses, when none is
      already recorded, keeps the table's keys unique, its available
      records cleared and its ids below the advanced counter. */
  lemma AppendPoolRecords(table: seq<Allocation>, addrs: seq<nat>, poolId: nat, next: nat)
    requires forall i :: 0 <= i < |addrs| ==> addrs[i] < AddressSpace
    requires Ascending(addrs)
    requires UniqueAddresses(table) && UniqueIds(table) && Cleared(table)
    requires forall a :: a in table ==> 1 <= a.id < next
    requires 1 <= next
    requires !Clashes(NewRecords(addrs, poolId, next), table)
    ensures var t := table + NewRecords(addrs, poolId, next);
            UniqueAddresses(t) && UniqueIds(t) && Cleared(t)
            && forall a :: a in t ==> 1 <= a.id < next + |addrs|
  {
    var added := NewRecords(addrs, poolId, next);
    NewRecordsUnique(addrs, poolId, next);
    AppendUnique(table, added);
    AppendFreshIds(table, added, next);
    var t := table + added;
    forall i | 0 <= i < |t| && t[i].status == Available ensures t[i] == Released(t[i]) {
      if i >= |table| {
        assert t[i] == added[i - |table|];
      }
    }
    forall a | a in t ensures 1 <= a.id < next + |addrs| {
      if a !in table {
        var m :| 0 <= m < |added| && added[m] == a;
      }
    }
  }

  /** Appending records numbered upward from a counter above every id in
      the table keeps the ids unique. */
  lemma AppendFreshIds(table: seq<Allocation>, added: seq<Allocation>, next: nat)
    requires UniqueIds(table) && forall a :: a in table ==> a.id < next
    requires forall i :: 0 <= i < |added| ==> added[i].id == next + i
    ensures UniqueIds(table + added)
  {
    var t := table + added;
    forall i, j | 0 <= i < j < |t| ensures t[i].id != t[j].id {
      if j >= |table| {
        assert t[j] == added[j - |table|];
        if i < |table| {
          assert t[i] in table;
        } else {
          assert t[i] == added[i - |table|];
        }
      }
    }
  }

  /** `get_ip_pools`: the pools from position `skip` on, at most `limit` of
      them, in table order. */
  function ListPools(pools: seq<Pool>, skip: nat, limit: nat): (r: seq<Pool>)
    ensures |r| == if skip >= |pools| then 0 else if skip + limit <= |pools| then limit else |pools| - skip
    ensures forall i :: 0 <= i < |r| ==> r[i] == pools[skip + i]
  {
    Page(pools, skip, limit)
  }

  /** Consecutive pages partition the table: the page at `skip` followed by
      the page at `skip + limit` is the page of twice the size. */
  lemma {:induction false} PagesAdjoin<T>(s: seq<T>, skip: nat, limit: nat)
    ensures Page(s, skip, limit) + Page(s, skip + limit, limit) == Page(s, skip, 2 * limit)
  {
    if skip + limit < |s| {
      if skip + 2 * limit <= |s| {
        assert s[skip..skip + 2 * limit] == s[skip..skip + limit] + s[skip + limit..skip + 2 * limit];
      } else {
        assert s[skip..] == s[skip..skip + limit] + s[skip + limit..];
      }
    }
  }

  /** The printed form of a three-digit number. */
  lemma DecimalThree(n: nat, a: nat, b: nat, c: nat)
    requires 1 <= a < 10 && b < 10 && c < 10 && n == 100 * a + 10 * b + c
    ensures Decimal(n) == [DigitChar(a), DigitChar(b), DigitChar(c)]
  {
    assert n / 10 == 10 * a + b && n % 10 == c;
    assert (10 * a + b) / 10 == a && (10 * a + b) % 10 == b;
    assert Decimal(10 * a + b) == [DigitChar(a), DigitChar(b)];
    assert Decimal(n) == Decimal(10 * a + b) + [DigitChar(c)];
  }

  /** The numerals of the sample network's leading octets. */
  lemma SampleOctetText(a: nat, b: nat, c: nat)
    requires a == 192 && b == 168 && c == 1
    ensures Decimal(a) == "192" && Decimal(b) == "168" && Decimal(c) == "1"
  {
    DecimalThree(a, 1, 9, 2);
    DecimalThree(b, 1, 6, 8);
  }

  lemma SampleConcat(x: string, y: string, z: string, w: string)
    requires x == "192" && y == "168" && z == "1"
    ensures x + "." + y + "." + z + "." + w == "192.168.1." + w
  {
  }

  /** The sample addresses whose last octet has one digit. */
  lemma SampleLastOctet(w: string)
    ensures w == ['0'] ==> "192.168.1." + w == "192.168.1.0"
    ensures w == ['1'] ==> "192.168.1." + w == "192.168.1.1"
  {
  }

  /** The printed form of an address, octet by octet. */
  lemma FormatOctets(a: nat, b: nat, c: nat, d: nat)
    requires a < 256 && b < 256 && c < 256 && d < 256
    ensures FormatAddress(FromOctets(a, b, c, d))
            == Decimal(a) + "." + Decimal(b) + "." + Decimal(c) + "." + Decimal(d)
  {
    OctetsOfFromOctets(a, b, c, d);
    JoinFour(Decimal(a), Decimal(b), Decimal(c), Decimal(d), '.');
  }

  /** The printed form of an address of 192.168.1.0/24. */
  lemma SampleAddressText(a: nat, b: nat, c: nat, d: nat)
    requires a == 192 && b == 168 && c == 1 && d < 256
    ensures FormatAddress(FromOctets(a, b, c, d)) == "192.168.1." + Decimal(d)
  {
    FormatOctets(a, b, c, d);
    SampleOctetText(a, b, c);
    SampleConcat(Decimal(a), Decimal(b), Decimal(c), Decimal(d));
  }

  /** A network and a mask joined by a slash split back into the two. */
  lemma SplitNetworkText(network: string, mask: string)
    requires '/' !in network && '/' !in mask
    ensures Split(network + "/" + mask, '/') == [network, mask]
  {
    SplitAfterPiece(network, '/', mask);
    SplitWithoutSep(mask, '/');
  }

  /** 192.168.1.0 with mask 255.255.255.0 parses as 192.168.1.0/24. */
  lemma SampleNetwork(network: string, mask: string, o1: nat, o2: nat, o3: nat, z: nat, k: nat)
    requires network == "192.168.1.0" && mask == "255.255.255.0"
    requires o1 == 192 && o2 == 168 && o3 == 1 && z == 0 && k == 24
    ensures ParseNetwork(network + "/" + mask) == Some(Network(FromOctets(o1, o2, o3, z), k))
  {
    SampleMask(mask, k);
    SampleNetworkAddress(network, o1, o2, o3, z, k);
    SplitNetworkText(network, mask);
    ParseNetworkOfParts(network + "/" + mask, network, mask);
  }

  lemma SampleMask(mask: string, k: nat)
    requires mask == "255.255.255.0" && k == 24
    ensures ParseNetmask(mask) == Some(k) && '/' !in mask
  {
    SampleMaskText(k);
    ParseNetmaskOfPrefixMask(k);
  }

  lemma SampleNetworkAddress(network: string, o1: nat, o2: nat, o3: nat, z: nat, k: nat)
    requires network == "192.168.1.0"
    requires o1 == 192 && o2 == 168 && o3 == 1 && z == 0 && k == 24
    ensures ParseAddress(network) == Some(FromOctets(o1, o2, o3, z))
    ensures ClearHostBits(FromOctets(o1, o2, o3, z), k) == FromOctets(o1, o2, o3, z)
    ensures '/' !in network
  {
    SampleAddressText(o1, o2, o3, z);
    assert Decimal(z) == ['0'];
    SampleLastOctet(Decimal(z));
    var a := FromOctets(o1, o2, o3, z);
    ParseFormat(a);
    Binary.Pow2Values();
    assert HostSpan(k) == 256;
    assert a == (o1 * 0x1_0000 + o2 * 0x100 + o3) * 256;
    MultipleMod(o1 * 0x1_0000 + o2 * 0x100 + o3, 256);
  }

  /** A network text of two parts parses from the parsed address and mask. */
  lemma ParseNetworkOfParts(s: string, address: string, mask: string)
    requires Split(s, '/') == [address, mask]
    ensures ParseNetwork(s) == match (ParseAddress(address), ParseNetmask(mask))
                               case (Some(a), Some(p)) => Some(Network(ClearHostBits(a, p), p))
                               case _ => None
  {
  }

  /** With gateway 192.168.1.1 the pool of 192.168.1.0/24 gets 192.168.1.2
      to 192.168.1.254. */
  lemma SampleHosts(gateway: string, o1: nat, o2: nat, o3: nat, z: nat, k: nat)
    requires gateway == "192.168.1.1"
    requires o1 == 192 && o2 == 168 && o3 == 1 && z == 0 && k == 24
    ensures var net := Network(FromOctets(o1, o2, o3, z), k);
            WellFormed(net)
            && PoolAddresses(net, gateway) == Range(FromOctets(o1, o2, o3, z) + 2, FromOctets(o1, o2, o3, z) + 255)
            && |PoolAddresses(net, gateway)| == 253
  {
    var a := FromOctets(o1, o2, o3, z);
    SampleAddressText(o1, o2, o3, o3);
    assert Decimal(o3) == ['1'];
    SampleLastOctet(Decimal(o3));
    assert FromOctets(o1, o2, o3, o3) == a + 1;
    ParseFormat(a + 1);
    assert ParseAddress(gateway) == Some(a + 1);
    Binary.Pow2Values();
    assert HostSpan(k) == 256;
    assert a == (o1 * 0x1_0000 + o2 * 0x100 + o3) * 256;
    MultipleMod(o1 * 0x1_0000 + o2 * 0x100 + o3, 256);
    var net := Network(a, k);
    assert WellFormed(net);
    GatewayOnFirstHost(net, gateway);
  }

  /** The pool the initialisation script creates: network 192.168.1.0,
      mask 255.255.255.0 and gateway 192.168.1.1 parse as 192.168.1.0/24,
      and the pool gets the 253 addresses 192.168.1.2 to 192.168.1.254. */
  lemma SamplePool(network: string, mask: string, gateway: string)
    requires network == "192.168.1.0" && mask == "255.255.255.0" && gateway == "192.168.1.1"
    ensures ParseNetwork(network + "/" + mask) == Some(Network(FromOctets(192, 168, 1, 0), 24))
    ensures var net := Network(FromOctets(192, 168, 1, 0), 24);
            WellFormed(net)
            && PoolAddresses(net, gateway) == Range(FromOctets(192, 168, 1, 2), FromOctets(192, 168, 1, 255))
            && |PoolAddresses(net, gateway)| == 253
  {
    var o1, o2, o3, z, k := 192, 168, 1, 0, 24;
    SampleNetwork(network, mask, o1, o2, o3, z, k);
    SampleHosts(gateway, o1, o2, o3, z, k);
  }

  /** `get_ip_pool_by_id`. */
  function PoolById(pools: seq<Pool>, id: nat): (r: Option<Pool>)
    ensures r.Some? ==> r.value in pools && r.value.id == id
    ensures r.None? ==> forall p :: p in pools ==> p.id != id
  {
    match FirstFailing(pools, (p: Pool) => p.id != id)
    case None => None
    case Some(k) => Some(pools[k])
  }

  /** `filter(IPAllocation.id == id).first()`. */
  function RecordById(table: seq<Allocation>, id: int): (r: Option<nat>)
    ensures r.Some? ==> r.value < |table| && table[r.value].id == id
    ensures r.None? ==> forall a :: a in table ==> a.id != id
  {
    FirstFailing(table, (a: Allocation) => a.id != id)
  }

  /** The pool table and the address table, with the counters the database
      draws row ids from. */
  class AddressInventory {
    var pools: seq<Pool>
    var allocations: seq<Allocation>
    var nextPoolId: nat
    var nextAllocationId: nat

    /** The uniqueness constraints of the two tables, available records
        with nothing attached, and ids below the counters. */
    ghost predicate Valid()
      reads this
    {
      UniqueAddresses(allocations) && UniqueIds(allocations) && Cleared(allocations)
      && (forall i, j :: 0 <= i < j < |pools| ==> pools[i].name != pools[j].name)
      && (forall p :: p in pools ==> 1 <= p.id < nextPoolId)
      && (forall a :: a in allocations ==> 1 <= a.id < nextAllocationId)
      && nextPoolId >= 1 && nextAllocationId >= 1
    }

    constructor ()
      ensures Valid()
      ensures pools == [] && allocations == [] && nextPoolId == 1 && nextAllocationId == 1
    {
      pools := [];
      allocations := [];
      nextPoolId := 1;
      nextAllocationId := 1;
    }

    /** `create_ip_pool`. A network and mask that do not parse together, or a
        name already taken, refuse the pool with nothing changed. Otherwise
        the pool is committed first, its network stored in canonical form;
        then one available record per pool address is added, and committed
        unless one of those addresses is already recorded, in which case the
        records are rolled back, the pool stays and the call still fails. */
    method CreatePool(name: string, network: string, gateway: string, subnetMask: string,
                      dnsServers: string, vlanId: Option<int>, notes: Option<string>)
      returns (r: Result<Pool, IpError>)
      requires Valid()
      modifies this
      ensures Valid()
      ensures ParseNetwork(network + "/" + subnetMask).None? ==>
                r == Err(InvalidNetwork) && unchanged(this)
      ensures ParseNetwork(network + "/" + subnetMask).Some? && name in PoolNames(old(pools)) ==>
                r == Err(DuplicatePoolName) && unchanged(this)
      ensures ParseNetwork(network + "/" + subnetMask).Some? && name !in PoolNames(old(pools)) ==>
                var net := ParseNetwork(network + "/" + subnetMask).value;
                var pool := Pool(old(nextPoolId), name, FormatNetwork(net), gateway, subnetMask,
                                 dnsServers, vlanId, notes, true);
                pools == old(pools) + [pool] && nextPoolId == old(nextPoolId) + 1
                && PoolRecordsAdded(net, gateway, pool.id, old(allocations), old(nextAllocationId),
                                    allocations, nextAllocationId, r, pool)
    {
      var parsed := ParseNetwork(network + "/" + subnetMask);
      if parsed.None? {
        return Err(InvalidNetwork);
      }
      var net := parsed.value;
      if name in PoolNames(pools) {
        return Err(DuplicatePoolName);
      }
      var pool := Pool(nextPoolId, name, FormatNetwork(net), gateway, subnetMask,
                       dnsServers, vlanId, notes, true);
      CommitPool(pool);
      r := AddPoolRecords(net, gateway, pool);
    }

    /** The first half of `create_ip_pool`: the pool row, under the next id. */
    method CommitPool(pool: Pool)
      requires Valid() && pool.id == nextPoolId && pool.name !in PoolNames(pools)
      modifies this
      ensures Valid()
      ensures pools == old(pools) + [pool] && nextPoolId == old(nextPoolId) + 1
      ensures allocations == old(allocations) && nextAllocationId == old(nextAllocationId)
    {
      NamesOf(pools, pool.name);
      pools := pools + [pool];
      nextPoolId := nextPoolId + 1;
    }

    /** The second half of `create_ip_pool`: the records of the pool's
        addresses, committed together or not at all. */
    method AddPoolRecords(net: Network, gateway: string, pool: Pool) returns (r: Result<Pool, IpError>)
      requires Valid() && WellFormed(net) && 1 <= pool.id
      modifies this
      ensures Valid()
      ensures pools == old(pools) && nextPoolId == old(nextPoolId)
      ensures PoolRecordsAdded(net, gateway, pool.id, old(allocations), old(nextAllocationId),
                               allocations, nextAllocationId, r, pool)
    {
      var addrs := PoolAddresses(net, gateway);
      var added := BuildRecords(addrs, pool.id, nextAllocationId);
      if Clashes(added, allocations) {
        return Err(DuplicateAddress);
      }
      AppendPoolRecords(allocations, addrs, pool.id, nextAllocationId);
      allocations := allocations + added;
      nextAllocationId := nextAllocationId + |addrs|;
      r := Ok(pool);
    }

    /** `allocate_ip`, as `AllocateIn` says; the record is returned. */
    method Allocate(address: string, userId: Option<int>, hostname: Option<string>,
                    mac: Option<string>, notes: Option<string>)
      returns (r: Result<Allocation, IpError>)
      requires Valid()
      modifies this
      ensures Valid()
      ensures pools == old(pools) && nextPoolId == old(nextPoolId)
      ensures nextAllocationId == old(nextAllocationId)
      ensures match AllocateIn(old(allocations), address, userId, hostname, mac, notes)
              case Ok(t) => allocations == t && r == Ok(t[IndexOf(old(allocations), address).value])
              case Err(e) => allocations == old(allocations) && r == Err(e)
    {
      var found := IndexOf(allocations, address);
      if found.None? {
        return Err(UnknownAddress);
      }
      var i := found.value;
      if allocations[i].status != Available {
        return Err(NotAvailable(allocations[i].status));
      }
      ReplaceRecord(allocations, i, Assigned(allocations[i], userId, hostname, mac, notes), nextAllocationId);
      allocations := allocations[i := Assigned(allocations[i], userId, hostname, mac, notes)];
      r := Ok(allocations[i]);
    }

    /** `reserve_ip`, as `ReserveIn` says; the record is returned. */
    method Reserve(address: string, notes: Option<string>) returns (r: Result<Allocation, IpError>)
      requires Valid()
      modifies this
      ensures Valid()
      ensures pools == old(pools) && nextPoolId == old(nextPoolId)
      ensures nextAllocationId == old(nextAllocationId)
      ensures match ReserveIn(old(allocations), address, notes)
              case Ok(t) => allocations == t && r == Ok(t[IndexOf(old(allocations), address).value])
              case Err(e) => allocations == old(allocations) && r == Err(e)
    {
      var found := IndexOf(allocations, address);
      if found.None? {
        return Err(UnknownAddress);
      }
      var i := found.value;
      if allocations[i].status != Available {
        return Err(NotAvailable(allocations[i].status));
      }
      ReplaceRecord(allocations, i, allocations[i].(status := Reserved, notes := notes), nextAllocationId);
      allocations := allocations[i := allocations[i].(status := Reserved, notes := notes)];
      r := Ok(allocations[i]);
    }

    /** `release_ip`, as `ReleaseIn` says; the record is returned. */
    method Release(address: string) returns (r: Result<Allocation, IpError>)
      requires Valid()
      modifies this
      ensures Valid()
      ensures pools == old(pools) && nextPoolId == old(nextPoolId)
      ensures nextAllocationId == old(nextAllocationId)
      ensures match ReleaseIn(old(allocations), address)
              case Ok(t) => allocations == t && r == Ok(t[IndexOf(old(allocations), address).value])
              case Err(e) => allocations == old(allocations) && r == Err(e)
    {
      var found := IndexOf(allocations, address);
      if found.None? {
        return Err(UnknownAddress);
      }
      var i := found.value;
      if allocations[i].status == Available {
        return Err(AlreadyAvailable);
      }
      ReplaceRecord(allocations, i, Released(allocations[i]), nextAllocationId);
      allocations := allocations[i := Released(allocations[i])];
      r := Ok(allocations[i]);
    }
  }

  /** Some new record repeats an address already recorded. */
  predicate Clashes(added: seq<Allocation>, table: seq<Allocation>) {
    exists i :: 0 <= i < |added| && added[i].address in Addresses(table)
  }

  /** What the record half of `create_ip_pool` leaves: the records of every
      pool address appended and committed, or, on a repeated address,
      nothing added and the error. */
  ghost predicate PoolRecordsAdded(net: Network, gateway: string, poolId: nat,
                                   before: seq<Allocation>, nextBefore: nat,
                                   after: seq<Allocation>, nextAfter: nat,
                                   r: Result<Pool, IpError>, pool: Pool)
    requires WellFormed(net)
  {
    var addrs := PoolAddresses(net, gateway);
    (forall i :: 0 <= i < |addrs| ==> addrs[i] < AddressSpace)
    && var added := NewRecords(addrs, poolId, nextBefore);
       if Clashes(added, before) then
         r == Err(DuplicateAddress) && after == before && nextAfter == nextBefore
       else
         r == Ok(pool) && after == before + added && nextAfter == nextBefore + |addrs|
  }

  /** The loop of `create_ip_pool` that makes one available record per
      address, with consecutive ids. */
  method BuildRecords(addresses: seq<nat>, poolId: nat, firstId: nat) returns (added: seq<Allocation>)
    requires forall i :: 0 <= i < |addresses| ==> addresses[i] < AddressSpace
    ensures added == NewRecords(addresses, poolId, firstId)
  {
    added := [];
    var k := 0;
    while k < |addresses|
      invariant 0 <= k <= |addresses|
      invariant added == NewRecords(addresses[..k], poolId, firstId)
    {
      added := added + [Allocation(firstId + k, FormatAddress(addresses[k]), poolId,
                                   None, Available, None, None, None)];
      k := k + 1;
    }
    assert addresses[..k] == addresses;
  }

  /** The name column of the pool table. */
  function PoolNames(pools: seq<Pool>): (r: seq<string>)
    ensures |r| == |pools| && forall i :: 0 <= i < |pools| ==> r[i] == pools[i].name
  {
    seq(|pools|, i requires 0 <= i < |pools| => pools[i].name)
  }

  lemma NamesOf(pools: seq<Pool>, name: string)
    requires name !in PoolNames(pools)
    ensures forall i :: 0 <= i < |pools| ==> pools[i].name != name
  {
  }
}
