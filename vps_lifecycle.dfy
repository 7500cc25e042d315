/** What each operation of the orchestrator does to the database and to the
    log of hypervisor calls, as a function of the state before it. The
    database holds the address records, the servers, the backups and the
    counters row ids are drawn from; the pool table is only read. A
    state-changing hypervisor call raises exactly when its position in the
    log is in `failing`. Every commit the service makes is kept, whatever
    fails after it. */
module VpsLifecycle {
  import opened Wrappers
  import opened Records
  import opened IpManager
  import opened Hypervisor
  import opened VpsSchemas
  import opened VpsProvisioning

  /** The tables the orchestrator writes. */
  datatype Db = Db(
    allocations: seq<Allocation>,
    servers: seq<Server>,
    backups: seq<Backup>,
    nextServerId: nat,
    nextBackupId: nat)

  /** Why an operation raised. */
  datatype VpsError =
    | NoSuchServer
    | Unresolved(reason: ResolveError)
    | AddressError(cause: IpError)
    | PoolNotFound
    | UndefinedName
    | DuplicateVmid
    | BadSubnetMask
    | RemoteFailure
    | DuplicateBackupId

  /** The database and call log an operation leaves, and what it returns. */
  datatype Outcome<T> = Outcome(db: Db, calls: seq<Call>, result: Result<T, VpsError>)

  /** The `vmid` column is unique. */
  predicate UniqueVmids(servers: seq<Server>) {
    forall i, j :: 0 <= i < j < |servers| ==> servers[i].vmid != servers[j].vmid
  }

  /** The `backup_id` column is unique. */
  predicate UniqueBackupNames(backups: seq<Backup>) {
    forall i, j :: 0 <= i < j < |backups| ==> backups[i].backupId != backups[j].backupId
  }

  /** The constraints of the tables, available records with nothing
      attached, and row ids below their counters. */
  predicate Consistent(db: Db) {
    UniqueAddresses(db.allocations) && UniqueIds(db.allocations) && Cleared(db.allocations)
    && UniqueVmids(db.servers) && UniqueBackupNames(db.backups)
    && (forall s :: s in db.servers ==> 1 <= s.id < db.nextServerId)
    && (forall b :: b in db.backups ==> 1 <= b.id < db.nextBackupId)
    && (forall a :: a in db.allocations ==> a.id >= 1)
    && db.nextServerId >= 1 && db.nextBackupId >= 1
  }

  /** `filter(VPSServer.id == id).first()`. */
  function ServerIndex(servers: seq<Server>, id: int): (r: Option<nat>)
    ensures r.Some? ==> r.value < |servers| && servers[r.value].id == id
                        && forall j :: 0 <= j < r.value ==> servers[j].id != id
    ensures r.None? ==> forall s :: s in servers ==> s.id != id
  {
    FirstFailing(servers, (s: Server) => s.id != id)
  }

  // ---------------------------------------------------------------------
  // get_vps_by_user, get_all_vps, get_vps_backups

  /** The servers of one user, in table order. */
  function OwnedBy(servers: seq<Server>, userId: int): (r: seq<Server>)
    ensures |r| <= |servers|
    ensures forall s :: s in r <==> s in servers && s.userId == userId
  {
    Filter(servers, (s: Server) => s.userId == userId)
  }

  /** `get_vps_by_user`: one page of the user's servers, in table order. A
      page from the start that is large enough holds every one of them. */
  function ServersOfUser(servers: seq<Server>, userId: int, skip: nat, limit: nat): (r: seq<Server>)
    ensures var owned := OwnedBy(servers, userId);
            |r| == (if skip >= |owned| then 0 else if skip + limit <= |owned| then limit else |owned| - skip)
            && forall i :: 0 <= i < |r| ==> r[i] == owned[skip + i]
    ensures |r| <= limit
    ensures forall s :: s in r ==> s in servers && s.userId == userId
    ensures skip == 0 && limit >= |servers| ==> forall s :: s in servers && s.userId == userId ==> s in r
  {
    var owned := OwnedBy(servers, userId);
    var r := Page(owned, skip, limit);
    assert forall s :: s in r ==> s in owned;
    r
  }

  /** `get_all_vps`: the servers from position `skip` on, at most `limit`
      of them, in table order. */
  function AllServers(servers: seq<Server>, skip: nat, limit: nat): (r: seq<Server>)
    ensures |r| == if skip >= |servers| then 0 else if skip + limit <= |servers| then limit else |servers| - skip
    ensures forall i :: 0 <= i < |r| ==> r[i] == servers[skip + i]
  {
    Page(servers, skip, limit)
  }

  /** The backups of one server, in table order. */
  function BackupsOf(backups: seq<Backup>, serverId: int): (r: seq<Backup>)
    ensures |r| <= |backups|
    ensures forall b :: b in r <==> b in backups && b.serverId == serverId
  {
    Filter(backups, (b: Backup) => b.serverId == serverId)
  }

  /** `get_vps_backups`: one page of a server's backups, in table order. */
  function ServerBackups(backups: seq<Backup>, serverId: int, skip: nat, limit: nat): (r: seq<Backup>)
    ensures var mine := BackupsOf(backups, serverId);
            |r| == (if skip >= |mine| then 0 else if skip + limit <= |mine| then limit else |mine| - skip)
            && forall i :: 0 <= i < |r| ==> r[i] == mine[skip + i]
    ensures |r| <= limit
    ensures forall b :: b in r ==> b in backups && b.serverId == serverId
    ensures skip == 0 && limit >= |backups| ==> forall b :: b in backups && b.serverId == serverId ==> b in r
  {
    var mine := BackupsOf(backups, serverId);
    var r := Page(mine, skip, limit);
    assert forall b :: b in r ==> b in mine;
    r
  }

  // ---------------------------------------------------------------------
  // create_vps

  /** The server row `create_vps` inserts: "creating", never backed up,
      owned by the caller, on the VM id and address record chosen, with the
      request's name, node and sizes. */
  function NewServer(id: nat, userId: int, req: CreateRequest, vmid: int, allocationId: nat): (s: Server)
    ensures s.status == "creating" && s.lastBackupAt.None?
    ensures s.id == id && s.userId == userId && s.vmid == vmid && s.allocationId == allocationId
    ensures s.name == req.name && s.nodeName == req.nodeName && s.cpuCores == req.cpuCores
            && s.memory == req.memory && s.diskSize == req.diskSize && s.bandwidth == req.bandwidth
  {
    Server(id, req.name, vmid, req.nodeName, userId, "creating", req.cpuCores, req.memory,
           req.diskSize, req.bandwidth, req.osType, req.osTemplate, allocationId, req.notes, None)
  }

  /** The database with one more server row. */
  function Added(db: Db, s: Server): Db {
    db.(servers := db.servers + [s], nextServerId := db.nextServerId + 1)
  }

  /** `create_vps` with `IPPool` in scope. The address is resolved first
      (nothing changes when there is none); `allocate_ip` then commits the
      claim. A missing pool or a VM id already recorded fails with the
      address still allocated; the server row is then committed as
      "creating", and a mask that does not convert fails with that row left
      as it is. The hypervisor is asked to create and then start the VM;
      when either raises, the address is released and the row ends
      "failed", otherwise it ends "running". */
  function CreateSpec(db: Db, pools: seq<Pool>, calls: seq<Call>, failing: set<nat>,
                      vmid: int, userId: int, req: CreateRequest): (o: Outcome<Server>)
    ensures o.db.backups == db.backups && o.db.nextBackupId == db.nextBackupId
    ensures calls <= o.calls && |o.calls| <= |calls| + 2
  {
    match Resolve(db.allocations, req.allocationId, req.poolId)
    case Err(e) => Outcome(db, calls, Err(Unresolved(e)))
    case Ok(i) => Claim(db, pools, calls, failing, vmid, userId, req, db.allocations[i].address)
  }

  /** From `allocate_ip` on. */
  function Claim(db: Db, pools: seq<Pool>, calls: seq<Call>, failing: set<nat>,
                 vmid: int, userId: int, req: CreateRequest, address: string): (o: Outcome<Server>)
    ensures o.db.backups == db.backups && o.db.nextBackupId == db.nextBackupId
    ensures calls <= o.calls && |o.calls| <= |calls| + 2
    ensures o.result.Err? ==> !o.result.error.Unresolved?
  {
    match AllocateIn(db.allocations, address, Some(userId), Some(req.name), None, None)
    case Err(e) => Outcome(db, calls, Err(AddressError(e)))
    case Ok(t) =>
      Register(db.(allocations := t), pools, calls, failing, vmid, userId, req,
               t[IndexOf(db.allocations, address).value])
  }

  /** From the pool lookup on, with the claimed record. */
  function Register(db: Db, pools: seq<Pool>, calls: seq<Call>, failing: set<nat>,
                    vmid: int, userId: int, req: CreateRequest, rec: Allocation): (o: Outcome<Server>)
    ensures o.db.backups == db.backups && o.db.nextBackupId == db.nextBackupId
    ensures calls <= o.calls && |o.calls| <= |calls| + 2
    ensures o.result.Err? ==> !o.result.error.Unresolved?
  {
    match PoolById(pools, rec.poolId)
    case None => Outcome(db, calls, Err(PoolNotFound))
    case Some(pool) =>
      if vmid in Vmids(db.servers) then Outcome(db, calls, Err(DuplicateVmid))
      else
        var s := NewServer(db.nextServerId, userId, req, vmid, rec.id);
        match CidrOf(pool.subnetMask)
        case None => Outcome(Added(db, s), calls, Err(BadSubnetMask))
        case Some(cidr) =>
          Provision(db, calls, failing, s, rec.address, ParamsFor(req, vmid, rec.address, pool, cidr))
  }

  /** The parameters posted for a new server on an address of `pool`. */
  function ParamsFor(req: CreateRequest, vmid: int, address: string, pool: Pool, cidr: nat): VmParams {
    VmParamsFor(vmid, req.name, req.cpuCores, req.memory, address, cidr,
                pool.gateway, pool.dnsServers, req.osType, req.osTemplate)
  }

  /** Everything after the claim that `create_vps` needs before calling the
      hypervisor: the record's pool, a VM id not yet recorded and a mask
      that converts. */
  predicate Provisionable(db: Db, pools: seq<Pool>, vmid: int, rec: Allocation) {
    PoolById(pools, rec.poolId).Some? && vmid !in Vmids(db.servers)
    && CidrOf(PoolById(pools, rec.poolId).value.subnetMask).Some?
  }

  /** The remote half: create, mark "stopped", start, mark "running". */
  function Provision(db: Db, calls: seq<Call>, failing: set<nat>, s: Server, address: string,
                     params: VmParams): (o: Outcome<Server>)
    ensures o.db.backups == db.backups && o.db.nextBackupId == db.nextBackupId
    ensures calls <= o.calls && |o.calls| <= |calls| + 2
    ensures o.result.Err? ==> !o.result.error.Unresolved?
  {
    var create := CreateVm(s.nodeName, params);
    var start := StartVm(s.nodeName, s.vmid);
    if |calls| in failing then Abandon(db, calls + [create], s, address)
    else if |calls| + 1 in failing then Abandon(db, calls + [create, start], s.(status := "stopped"), address)
    else Outcome(Added(db, s.(status := "running")), calls + [create, start], Ok(s.(status := "running")))
  }

  /** The three paths through `Provision`, one per hypervisor call that
      can fail. */
  lemma ProvisionPaths(db: Db, calls: seq<Call>, failing: set<nat>, s: Server, address: string,
                       params: VmParams)
    ensures var o := Provision(db, calls, failing, s, address, params);
            var create, start := CreateVm(s.nodeName, params), StartVm(s.nodeName, s.vmid);
            (|calls| in failing ==> o == Abandon(db, calls + [create], s, address))
            && (|calls| !in failing && |calls| + 1 in failing
                ==> o == Abandon(db, calls + [create, start], s.(status := "stopped"), address))
            && (|calls| !in failing && |calls| + 1 !in failing
                ==> o == Outcome(Added(db, s.(status := "running")), calls + [create, start],
                                 Ok(s.(status := "running"))))
  {
  }

  /** The compensation: release the address, then mark the row "failed". */
  function Abandon(db: Db, calls: seq<Call>, s: Server, address: string): (o: Outcome<Server>)
    ensures o.db.backups == db.backups && o.db.nextBackupId == db.nextBackupId && o.calls == calls
    ensures o.result.Err? && !o.result.error.Unresolved?
  {
    match ReleaseIn(db.allocations, address)
    case Err(e) => Outcome(Added(db, s), calls, Err(AddressError(e)))
    case Ok(t) => Outcome(Added(db.(allocations := t), s.(status := "failed")), calls, Err(RemoteFailure))
  }

  /** `create_vps` as written: `IPPool` is not imported, so the pool lookup
      raises a name error right after `allocate_ip` has committed. */
  function CreateSpecAsWritten(db: Db, calls: seq<Call>, userId: int, req: CreateRequest): (o: Outcome<Server>)
    ensures o.calls == calls && o.db.servers == db.servers
  {
    match Resolve(db.allocations, req.allocationId, req.poolId)
    case Err(e) => Outcome(db, calls, Err(Unresolved(e)))
    case Ok(i) =>
      match AllocateIn(db.allocations, db.allocations[i].address, Some(userId), Some(req.name), None, None)
      case Err(e) => Outcome(db, calls, Err(AddressError(e)))
      case Ok(t) => Outcome(db.(allocations := t), calls, Err(UndefinedName))
  }

  /** The record at `i` as `allocate_ip` leaves it for a new server. */
  function ClaimedTable(table: seq<Allocation>, i: nat, userId: int, name: string): seq<Allocation>
    requires i < |table|
  {
    table[i := Assigned(table[i], Some(userId), Some(name), None, None)]
  }

  /** On a table with unique addresses, allocating the address of an
      available record claims exactly that record. */
  lemma ClaimAvailable(table: seq<Allocation>, i: nat, userId: int, name: string)
    requires UniqueAddresses(table) && i < |table| && table[i].status == Available
    ensures IndexOf(table, table[i].address) == Some(i)
    ensures AllocateIn(table, table[i].address, Some(userId), Some(name), None, None)
            == Ok(ClaimedTable(table, i, userId, name))
  {
    IndexOfUnique(table, i);
    var t := AllocateIn(table, table[i].address, Some(userId), Some(name), None, None).value;
    assert t == ClaimedTable(table, i, userId, name);
  }

  /** Once an address resolves on a consistent table, `create_vps` goes on
      with the claimed record. */
  lemma CreateReachesRegister(db: Db, pools: seq<Pool>, calls: seq<Call>, failing: set<nat>,
                              vmid: int, userId: int, req: CreateRequest)
    requires UniqueAddresses(db.allocations) && Resolve(db.allocations, req.allocationId, req.poolId).Ok?
    ensures var i := Resolve(db.allocations, req.allocationId, req.poolId).value;
            var t := ClaimedTable(db.allocations, i, userId, req.name);
            CreateSpec(db, pools, calls, failing, vmid, userId, req)
            == Register(db.(allocations := t), pools, calls, failing, vmid, userId, req, t[i])
  {
    var i := Resolve(db.allocations, req.allocationId, req.poolId).value;
    ClaimAvailable(db.allocations, i, userId, req.name);
  }

  /** Claiming an available record keeps the table's constraints. */
  lemma ClaimKeepsTable(table: seq<Allocation>, i: nat, userId: int, name: string)
    requires UniqueAddresses(table) && UniqueIds(table) && Cleared(table)
    requires i < |table| && table[i].status == Available
    ensures var t := ClaimedTable(table, i, userId, name);
            UniqueAddresses(t) && UniqueIds(t) && Cleared(t)
            && ReleaseIn(t, table[i].address) == Ok(table)
    ensures (forall a :: a in table ==> a.id >= 1) ==>
              forall a :: a in ClaimedTable(table, i, userId, name) ==> a.id >= 1
  {
    var t := ClaimedTable(table, i, userId, name);
    ClaimAvailable(table, i, userId, name);
    AllocateThenRelease(table, table[i].address, Some(userId), Some(name), None, None);
    forall j, k | 0 <= j < k < |t| ensures t[j].address != t[k].address && t[j].id != t[k].id {
    }
    if forall a :: a in table ==> a.id >= 1 {
      forall a | a in t ensures a.id >= 1 {
        var j :| 0 <= j < |t| && t[j] == a;
        assert table[j] in table;
      }
    }
  }

  /** `create_vps` succeeds exactly when an address resolves, everything
      after the claim is in place and both hypervisor calls succeed. The new
      server is then "running" on the claimed record, which is allocated to
      the user under the server's name, and the hypervisor was asked to
      create and start exactly that VM. */
  lemma CreateSucceeds(db: Db, pools: seq<Pool>, calls: seq<Call>, failing: set<nat>,
                       vmid: int, userId: int, req: CreateRequest)
    requires Consistent(db)
    ensures var o := CreateSpec(db, pools, calls, failing, vmid, userId, req);
            var res := Resolve(db.allocations, req.allocationId, req.poolId);
            (o.result.Ok? <==> res.Ok? && Provisionable(db, pools, vmid, db.allocations[res.value])
                               && |calls| !in failing && |calls| + 1 !in failing)
            && (o.result.Ok? ==>
                  var a := db.allocations[res.value];
                  var pool := PoolById(pools, a.poolId).value;
                  var s := NewServer(db.nextServerId, userId, req, vmid, a.id).(status := "running");
                  o.result.value == s
                  && o.db == Added(db.(allocations := ClaimedTable(db.allocations, res.value, userId, req.name)), s)
                  && o.calls == calls + [CreateVm(req.nodeName, ParamsFor(req, vmid, a.address, pool, CidrOf(pool.subnetMask).value)),
                                         StartVm(req.nodeName, vmid)])
  {
    var res := Resolve(db.allocations, req.allocationId, req.poolId);
    if res.Ok? {
      var i := res.value;
      var t := ClaimedTable(db.allocations, i, userId, req.name);
      CreateReachesRegister(db, pools, calls, failing, vmid, userId, req);
      assert t[i].poolId == db.allocations[i].poolId && t[i].id == db.allocations[i].id
          && t[i].address == db.allocations[i].address;
      RegisterSucceeds(db.(allocations := t), pools, calls, failing, vmid, userId, req, t[i]);
    }
  }

  /** From the pool lookup on, `create_vps` succeeds exactly when the
      record is provisionable and both hypervisor calls succeed, and then
      it adds the running server. */
  lemma RegisterSucceeds(db: Db, pools: seq<Pool>, calls: seq<Call>, failing: set<nat>,
                         vmid: int, userId: int, req: CreateRequest, rec: Allocation)
    ensures var o := Register(db, pools, calls, failing, vmid, userId, req, rec);
            (o.result.Ok? <==> Provisionable(db, pools, vmid, rec)
                               && |calls| !in failing && |calls| + 1 !in failing)
            && (o.result.Ok? ==>
                  var pool := PoolById(pools, rec.poolId).value;
                  var s := NewServer(db.nextServerId, userId, req, vmid, rec.id).(status := "running");
                  o.result.value == s && o.db == Added(db, s)
                  && o.calls == calls + [CreateVm(req.nodeName, ParamsFor(req, vmid, rec.address, pool, CidrOf(pool.subnetMask).value)),
                                         StartVm(req.nodeName, vmid)])
  {
    if Provisionable(db, pools, vmid, rec) {
      var pool := PoolById(pools, rec.poolId).value;
      var s := NewServer(db.nextServerId, userId, req, vmid, rec.id);
      ProvisionPaths(db, calls, failing, s, rec.address,
                     ParamsFor(req, vmid, rec.address, pool, CidrOf(pool.subnetMask).value));
    }
  }

  /** When the hypervisor refuses to create or to start the VM, the claim is
      undone: the address table is exactly as before, and the one new row is
      a "failed" server whose record is available again. */
  lemma CreateRemoteFailure(db: Db, pools: seq<Pool>, calls: seq<Call>, failing: set<nat>,
                            vmid: int, userId: int, req: CreateRequest)
    requires Consistent(db)
    ensures var o := CreateSpec(db, pools, calls, failing, vmid, userId, req);
            var res := Resolve(db.allocations, req.allocationId, req.poolId);
            (o.result == Err(RemoteFailure) <==>
               res.Ok? && Provisionable(db, pools, vmid, db.allocations[res.value])
               && (|calls| in failing || |calls| + 1 in failing))
            && (o.result == Err(RemoteFailure) ==>
                  var a := db.allocations[res.value];
                  o.db == Added(db, NewServer(db.nextServerId, userId, req, vmid, a.id).(status := "failed"))
                  && a.status == Available)
  {
    var res := Resolve(db.allocations, req.allocationId, req.poolId);
    if res.Ok? {
      ClaimKeepsTable(db.allocations, res.value, userId, req.name);
      ClaimAvailable(db.allocations, res.value, userId, req.name);
    }
  }

  /** With no address to resolve, `create_vps` raises before anything is
      written or called; every other failure comes after the resolution. */
  lemma CreateUnresolved(db: Db, pools: seq<Pool>, calls: seq<Call>, failing: set<nat>,
                         vmid: int, userId: int, req: CreateRequest)
    ensures var o := CreateSpec(db, pools, calls, failing, vmid, userId, req);
            var res := Resolve(db.allocations, req.allocationId, req.poolId);
            (res.Err? ==> o == Outcome(db, calls, Err(Unresolved(res.error))))
            && (o.result.Err? && o.result.error.Unresolved? ==> res.Err?)
  {
  }

  /** The failures between `allocate_ip` and the hypervisor calls are not
      compensated: a missing pool, a VM id already recorded and a mask that
      does not convert all leave the address allocated, the last one with a
      "creating" row beside it. */
  lemma CreateUncompensated(db: Db, pools: seq<Pool>, calls: seq<Call>, failing: set<nat>,
                            vmid: int, userId: int, req: CreateRequest)
    requires UniqueAddresses(db.allocations)
    ensures var o := CreateSpec(db, pools, calls, failing, vmid, userId, req);
            var res := Resolve(db.allocations, req.allocationId, req.poolId);
            (o.result == Err(PoolNotFound) || o.result == Err(DuplicateVmid) || o.result == Err(BadSubnetMask) ==>
               res.Ok? && o.calls == calls
               && o.db.allocations == ClaimedTable(db.allocations, res.value, userId, req.name)
               && o.db.allocations[res.value].status == Allocated)
            && (o.result == Err(BadSubnetMask) ==>
                  o.db.servers == db.servers + [NewServer(db.nextServerId, userId, req, vmid, db.allocations[res.value].id)])
            && (o.result == Err(PoolNotFound) || o.result == Err(DuplicateVmid) ==> o.db.servers == db.servers)
  {
    var res := Resolve(db.allocations, req.allocationId, req.poolId);
    if res.Ok? {
      var i := res.value;
      CreateReachesRegister(db, pools, calls, failing, vmid, userId, req);
      var t := ClaimedTable(db.allocations, i, userId, req.name);
      RegisterUncompensated(db.(allocations := t), pools, calls, failing, vmid, userId, req, t[i]);
    }
  }

  /** The errors `Register` raises before the hypervisor is called change
      nothing but what the bad mask's row adds. */
  lemma RegisterUncompensated(db: Db, pools: seq<Pool>, calls: seq<Call>, failing: set<nat>,
                              vmid: int, userId: int, req: CreateRequest, rec: Allocation)
    ensures var o := Register(db, pools, calls, failing, vmid, userId, req, rec);
            (o.result == Err(PoolNotFound) || o.result == Err(DuplicateVmid) ==> o.db == db && o.calls == calls)
            && (o.result == Err(BadSubnetMask) ==>
                  o.db == Added(db, NewServer(db.nextServerId, userId, req, vmid, rec.id)) && o.calls == calls)
  {
    match PoolById(pools, rec.poolId)
    case None =>
    case Some(pool) =>
      if vmid !in Vmids(db.servers) {
        match CidrOf(pool.subnetMask)
        case None =>
        case Some(cidr) =>
          var s := NewServer(db.nextServerId, userId, req, vmid, rec.id);
          ProvisionErrors(db, calls, failing, s, rec.address, ParamsFor(req, vmid, rec.address, pool, cidr));
      }
  }

  /** The remote half raises only for the hypervisor or the release. */
  lemma ProvisionErrors(db: Db, calls: seq<Call>, failing: set<nat>, s: Server, address: string, params: VmParams)
    ensures var o := Provision(db, calls, failing, s, address, params);
            o.result.Err? ==> o.result.error == RemoteFailure || o.result.error.AddressError?
  {
  }

  /** Neither the claim nor the compensating release is ever refused: the
      resolved record is available and the claimed one allocated. */
  lemma CreateNeverRefusesClaim(db: Db, pools: seq<Pool>, calls: seq<Call>, failing: set<nat>,
                                vmid: int, userId: int, req: CreateRequest)
    requires Consistent(db)
    ensures var o := CreateSpec(db, pools, calls, failing, vmid, userId, req);
            !(o.result.Err? && o.result.error.AddressError?)
  {
    var res := Resolve(db.allocations, req.allocationId, req.poolId);
    if res.Ok? {
      var i := res.value;
      ClaimKeepsTable(db.allocations, i, userId, req.name);
      CreateReachesRegister(db, pools, calls, failing, vmid, userId, req);
      var t := ClaimedTable(db.allocations, i, userId, req.name);
      RegisterReleases(db.(allocations := t), pools, calls, failing, vmid, userId, req, t[i]);
    }
  }

  /** When the claimed record can be released, `Register` raises no
      address error. */
  lemma RegisterReleases(db: Db, pools: seq<Pool>, calls: seq<Call>, failing: set<nat>,
                         vmid: int, userId: int, req: CreateRequest, rec: Allocation)
    requires ReleaseIn(db.allocations, rec.address).Ok?
    ensures var o := Register(db, pools, calls, failing, vmid, userId, req, rec);
            !(o.result.Err? && o.result.error.AddressError?)
  {
    match PoolById(pools, rec.poolId)
    case None =>
    case Some(pool) =>
      if vmid !in Vmids(db.servers) {
        match CidrOf(pool.subnetMask)
        case None =>
        case Some(cidr) =>
      }
  }

  /** `create_vps` keeps every table constraint. */
  lemma CreateKeepsConsistent(db: Db, pools: seq<Pool>, calls: seq<Call>, failing: set<nat>,
                              vmid: int, userId: int, req: CreateRequest)
    requires Consistent(db)
    ensures Consistent(CreateSpec(db, pools, calls, failing, vmid, userId, req).db)
  {
    var res := Resolve(db.allocations, req.allocationId, req.poolId);
    if res.Ok? {
      var i := res.value;
      ClaimKeepsTable(db.allocations, i, userId, req.name);
      CreateReachesRegister(db, pools, calls, failing, vmid, userId, req);
      var t := ClaimedTable(db.allocations, i, userId, req.name);
      RegisterKeepsConsistent(db.(allocations := t), pools, calls, failing, vmid, userId, req, t[i]);
    }
  }

  /** From the pool lookup on, the table constraints are kept. */
  lemma RegisterKeepsConsistent(db: Db, pools: seq<Pool>, calls: seq<Call>, failing: set<nat>,
                                vmid: int, userId: int, req: CreateRequest, rec: Allocation)
    requires Consistent(db)
    ensures Consistent(Register(db, pools, calls, failing, vmid, userId, req, rec).db)
  {
    match PoolById(pools, rec.poolId)
    case None =>
    case Some(pool) =>
      if vmid !in Vmids(db.servers) {
        var s := NewServer(db.nextServerId, userId, req, vmid, rec.id);
        AddedConsistent(db, s);
        match CidrOf(pool.subnetMask)
        case None =>
        case Some(cidr) =>
          ProvisionKeepsConsistent(db, calls, failing, s, rec.address, ParamsFor(req, vmid, rec.address, pool, cidr));
      }
  }

  /** The remote half keeps the table constraints. */
  lemma ProvisionKeepsConsistent(db: Db, calls: seq<Call>, failing: set<nat>, s: Server, address: string,
                                 params: VmParams)
    requires Consistent(db) && s.vmid !in Vmids(db.servers) && s.id == db.nextServerId
    ensures Consistent(Provision(db, calls, failing, s, address, params).db)
  {
    AddedConsistent(db, s);
    AddedConsistent(db, s.(status := "stopped"));
    AddedConsistent(db, s.(status := "running"));
    ReleaseKeepsTable(db.allocations, address);
    if ReleaseIn(db.allocations, address).Ok? {
      var t := ReleaseIn(db.allocations, address).value;
      AddedConsistent(db.(allocations := t), s.(status := "failed"));
    }
  }

  /** A server with a fresh VM id and the next row id keeps the constraints. */
  lemma AddedConsistent(db: Db, s: Server)
    requires Consistent(db) && s.vmid !in Vmids(db.servers) && s.id == db.nextServerId
    ensures Consistent(Added(db, s))
  {
    AddedKeepsServers(db.servers, s, db.nextServerId);
  }

  /** Releasing a record keeps the address table's constraints. */
  lemma ReleaseKeepsTable(table: seq<Allocation>, address: string)
    requires UniqueAddresses(table) && UniqueIds(table) && Cleared(table)
    ensures ReleaseIn(table, address).Ok? ==>
              var t := ReleaseIn(table, address).value;
              UniqueAddresses(t) && UniqueIds(t) && Cleared(t)
              && ((forall a :: a in table ==> a.id >= 1) ==> forall a :: a in t ==> a.id >= 1)
  {
    if ReleaseIn(table, address).Ok? {
      var t := ReleaseIn(table, address).value;
      forall j, k | 0 <= j < k < |t| ensures t[j].address != t[k].address && t[j].id != t[k].id {
      }
      if forall a :: a in table ==> a.id >= 1 {
        forall a | a in t ensures a.id >= 1 {
          var j :| 0 <= j < |t| && t[j] == a;
          assert table[j] in table;
        }
      }
    }
  }

  /** Appending a server with a fresh VM id and the next row id keeps the
      server table's constraints. */
  lemma AddedKeepsServers(servers: seq<Server>, s: Server, next: nat)
    requires UniqueVmids(servers) && forall x :: x in servers ==> 1 <= x.id < next
    requires s.vmid !in Vmids(servers) && s.id == next >= 1
    ensures UniqueVmids(servers + [s]) && forall x :: x in servers + [s] ==> 1 <= x.id < next + 1
  {
    var after := servers + [s];
    forall i, j | 0 <= i < j < |after| ensures after[i].vmid != after[j].vmid {
      if j == |servers| {
        assert after[i] == servers[i];
        assert Vmids(servers)[i] == servers[i].vmid;
      } else {
        assert after[i] == servers[i] && after[j] == servers[j];
      }
    }
  }

  /** As written, `create_vps` never succeeds: once an address resolves,
      `allocate_ip` commits the claim, the pool lookup raises a name error
      and the outer rollback has nothing left to undo. The address stays
      allocated with no server: it is offered to no later request and the
      count of available addresses drops by one. */
  lemma CreateAsWrittenLeaks(db: Db, calls: seq<Call>, userId: int, req: CreateRequest)
    requires Consistent(db)
    ensures var o := CreateSpecAsWritten(db, calls, userId, req);
            var res := Resolve(db.allocations, req.allocationId, req.poolId);
            o.result.Err?
            && (res.Err? ==> o.db == db)
            && (res.Ok? ==>
                  var address := db.allocations[res.value].address;
                  o.result == Err(UndefinedName)
                  && o.db == db.(allocations := ClaimedTable(db.allocations, res.value, userId, req.name))
                  && (forall p :: FirstAvailable(o.db.allocations, p).Some? ==>
                                   o.db.allocations[FirstAvailable(o.db.allocations, p).value].address != address)
                  && Statistics(o.db.allocations, None).availableCount + 1
                     == Statistics(db.allocations, None).availableCount)
  {
    var res := Resolve(db.allocations, req.allocationId, req.poolId);
    if res.Ok? {
      var i := res.value;
      var address := db.allocations[i].address;
      ClaimAvailable(db.allocations, i, userId, req.name);
      forall p | FirstAvailable(ClaimedTable(db.allocations, i, userId, req.name), p).Some?
        ensures ClaimedTable(db.allocations, i, userId, req.name)[FirstAvailable(ClaimedTable(db.allocations, i, userId, req.name), p).value].address != address
      {
        AllocatedNotOffered(db.allocations, address, Some(userId), Some(req.name), None, None, p);
      }
      StatisticsAfterAllocate(db.allocations, address, Some(userId), Some(req.name), None, None, None);
    }
  }

  /** While the hypervisor lists the same VMs (as it does after refusing
      `create_vm`), the next VM id is the one a failed creation recorded on
      its "failed" row, so every later creation fails; one that gets as far
      as the VM id check leaves its address allocated. */
  lemma RetryAfterRemoteFailure(db: Db, pools: seq<Pool>, calls: seq<Call>, failing: set<nat>,
                                nodes: Option<seq<string>>, vmsOn: map<string, seq<int>>,
                                userId: int, req: CreateRequest, userId2: int, req2: CreateRequest)
    requires Consistent(db) && nodes.Some?
    requires CreateSpec(db, pools, calls, failing, NextVmidOf(nodes, vmsOn, Vmids(db.servers)), userId, req).result
             == Err(RemoteFailure)
    ensures var vmid := NextVmidOf(nodes, vmsOn, Vmids(db.servers));
            var o := CreateSpec(db, pools, calls, failing, vmid, userId, req);
            var vmid2 := NextVmidOf(nodes, vmsOn, Vmids(o.db.servers));
            vmid2 == vmid && vmid in Vmids(o.db.servers)
            && !CreateSpec(o.db, pools, o.calls, failing, vmid2, userId2, req2).result.Ok?
  {
    var vmid := NextVmidOf(nodes, vmsOn, Vmids(db.servers));
    var o := CreateSpec(db, pools, calls, failing, vmid, userId, req);
    CreateRemoteFailure(db, pools, calls, failing, vmid, userId, req);
    CreateKeepsConsistent(db, pools, calls, failing, vmid, userId, req);
    assert o.db.servers[|db.servers|].vmid == vmid;
    assert Vmids(o.db.servers)[|db.servers|] == vmid;
    CreateSucceeds(o.db, pools, o.calls, failing, vmid, userId2, req2);
  }

  // ---------------------------------------------------------------------
  // delete_vps

  /** The server table without the row at `k`. */
  function Without(servers: seq<Server>, k: nat): (r: seq<Server>)
    requires k < |servers|
    ensures |r| == |servers| - 1
    ensures forall j :: 0 <= j < k ==> r[j] == servers[j]
    ensures forall j :: k <= j < |r| ==> r[j] == servers[j + 1]
  {
    servers[..k] + servers[k + 1..]
  }

  /** The VM calls `delete_vps` makes for `s`: a stop when it is recorded
      as running, then the delete. */
  function TeardownCalls(s: Server): (r: seq<Call>)
    ensures |r| == if s.status == "running" then 2 else 1
    ensures r[|r| - 1] == DeleteVm(s.nodeName, s.vmid)
    ensures s.status == "running" ==> r[0] == StopVm(s.nodeName, s.vmid)
  {
    (if s.status == "running" then [StopVm(s.nodeName, s.vmid)] else []) + [DeleteVm(s.nodeName, s.vmid)]
  }

  /** `delete_vps`. An unknown id raises. A server recorded as running is
      stopped first; then its VM is deleted; then, when it names an address
      record that exists, that record is released; then the row is removed.
      Any failure rolls the database back, so the row stays, but VM calls
      already made are not undone. */
  function DeleteSpec(db: Db, calls: seq<Call>, failing: set<nat>, id: int): (o: Outcome<Server>)
    ensures calls <= o.calls
  {
    match ServerIndex(db.servers, id)
    case None => Outcome(db, calls, Err(NoSuchServer))
    case Some(k) =>
      var s := db.servers[k];
      if s.status == "running" && |calls| in failing then
        Outcome(db, calls + [StopVm(s.nodeName, s.vmid)], Err(RemoteFailure))
      else if |calls| + |TeardownCalls(s)| - 1 in failing then
        Outcome(db, calls + TeardownCalls(s), Err(RemoteFailure))
      else DropServer(db, k, calls + TeardownCalls(s))
  }

  /** The three paths through `DeleteSpec` once the server is found. */
  lemma DeletePaths(db: Db, calls: seq<Call>, failing: set<nat>, id: int, k: nat)
    requires ServerIndex(db.servers, id) == Some(k)
    ensures var s := db.servers[k];
            var o := DeleteSpec(db, calls, failing, id);
            (s.status == "running" && |calls| in failing
             ==> o == Outcome(db, calls + [StopVm(s.nodeName, s.vmid)], Err(RemoteFailure)))
            && (!(s.status == "running" && |calls| in failing) && |calls| + |TeardownCalls(s)| - 1 in failing
                ==> o == Outcome(db, calls + TeardownCalls(s), Err(RemoteFailure)))
            && (!(s.status == "running" && |calls| in failing) && |calls| + |TeardownCalls(s)| - 1 !in failing
                ==> o == DropServer(db, k, calls + TeardownCalls(s)))
  {
  }

  /** The end of `delete_vps`, once the VM is gone: the server's address
      record, when it names one that exists, is released, then the row is
      removed; a refused release rolls the removal back. */
  function DropServer(db: Db, k: nat, calls: seq<Call>): (o: Outcome<Server>)
    requires k < |db.servers|
    ensures o.calls == calls
    ensures o.result.Err? ==> o.db == db
    ensures o.result.Ok? ==> o.result.value == db.servers[k]
                             && o.db == db.(servers := Without(db.servers, k), allocations := o.db.allocations)
    ensures var s := db.servers[k];
            s.allocationId == 0 || RecordById(db.allocations, s.allocationId).None?
            ==> o.result.Ok? && o.db.allocations == db.allocations
    ensures var s := db.servers[k];
            s.allocationId != 0 && RecordById(db.allocations, s.allocationId).Some?
            ==> var release := ReleaseIn(db.allocations, db.allocations[RecordById(db.allocations, s.allocationId).value].address);
                (release.Ok? ==> o.result.Ok? && o.db.allocations == release.value)
                && (release.Err? ==> o.result == Err(AddressError(release.error)))
  {
    var s := db.servers[k];
    var gone := db.(servers := Without(db.servers, k));
    if s.allocationId == 0 then Outcome(gone, calls, Ok(s))
    else
      match RecordById(db.allocations, s.allocationId)
      case None => Outcome(gone, calls, Ok(s))
      case Some(j) =>
        match ReleaseIn(db.allocations, db.allocations[j].address)
        case Err(e) => Outcome(db, calls, Err(AddressError(e)))
        case Ok(t) => Outcome(gone.(allocations := t), calls, Ok(s))
  }

  /** Every failure of `delete_vps` leaves the database as it was; success
      removes exactly the server's row and returns it, after stopping a
      running VM and deleting it, and leaves the address table as it was
      or with the server's record released. */
  lemma DeleteOutcome(db: Db, calls: seq<Call>, failing: set<nat>, id: int)
    ensures var o := DeleteSpec(db, calls, failing, id);
            (o.result.Err? ==> o.db == db)
            && (ServerIndex(db.servers, id).None? <==> o.result == Err(NoSuchServer))
            && (o.result.Ok? ==>
                  var k := ServerIndex(db.servers, id).value;
                  o.result.value == db.servers[k]
                  && o.db.servers == Without(db.servers, k)
                  && o.calls == calls + TeardownCalls(db.servers[k])
                  && o.db.backups == db.backups
                  && var s := db.servers[k];
                     (s.allocationId == 0 || RecordById(db.allocations, s.allocationId).None?
                      ==> o.db.allocations == db.allocations)
                     && (s.allocationId != 0 && RecordById(db.allocations, s.allocationId).Some?
                         ==> ReleaseIn(db.allocations, db.allocations[RecordById(db.allocations, s.allocationId).value].address)
                             == Ok(o.db.allocations)))
  {
    match ServerIndex(db.servers, id)
    case None =>
    case Some(k) =>
      var s := db.servers[k];
      if s.allocationId != 0 {
        match RecordById(db.allocations, s.allocationId)
        case None =>
        case Some(j) =>
      }
  }

  /** Removing a row keeps the server table's constraints. */
  lemma WithoutKeepsServers(servers: seq<Server>, k: nat, next: nat)
    requires k < |servers| && UniqueVmids(servers) && forall x :: x in servers ==> 1 <= x.id < next
    ensures UniqueVmids(Without(servers, k)) && forall x :: x in Without(servers, k) ==> 1 <= x.id < next
  {
    var r := Without(servers, k);
    forall i, j | 0 <= i < j < |r| ensures r[i].vmid != r[j].vmid {
      var i', j' := if i < k then i else i + 1, if j < k then j else j + 1;
      assert r[i] == servers[i'] && r[j] == servers[j'];
    }
    forall x | x in r ensures 1 <= x.id < next {
      var i :| 0 <= i < |r| && r[i] == x;
      var i' := if i < k then i else i + 1;
      assert servers[i'] in servers;
    }
  }

  /** `delete_vps` keeps every table constraint. */
  lemma DeleteKeepsConsistent(db: Db, calls: seq<Call>, failing: set<nat>, id: int)
    requires Consistent(db)
    ensures Consistent(DeleteSpec(db, calls, failing, id).db)
  {
    match ServerIndex(db.servers, id)
    case None =>
    case Some(k) =>
      DropKeepsConsistent(db, k, calls + TeardownCalls(db.servers[k]));
  }

  /** Releasing a server's record and removing its row keep every table
      constraint. */
  lemma DropKeepsConsistent(db: Db, k: nat, calls: seq<Call>)
    requires Consistent(db) && k < |db.servers|
    ensures Consistent(DropServer(db, k, calls).db)
  {
    WithoutKeepsServers(db.servers, k, db.nextServerId);
    var s := db.servers[k];
    if s.allocationId != 0 {
      match RecordById(db.allocations, s.allocationId)
      case None =>
      case Some(j) =>
        ReleaseKeepsTable(db.allocations, db.allocations[j].address);
    }
  }

  /** The newest row is found by its id when no older row shares it, and
      removing it gives the older rows back. */
  lemma NewestServer(servers: seq<Server>, s: Server)
    requires forall x :: x in servers ==> x.id != s.id
    ensures ServerIndex(servers + [s], s.id) == Some(|servers|)
    ensures Without(servers + [s], |servers|) == servers
  {
  }

  /** A record is found by its id when ids are unique. */
  lemma RecordOfId(table: seq<Allocation>, i: nat)
    requires UniqueIds(table) && i < |table|
    ensures RecordById(table, table[i].id) == Some(i)
  {
    var r := RecordById(table, table[i].id);
    if r != Some(i) {
      assert table[i] in table;
    }
  }

  /** Deleting the newest server, whose VM calls all succeed and whose
      record exists: the outcome is whatever `release_ip` makes of that
      record. */
  lemma DeleteNewest(db: Db, s: Server, i: nat, calls: seq<Call>, failing: set<nat>)
    requires forall x :: x in db.servers ==> x.id != s.id
    requires UniqueIds(db.allocations) && i < |db.allocations|
    requires s.allocationId != 0 && db.allocations[i].id == s.allocationId
    requires |calls| !in failing && |calls| + |TeardownCalls(s)| - 1 !in failing
    ensures var o := DeleteSpec(Added(db, s), calls, failing, s.id);
            o.calls == calls + TeardownCalls(s)
            && match ReleaseIn(db.allocations, db.allocations[i].address)
               case Ok(u) => o.db == db.(allocations := u, nextServerId := db.nextServerId + 1) && o.result == Ok(s)
               case Err(e) => o.db == Added(db, s) && o.result == Err(AddressError(e))
  {
    NewestServer(db.servers, s);
    RecordOfId(db.allocations, i);
  }

  /** Creating a server and then deleting it, with every hypervisor call
      succeeding, gives back the tables as they were: the row is gone and
      the address is available again with nothing attached. Only the row id
      counter has moved on. */
  lemma CreateThenDelete(db: Db, pools: seq<Pool>, calls: seq<Call>, failing: set<nat>,
                         vmid: int, userId: int, req: CreateRequest)
    requires Consistent(db)
    requires CreateSpec(db, pools, calls, failing, vmid, userId, req).result.Ok?
    requires var n := |CreateSpec(db, pools, calls, failing, vmid, userId, req).calls|;
             n !in failing && n + 1 !in failing
    ensures var o := CreateSpec(db, pools, calls, failing, vmid, userId, req);
            var d := DeleteSpec(o.db, o.calls, failing, o.result.value.id);
            d.result == o.result
            && d.db == db.(nextServerId := db.nextServerId + 1)
            && d.calls == o.calls + [StopVm(req.nodeName, vmid), DeleteVm(req.nodeName, vmid)]
  {
    var o := CreateSpec(db, pools, calls, failing, vmid, userId, req);
    CreateSucceeds(db, pools, calls, failing, vmid, userId, req);
    var i := Resolve(db.allocations, req.allocationId, req.poolId).value;
    var t := ClaimedTable(db.allocations, i, userId, req.name);
    ClaimKeepsTable(db.allocations, i, userId, req.name);
    var s := o.result.value;
    assert o.db == Added(db.(allocations := t), s);
    assert s.status == "running" && s.id == db.nextServerId && s.allocationId == db.allocations[i].id;
    assert s.nodeName == req.nodeName && s.vmid == vmid;
    assert t[i].address == db.allocations[i].address && t[i].id == db.allocations[i].id;
    assert db.allocations[i] in db.allocations;
    DeleteClaimed(db, t, s, i, o.calls, failing);
  }

  /** Deleting the newest server, running and holding a claimed record
      whose release restores `db`'s table, gives `db` back. */
  lemma DeleteClaimed(db: Db, t: seq<Allocation>, s: Server, i: nat, calls: seq<Call>, failing: set<nat>)
    requires forall x :: x in db.servers ==> x.id != s.id
    requires UniqueIds(t) && i < |t| && s.allocationId != 0 && t[i].id == s.allocationId
    requires ReleaseIn(t, t[i].address) == Ok(db.allocations)
    requires s.status == "running" && |calls| !in failing && |calls| + 1 !in failing
    ensures DeleteSpec(Added(db.(allocations := t), s), calls, failing, s.id)
         == Outcome(db.(nextServerId := db.nextServerId + 1),
                    calls + [StopVm(s.nodeName, s.vmid), DeleteVm(s.nodeName, s.vmid)], Ok(s))
  {
    assert |TeardownCalls(s)| == 2;
    DeleteNewest(db.(allocations := t), s, i, calls, failing);
  }

  /** Deleting the newest server, "failed" and on an available record:
      `release_ip` refuses, so nothing but the call log changes. */
  lemma DeleteFailedNewest(db: Db, s: Server, i: nat, calls: seq<Call>, failing: set<nat>)
    requires Consistent(db) && s.id == db.nextServerId && s.status == "failed"
    requires i < |db.allocations| && db.allocations[i].id == s.allocationId
    requires db.allocations[i].status == Available && |calls| !in failing
    ensures DeleteSpec(Added(db, s), calls, failing, s.id)
            == Outcome(Added(db, s), calls + [DeleteVm(s.nodeName, s.vmid)], Err(AddressError(AlreadyAvailable)))
  {
    assert db.allocations[i] in db.allocations;
    IndexOfUnique(db.allocations, i);
    DeleteNewest(db, s, i, calls, failing);
  }

  /** A server whose VM could not be created or started cannot be deleted
      afterwards: its record was released when the creation failed, so
      `release_ip` refuses it, the deletion is rolled back and the "failed"
      row stays, even though the hypervisor was already asked to delete the
      VM. */
  lemma FailedServerStays(db: Db, pools: seq<Pool>, calls: seq<Call>, failing: set<nat>,
                          vmid: int, userId: int, req: CreateRequest)
    requires Consistent(db)
    requires CreateSpec(db, pools, calls, failing, vmid, userId, req).result == Err(RemoteFailure)
    requires |CreateSpec(db, pools, calls, failing, vmid, userId, req).calls| !in failing
    ensures var o := CreateSpec(db, pools, calls, failing, vmid, userId, req);
            var d := DeleteSpec(o.db, o.calls, failing, db.nextServerId);
            d.result == Err(AddressError(AlreadyAvailable)) && d.db == o.db
            && d.calls == o.calls + [DeleteVm(req.nodeName, vmid)]
  {
    var o := CreateSpec(db, pools, calls, failing, vmid, userId, req);
    CreateRemoteFailure(db, pools, calls, failing, vmid, userId, req);
    var i := Resolve(db.allocations, req.allocationId, req.poolId).value;
    var s := NewServer(db.nextServerId, userId, req, vmid, db.allocations[i].id).(status := "failed");
    DeleteFailedNewest(db, s, i, o.calls, failing);
  }

  // ---------------------------------------------------------------------
  // start_vps, stop_vps, restart_vps

  /** The three power operations. */
  datatype Power = Start | Stop | Restart

  /** The status a power operation records on success. */
  function Target(action: Power): string {
    if action == Stop then "stopped" else "running"
  }

  /** The hypervisor call a power operation makes. */
  function PowerCall(action: Power, s: Server): Call {
    match action
    case Start => StartVm(s.nodeName, s.vmid)
    case Stop => StopVm(s.nodeName, s.vmid)
    case Restart => RestartVm(s.nodeName, s.vmid)
  }

  /** `start_vps`, `stop_vps` and `restart_vps`. An unknown id raises. A
      start of a server recorded as running, or a stop of one recorded as
      stopped, returns it without calling the hypervisor; a restart always
      calls. When the call raises nothing is written; otherwise the status
      becomes "running" ("stopped" for a stop). */
  function PowerSpec(db: Db, calls: seq<Call>, failing: set<nat>, id: int, action: Power): (o: Outcome<Server>)
    ensures calls <= o.calls && |o.calls| <= |calls| + 1
    ensures o.db.allocations == db.allocations && o.db.backups == db.backups
    ensures |o.db.servers| == |db.servers| && o.db.nextServerId == db.nextServerId
            && o.db.nextBackupId == db.nextBackupId
  {
    match ServerIndex(db.servers, id)
    case None => Outcome(db, calls, Err(NoSuchServer))
    case Some(k) =>
      var s := db.servers[k];
      if action != Restart && s.status == Target(action) then Outcome(db, calls, Ok(s))
      else if |calls| in failing then Outcome(db, calls + [PowerCall(action, s)], Err(RemoteFailure))
      else
        var s' := s.(status := Target(action));
        Outcome(db.(servers := db.servers[k := s']), calls + [PowerCall(action, s)], Ok(s'))
  }

  /** A power operation changes at most the status of the server it names:
      on success that server is returned with the target status, and the
      hypervisor was called unless the server already had it; on failure
      nothing is written. */
  lemma PowerOutcome(db: Db, calls: seq<Call>, failing: set<nat>, id: int, action: Power)
    ensures var o := PowerSpec(db, calls, failing, id, action);
            (o.result.Err? ==> o.db == db)
            && (ServerIndex(db.servers, id).None? <==> o.result == Err(NoSuchServer))
            && (ServerIndex(db.servers, id).Some? ==>
                  var k := ServerIndex(db.servers, id).value;
                  var s := db.servers[k];
                  var skip := action != Restart && s.status == Target(action);
                  (o.result == Err(RemoteFailure) <==> !skip && |calls| in failing)
                  && o.calls == (if skip then calls else calls + [PowerCall(action, s)])
                  && (o.result.Ok? ==>
                        o.result.value == s.(status := Target(action))
                        && o.db == db.(servers := db.servers[k := o.result.value])))
  {
  }

  /** Rewriting a row without changing its id keeps where each id is found. */
  lemma SameIdKeepsIndex(servers: seq<Server>, k: nat, s: Server, id: int)
    requires k < |servers| && s.id == servers[k].id
    ensures ServerIndex(servers[k := s], id) == ServerIndex(servers, id)
  {
    var t := servers[k := s];
    assert forall j :: 0 <= j < |t| ==> t[j].id == servers[j].id;
  }

  /** Starting a started server and stopping a stopped one change nothing
      and call nothing, so repeating a start or a stop that succeeded is
      harmless. A restart is not idempotent: it calls the hypervisor every
      time. */
  lemma {:induction false} PowerIdempotent(db: Db, calls: seq<Call>, failing: set<nat>, id: int, action: Power)
    requires PowerSpec(db, calls, failing, id, action).result.Ok?
    ensures var o := PowerSpec(db, calls, failing, id, action);
            var o2 := PowerSpec(o.db, o.calls, failing, id, action);
            (action != Restart ==> o2 == Outcome(o.db, o.calls, o.result))
            && (action == Restart ==> o2.calls == o.calls + [RestartVm(o.result.value.nodeName, o.result.value.vmid)])
  {
    var k := ServerIndex(db.servers, id).value;
    SameIdKeepsIndex(db.servers, k, db.servers[k].(status := Target(action)), id);
  }

  /** The power operations keep every table constraint. */
  lemma PowerKeepsConsistent(db: Db, calls: seq<Call>, failing: set<nat>, id: int, action: Power)
    requires Consistent(db)
    ensures Consistent(PowerSpec(db, calls, failing, id, action).db)
  {
    match ServerIndex(db.servers, id)
    case None =>
    case Some(k) =>
      StatusKeepsServers(db.servers, k, Target(action), db.nextServerId);
  }

  /** Rewriting a row's status keeps the server table's constraints. */
  lemma StatusKeepsServers(servers: seq<Server>, k: nat, status: string, next: nat)
    requires k < |servers| && UniqueVmids(servers) && forall x :: x in servers ==> 1 <= x.id < next
    ensures var t := servers[k := servers[k].(status := status)];
            UniqueVmids(t) && forall x :: x in t ==> 1 <= x.id < next
  {
    var t := servers[k := servers[k].(status := status)];
    forall x | x in t ensures 1 <= x.id < next {
      var i :| 0 <= i < |t| && t[i] == x;
      assert servers[i] in servers;
    }
  }

  // ---------------------------------------------------------------------
  // create_backup

  /** Whether a backup row with that `backup_id` exists. */
  predicate HasBackupId(backups: seq<Backup>, backupId: string) {
    exists j :: 0 <= j < |backups| && backups[j].backupId == backupId
  }

  /** The backup row `create_backup` adds for server `s`: the id and the
      file name are stamped with two readings of the local clock, the size
      is 0. */
  function NewBackup(id: nat, s: Server, notes: Option<string>, isAuto: bool, t1: DateTime, t2: DateTime): (b: Backup)
    requires ValidClock(t1) && ValidClock(t2)
    ensures b.id == id && b.serverId == s.id && b.fileSize == 0 && b.notes == notes && b.isAuto == isAuto
    ensures b.backupId == BackupId(s.vmid, t1) && b.fileName == BackupFileName(s.vmid, t2)
  {
    Backup(id, s.id, BackupId(s.vmid, t1), BackupFileName(s.vmid, t2), 0, notes, isAuto)
  }

  /** `create_backup`. An unknown id raises. The hypervisor is asked for a
      "zstd" backup to `storage`; when that raises nothing is written. */
  function BackupSpec(db: Db, calls: seq<Call>, failing: set<nat>, id: int, storage: string,
                      isAuto: bool, notes: Option<string>, t1: DateTime, t2: DateTime, u: DateTime): (o: Outcome<Backup>)
    requires ValidClock(t1) && ValidClock(t2)
    ensures calls <= o.calls && |o.calls| <= |calls| + 1
    ensures o.db.allocations == db.allocations && |o.db.servers| == |db.servers|
            && o.db.nextServerId == db.nextServerId
  {
    match ServerIndex(db.servers, id)
    case None => Outcome(db, calls, Err(NoSuchServer))
    case Some(k) =>
      var s := db.servers[k];
      var after := calls + [BackupVm(s.nodeName, s.vmid, storage, "zstd")];
      if |calls| in failing then Outcome(db, after, Err(RemoteFailure))
      else CommitBackup(db, k, NewBackup(db.nextBackupId, s, notes, isAuto, t1, t2), u, after)
  }

  /** The commit of `create_backup`: the new row and the server's last
      backup time (`u`, read from the UTC clock) go in together, and a
      `backup_id` already taken rolls both back. */
  function CommitBackup(db: Db, k: nat, b: Backup, u: DateTime, calls: seq<Call>): (o: Outcome<Backup>)
    requires k < |db.servers|
    ensures o.calls == calls && o.db.allocations == db.allocations
    ensures o.result.Ok? <==> !HasBackupId(db.backups, b.backupId)
    ensures o.result.Err? ==> o.db == db && o.result == Err(DuplicateBackupId)
    ensures o.result.Ok? ==> o.result.value == b && o.db.backups == db.backups + [b]
                             && o.db.nextBackupId == db.nextBackupId + 1
                             && |o.db.servers| == |db.servers|
                             && o.db.servers[k] == db.servers[k].(lastBackupAt := Some(u))
                             && forall j :: 0 <= j < |db.servers| && j != k ==> o.db.servers[j] == db.servers[j]
  {
    if HasBackupId(db.backups, b.backupId) then Outcome(db, calls, Err(DuplicateBackupId))
    else
      Outcome(db.(backups := db.backups + [b], nextBackupId := db.nextBackupId + 1,
                  servers := db.servers[k := db.servers[k].(lastBackupAt := Some(u))]),
              calls, Ok(b))
  }

  /** Every failure of `create_backup` leaves the database as it was; on
      success exactly one row is added, for the server named, and only that
      server's last backup time changes. */
  lemma BackupOutcome(db: Db, calls: seq<Call>, failing: set<nat>, id: int, storage: string,
                      isAuto: bool, notes: Option<string>, t1: DateTime, t2: DateTime, u: DateTime)
    requires ValidClock(t1) && ValidClock(t2)
    ensures var o := BackupSpec(db, calls, failing, id, storage, isAuto, notes, t1, t2, u);
            (o.result.Err? ==> o.db == db)
            && (o.result.Ok? <==> ServerIndex(db.servers, id).Some? && |calls| !in failing
                                  && !HasBackupId(db.backups, BackupId(db.servers[ServerIndex(db.servers, id).value].vmid, t1)))
            && (o.result.Ok? ==>
                  var k := ServerIndex(db.servers, id).value;
                  o.result.value.serverId == id && o.result.value.fileSize == 0
                  && o.result.value.backupId == BackupId(db.servers[k].vmid, t1)
                  && o.db.backups == db.backups + [o.result.value]
                  && o.db.servers == db.servers[k := db.servers[k].(lastBackupAt := Some(u))]
                  && o.calls == calls + [BackupVm(db.servers[k].nodeName, db.servers[k].vmid, storage, "zstd")])
  {
  }

  /** Committing a second backup row under an id the first one took is
      refused and changes nothing; under any other id it goes in unless an
      older row holds that id. */
  lemma CommitTwice(db: Db, k: nat, b: Backup, u: DateTime, calls: seq<Call>,
                    b': Backup, u': DateTime, calls': seq<Call>)
    requires k < |db.servers| && CommitBackup(db, k, b, u, calls).result.Ok?
    ensures var o := CommitBackup(db, k, b, u, calls);
            var o2 := CommitBackup(o.db, k, b', u', calls');
            (b'.backupId == b.backupId ==> o2 == Outcome(o.db, calls', Err(DuplicateBackupId)))
            && (b'.backupId != b.backupId && !HasBackupId(db.backups, b'.backupId) ==> o2.result == Ok(b'))
  {
    var o := CommitBackup(db, k, b, u, calls);
    assert o.db.backups[|db.backups|] == b;
    if b'.backupId != b.backupId && !HasBackupId(db.backups, b'.backupId) {
      forall j | 0 <= j < |o.db.backups| ensures o.db.backups[j].backupId != b'.backupId {
        if j < |db.backups| {
          assert o.db.backups[j] == db.backups[j];
        }
      }
    }
  }

  /** Two backups of one server within the same second: the second gets
      the same `backup_id`, is refused by the unique constraint, and leaves
      nothing behind but its hypervisor call. In any other second the id is
      a different one, and the second backup goes through unless the
      hypervisor refuses it or an older row already holds that id. */
  lemma BackupSameSecond(db: Db, calls: seq<Call>, failing: set<nat>, id: int, storage: string,
                         isAuto: bool, notes: Option<string>, t1: DateTime, t2: DateTime, u: DateTime,
                         t1': DateTime, t2': DateTime, u': DateTime)
    requires ValidClock(t1) && ValidClock(t2) && ValidClock(t1') && ValidClock(t2')
    requires BackupSpec(db, calls, failing, id, storage, isAuto, notes, t1, t2, u).result.Ok?
    ensures var o := BackupSpec(db, calls, failing, id, storage, isAuto, notes, t1, t2, u);
            var o2 := BackupSpec(o.db, o.calls, failing, id, storage, isAuto, notes, t1', t2', u');
            var s := db.servers[ServerIndex(db.servers, id).value];
            (t1' == t1 && |o.calls| !in failing ==>
               o2.result == Err(DuplicateBackupId) && o2.db == o.db
               && o2.calls == o.calls + [BackupVm(s.nodeName, s.vmid, storage, "zstd")])
            && (t1' != t1 ==>
                  BackupId(s.vmid, t1') != o.result.value.backupId
                  && (|o.calls| !in failing && !HasBackupId(db.backups, BackupId(s.vmid, t1')) ==> o2.result.Ok?))
  {
    var k := ServerIndex(db.servers, id).value;
    var s := db.servers[k];
    var after := calls + [BackupVm(s.nodeName, s.vmid, storage, "zstd")];
    var b := NewBackup(db.nextBackupId, s, notes, isAuto, t1, t2);
    var o := CommitBackup(db, k, b, u, after);
    assert o == BackupSpec(db, calls, failing, id, storage, isAuto, notes, t1, t2, u);
    var s2 := s.(lastBackupAt := Some(u));
    SameIdKeepsIndex(db.servers, k, s2, id);
    assert o.db.servers[k] == s2;
    var b' := NewBackup(o.db.nextBackupId, s2, notes, isAuto, t1', t2');
    var after' := o.calls + [BackupVm(s.nodeName, s.vmid, storage, "zstd")];
    assert |o.calls| !in failing ==>
      BackupSpec(o.db, o.calls, failing, id, storage, isAuto, notes, t1', t2', u') == CommitBackup(o.db, k, b', u', after');
    BackupIdCollides(s.vmid, t1, t1');
    CommitTwice(db, k, b, u, after, b', u', after');
  }

  /** `create_backup` keeps every table constraint. */
  lemma BackupKeepsConsistent(db: Db, calls: seq<Call>, failing: set<nat>, id: int, storage: string,
                              isAuto: bool, notes: Option<string>, t1: DateTime, t2: DateTime, u: DateTime)
    requires ValidClock(t1) && ValidClock(t2) && Consistent(db)
    ensures Consistent(BackupSpec(db, calls, failing, id, storage, isAuto, notes, t1, t2, u).db)
  {
    var o := BackupSpec(db, calls, failing, id, storage, isAuto, notes, t1, t2, u);
    match ServerIndex(db.servers, id)
    case None =>
      assert o.db == db;
    case Some(k) =>
      var s := db.servers[k];
      var after := calls + [BackupVm(s.nodeName, s.vmid, storage, "zstd")];
      if |calls| in failing {
        assert o.db == db;
      } else {
        var b := NewBackup(db.nextBackupId, s, notes, isAuto, t1, t2);
        assert o == CommitBackup(db, k, b, u, after);
        CommitKeepsConsistent(db, k, b, u, after);
      }
  }

  /** The commit of a backup row numbered by the counter keeps every table
      constraint. */
  lemma CommitKeepsConsistent(db: Db, k: nat, b: Backup, u: DateTime, calls: seq<Call>)
    requires Consistent(db) && k < |db.servers| && b.id == db.nextBackupId
    ensures Consistent(CommitBackup(db, k, b, u, calls).db)
  {
    var o := CommitBackup(db, k, b, u, calls);
    if o.result.Ok? {
      var t := db.servers[k := db.servers[k].(lastBackupAt := Some(u))];
      forall x | x in t ensures 1 <= x.id < db.nextServerId {
        var i :| 0 <= i < |t| && t[i] == x;
        assert db.servers[i] in db.servers;
      }
      forall i, j | 0 <= i < j < |o.db.backups| ensures o.db.backups[i].backupId != o.db.backups[j].backupId {
        if j == |db.backups| {
          assert o.db.backups[i] == db.backups[i];
        }
      }
      forall x | x in o.db.backups ensures 1 <= x.id < o.db.nextBackupId {
        if x != b {
          assert x in db.backups;
        }
      }
    }
  }

  // ---------------------------------------------------------------------
  // update_vps_status

  /** A server as `update_vps_status` leaves it: the status the hypervisor
      reports for its node and VM id, or unchanged when the query raises. */
  function Refreshed(s: Server, statusOf: map<(string, int), string>): (r: Server)
    ensures r == s.(status := r.status)
    ensures (s.nodeName, s.vmid) in statusOf ==> r.status == statusOf[(s.nodeName, s.vmid)]
    ensures (s.nodeName, s.vmid) !in statusOf ==> r == s
  {
    if (s.nodeName, s.vmid) in statusOf then s.(status := statusOf[(s.nodeName, s.vmid)]) else s
  }

  /** `update_vps_status`: every row refreshed, in one commit. */
  function Reconciled(servers: seq<Server>, statusOf: map<(string, int), string>): (r: seq<Server>)
    ensures |r| == |servers|
    ensures forall i :: 0 <= i < |r| ==> r[i] == Refreshed(servers[i], statusOf)
  {
    seq(|servers|, i requires 0 <= i < |servers| => Refreshed(servers[i], statusOf))
  }

  /** Only the status column changes: a reported row takes the reported
      status, any other row stays as it was. */
  lemma ReconciledStatuses(servers: seq<Server>, statusOf: map<(string, int), string>)
    ensures var r := Reconciled(servers, statusOf);
            forall i :: 0 <= i < |r| ==>
              r[i] == servers[i].(status := r[i].status)
              && ((servers[i].nodeName, servers[i].vmid) in statusOf ==> r[i].status == statusOf[(servers[i].nodeName, servers[i].vmid)])
              && ((servers[i].nodeName, servers[i].vmid) !in statusOf ==> r[i] == servers[i])
  {
  }

  /** Refreshing twice against the same reports is refreshing once. */
  lemma ReconcileIdempotent(servers: seq<Server>, statusOf: map<(string, int), string>)
    ensures Reconciled(Reconciled(servers, statusOf), statusOf) == Reconciled(servers, statusOf)
  {
  }

  /** `update_vps_status` keeps every table constraint. */
  lemma ReconcileKeepsConsistent(db: Db, statusOf: map<(string, int), string>)
    requires Consistent(db)
    ensures Consistent(db.(servers := Reconciled(db.servers, statusOf)))
  {
    var r := Reconciled(db.servers, statusOf);
    forall x | x in r ensures 1 <= x.id < db.nextServerId {
      var i :| 0 <= i < |r| && r[i] == x;
      assert db.servers[i] in db.servers;
    }
  }
}
