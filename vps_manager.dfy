/** The orchestration service: its methods change the server and backup
    tables, the address table through the inventory, and the hypervisor's
    call log, each exactly as the matching function of `VpsLifecycle`
    says. */
module VpsManager {
  import opened Wrappers
  import opened Records
  import opened IpManager
  import opened Hypervisor
  import opened VpsSchemas
  import opened VpsProvisioning
  import opened VpsLifecycle

  class Service {
    /** The pool and address tables, shared with the address service. */
    const inventory: AddressInventory
    /** The hypervisor the service drives. */
    const hv: Client
    var servers: seq<Server>
    var backups: seq<Backup>
    var nextServerId: nat
    var nextBackupId: nat

    /** The tables the service writes, as one value. */
    function Snapshot(): Db
      reads this, inventory
    {
      Db(inventory.allocations, servers, backups, nextServerId, nextBackupId)
    }

    /** The constraints of every table. */
    ghost predicate Valid()
      reads this, inventory
    {
      inventory.Valid() && Consistent(Snapshot())
    }

    constructor (inventory: AddressInventory, hv: Client)
      requires inventory.Valid()
      ensures Valid()
      ensures this.inventory == inventory && this.hv == hv
      ensures servers == [] && backups == [] && nextServerId == 1 && nextBackupId == 1
    {
      this.inventory := inventory;
      this.hv := hv;
      servers := [];
      backups := [];
      nextServerId := 1;
      nextBackupId := 1;
    }

    /** `_get_next_vmid`. */
    method NextVmid() returns (vmid: int)
      ensures vmid == NextVmidOf(hv.nodes, hv.vmsOn, Vmids(servers))
    {
      if hv.nodes.None? {
        vmid := FallbackVmid(Vmids(servers));
      } else {
        var used := GatherVmids(hv.nodes.value, hv.vmsOn);
        vmid := FirstFreeVmid(used);
      }
    }

    /** `create_vps`, with the VM id `_get_next_vmid` picks. */
    method CreateVps(userId: int, req: CreateRequest) returns (r: Result<Server, VpsError>)
      requires Valid()
      modifies this, inventory, hv
      ensures Valid()
      ensures var o := CreateSpec(old(Snapshot()), old(inventory.pools), old(hv.calls), hv.failing,
                                  NextVmidOf(hv.nodes, hv.vmsOn, Vmids(old(servers))), userId, req);
              Snapshot() == o.db && hv.calls == o.calls && r == o.result
      ensures inventory.pools == old(inventory.pools) && inventory.nextPoolId == old(inventory.nextPoolId)
      ensures inventory.nextAllocationId == old(inventory.nextAllocationId)
    {
      var vmid := NextVmid();
      CreateKeepsConsistent(Snapshot(), inventory.pools, hv.calls, hv.failing, vmid, userId, req);
      r := Create(vmid, userId, req);
    }

    /** The steps of `create_vps` with the VM id chosen: resolve the
        address, claim it with `allocate_ip`, then register the server. */
    method Create(vmid: int, userId: int, req: CreateRequest) returns (r: Result<Server, VpsError>)
      requires inventory.Valid()
      modifies this, inventory, hv
      ensures inventory.Valid()
      ensures var o := CreateSpec(old(Snapshot()), old(inventory.pools), old(hv.calls), hv.failing, vmid, userId, req);
              Snapshot() == o.db && hv.calls == o.calls && r == o.result
      ensures inventory.pools == old(inventory.pools) && inventory.nextPoolId == old(inventory.nextPoolId)
      ensures inventory.nextAllocationId == old(inventory.nextAllocationId)
    {
      ghost var db0, pools0, calls0 := Snapshot(), inventory.pools, hv.calls;
      var res := Resolve(inventory.allocations, req.allocationId, req.poolId);
      if res.Err? {
        return Err(Unresolved(res.error));
      }
      var i := res.value;
      var address := inventory.allocations[i].address;
      ClaimAvailable(inventory.allocations, i, userId, req.name);
      ClaimKeepsTable(inventory.allocations, i, userId, req.name);
      CreateReachesRegister(db0, pools0, calls0, hv.failing, vmid, userId, req);
      var claimed := inventory.Allocate(address, Some(userId), Some(req.name), None, None);
      assert claimed.Ok? && ReleaseIn(inventory.allocations, claimed.value.address).Ok?;
      r := Register(vmid, userId, req, claimed.value);
    }

    /** `create_vps` from the pool lookup on, once `allocate_ip` has
        committed the claim of `rec`. */
    method Register(vmid: int, userId: int, req: CreateRequest, rec: Allocation)
      returns (r: Result<Server, VpsError>)
      requires inventory.Valid() && ReleaseIn(inventory.allocations, rec.address).Ok?
      modifies this, inventory, hv
      ensures inventory.Valid()
      ensures var o := VpsLifecycle.Register(old(Snapshot()), old(inventory.pools), old(hv.calls), hv.failing,
                                             vmid, userId, req, rec);
              Snapshot() == o.db && hv.calls == o.calls && r == o.result
      ensures inventory.pools == old(inventory.pools) && inventory.nextPoolId == old(inventory.nextPoolId)
      ensures inventory.nextAllocationId == old(inventory.nextAllocationId)
    {
      ghost var db0 := Snapshot();
      var pool := PoolById(inventory.pools, rec.poolId);
      if pool.None? {
        return Err(PoolNotFound);
      }
      if vmid in Vmids(servers) {
        return Err(DuplicateVmid);
      }
      var s := NewServer(nextServerId, userId, req, vmid, rec.id);
      servers := servers + [s];
      nextServerId := nextServerId + 1;
      assert Snapshot() == Added(db0, s);
      var cidr := SubnetMaskToCidr(pool.value.subnetMask);
      if cidr.None? {
        return Err(BadSubnetMask);
      }
      r := Provision(db0, s, rec.address, ParamsFor(req, vmid, rec.address, pool.value, cidr.value));
    }

    /** `create_vps` from the hypervisor calls on: `db` is the state
        before the "creating" row `s` was committed. */
    method Provision(ghost db: Db, s: Server, address: string, params: VmParams)
      returns (r: Result<Server, VpsError>)
      requires inventory.Valid() && Snapshot() == Added(db, s)
      requires ReleaseIn(inventory.allocations, address).Ok?
      modifies this, inventory, hv
      ensures inventory.Valid()
      ensures var o := VpsLifecycle.Provision(db, old(hv.calls), hv.failing, s, address, params);
              Snapshot() == o.db && hv.calls == o.calls && r == o.result
      ensures inventory.pools == old(inventory.pools) && inventory.nextPoolId == old(inventory.nextPoolId)
      ensures inventory.nextAllocationId == old(inventory.nextAllocationId)
    {
      ghost var calls0 := hv.calls;
      ProvisionPaths(db, calls0, hv.failing, s, address, params);
      var before := servers[..|servers| - 1];
      assert before == db.servers;
      var create, start := CreateVm(s.nodeName, params), StartVm(s.nodeName, s.vmid);
      var ok := hv.Perform(create);
      if !ok {
        r := Abandon(db, before, s, address);
        assert hv.calls == calls0 + [create];
        return;
      }
      servers := before + [s.(status := "stopped")];
      ok := hv.Perform(start);
      assert hv.calls == calls0 + [create, start];
      if !ok {
        r := Abandon(db, before, s.(status := "stopped"), address);
        return;
      }
      servers := before + [s.(status := "running")];
      assert Snapshot() == Added(db, s.(status := "running"));
      r := Ok(s.(status := "running"));
    }

    /** The compensation of `create_vps` once a hypervisor call has failed:
        the address goes back to the pool and the row `s` is marked
        "failed". */
    method Abandon(ghost db: Db, before: seq<Server>, s: Server, address: string)
      returns (r: Result<Server, VpsError>)
      requires inventory.Valid() && Snapshot() == Added(db, s) && before == db.servers
      requires ReleaseIn(inventory.allocations, address).Ok?
      modifies this, inventory
      ensures inventory.Valid()
      ensures var o := VpsLifecycle.Abandon(db, hv.calls, s, address);
              Snapshot() == o.db && r == o.result
      ensures inventory.pools == old(inventory.pools) && inventory.nextPoolId == old(inventory.nextPoolId)
      ensures inventory.nextAllocationId == old(inventory.nextAllocationId)
    {
      ghost var t := ReleaseIn(inventory.allocations, address).value;
      var released := inventory.Release(address);
      assert inventory.allocations == t;
      servers := before + [s.(status := "failed")];
      r := Err(RemoteFailure);
    }

    /** `delete_vps`; the deleted server is returned. */
    method DeleteVps(id: int) returns (r: Result<Server, VpsError>)
      requires Valid()
      modifies this, inventory, hv
      ensures Valid()
      ensures var o := DeleteSpec(old(Snapshot()), old(hv.calls), hv.failing, id);
              Snapshot() == o.db && hv.calls == o.calls && r == o.result
      ensures inventory.pools == old(inventory.pools) && inventory.nextPoolId == old(inventory.nextPoolId)
      ensures inventory.nextAllocationId == old(inventory.nextAllocationId)
    {
      DeleteKeepsConsistent(Snapshot(), hv.calls, hv.failing, id);
      r := TearDown(id);
    }

    /** The steps of `delete_vps`: find the row, stop a running VM, delete
        it, then drop the row. */
    method TearDown(id: int) returns (r: Result<Server, VpsError>)
      requires inventory.Valid()
      modifies this, inventory, hv
      ensures inventory.Valid()
      ensures var o := DeleteSpec(old(Snapshot()), old(hv.calls), hv.failing, id);
              Snapshot() == o.db && hv.calls == o.calls && r == o.result
      ensures inventory.pools == old(inventory.pools) && inventory.nextPoolId == old(inventory.nextPoolId)
      ensures inventory.nextAllocationId == old(inventory.nextAllocationId)
    {
      ghost var db0, calls0 := Snapshot(), hv.calls;
      var found := ServerIndex(servers, id);
      if found.None? {
        return Err(NoSuchServer);
      }
      var k := found.value;
      var s := servers[k];
      DeletePaths(db0, calls0, hv.failing, id, k);
      var removed := RemoveVm(s);
      if !removed {
        return Err(RemoteFailure);
      }
      r := DropServer(k);
    }

    /** The hypervisor half of `delete_vps`: stop the VM when the row says
        it runs, then delete it; the first call that raises ends it. */
    method RemoveVm(s: Server) returns (ok: bool)
      modifies hv
      ensures var c0 := old(hv.calls);
              var stopFails := s.status == "running" && |c0| in hv.failing;
              (ok <==> !stopFails && |c0| + |TeardownCalls(s)| - 1 !in hv.failing)
              && hv.calls == if stopFails then c0 + [StopVm(s.nodeName, s.vmid)] else c0 + TeardownCalls(s)
    {
      if s.status == "running" {
        var stopped := hv.Perform(StopVm(s.nodeName, s.vmid));
        if !stopped {
          return false;
        }
      }
      ok := hv.Perform(DeleteVm(s.nodeName, s.vmid));
    }

    /** The end of `delete_vps`, once the VM is gone: release the server's
        record, then remove its row. */
    method DropServer(k: nat) returns (r: Result<Server, VpsError>)
      requires inventory.Valid() && k < |servers|
      modifies this, inventory
      ensures inventory.Valid()
      ensures var o := VpsLifecycle.DropServer(old(Snapshot()), k, hv.calls);
              Snapshot() == o.db && r == o.result
      ensures inventory.pools == old(inventory.pools) && inventory.nextPoolId == old(inventory.nextPoolId)
      ensures inventory.nextAllocationId == old(inventory.nextAllocationId)
    {
      var s := servers[k];
      if s.allocationId != 0 {
        var j := RecordById(inventory.allocations, s.allocationId);
        if j.Some? {
          var released := inventory.Release(inventory.allocations[j.value].address);
          if released.Err? {
            return Err(AddressError(released.error));
          }
        }
      }
      servers := Without(servers, k);
      r := Ok(s);
    }

    /** `start_vps`. */
    method StartVps(id: int) returns (r: Result<Server, VpsError>)
      requires Valid()
      modifies this, hv
      ensures Valid()
      ensures var o := PowerSpec(old(Snapshot()), old(hv.calls), hv.failing, id, Start);
              Snapshot() == o.db && hv.calls == o.calls && r == o.result
    {
      PowerKeepsConsistent(Snapshot(), hv.calls, hv.failing, id, Start);
      var found := ServerIndex(servers, id);
      if found.None? {
        return Err(NoSuchServer);
      }
      var k := found.value;
      if servers[k].status == "running" {
        return Ok(servers[k]);
      }
      var ok := hv.Perform(StartVm(servers[k].nodeName, servers[k].vmid));
      if !ok {
        return Err(RemoteFailure);
      }
      servers := servers[k := servers[k].(status := "running")];
      r := Ok(servers[k]);
    }

    /** `stop_vps`. */
    method StopVps(id: int) returns (r: Result<Server, VpsError>)
      requires Valid()
      modifies this, hv
      ensures Valid()
      ensures var o := PowerSpec(old(Snapshot()), old(hv.calls), hv.failing, id, Stop);
              Snapshot() == o.db && hv.calls == o.calls && r == o.result
    {
      PowerKeepsConsistent(Snapshot(), hv.calls, hv.failing, id, Stop);
      var found := ServerIndex(servers, id);
      if found.None? {
        return Err(NoSuchServer);
      }
      var k := found.value;
      if servers[k].status == "stopped" {
        return Ok(servers[k]);
      }
      var ok := hv.Perform(StopVm(servers[k].nodeName, servers[k].vmid));
      if !ok {
        return Err(RemoteFailure);
      }
      servers := servers[k := servers[k].(status := "stopped")];
      r := Ok(servers[k]);
    }

    /** `restart_vps`: a reset of the VM, whatever its recorded status. */
    method RestartVps(id: int) returns (r: Result<Server, VpsError>)
      requires Valid()
      modifies this, hv
      ensures Valid()
      ensures var o := PowerSpec(old(Snapshot()), old(hv.calls), hv.failing, id, Restart);
              Snapshot() == o.db && hv.calls == o.calls && r == o.result
    {
      PowerKeepsConsistent(Snapshot(), hv.calls, hv.failing, id, Restart);
      var found := ServerIndex(servers, id);
      if found.None? {
        return Err(NoSuchServer);
      }
      var k := found.value;
      var ok := hv.Perform(RestartVm(servers[k].nodeName, servers[k].vmid));
      if !ok {
        return Err(RemoteFailure);
      }
      servers := servers[k := servers[k].(status := "running")];
      r := Ok(servers[k]);
    }

    /** `create_backup`; `t1` and `t2` are the two readings of the local
        clock that stamp the backup id and the file name, `u` the reading
        of the UTC clock recorded as the server's last backup time. */
    method CreateBackup(id: int, storage: string, isAuto: bool, notes: Option<string>,
                        t1: DateTime, t2: DateTime, u: DateTime)
      returns (r: Result<Backup, VpsError>)
      requires Valid() && ValidClock(t1) && ValidClock(t2)
      modifies this, hv
      ensures Valid()
      ensures var o := BackupSpec(old(Snapshot()), old(hv.calls), hv.failing, id, storage, isAuto, notes, t1, t2, u);
              Snapshot() == o.db && hv.calls == o.calls && r == o.result
    {
      BackupKeepsConsistent(Snapshot(), hv.calls, hv.failing, id, storage, isAuto, notes, t1, t2, u);
      r := TakeBackup(id, storage, isAuto, notes, t1, t2, u);
    }

    /** The steps of `create_backup`: find the row, ask the hypervisor for
        the backup, then commit the row. */
    method TakeBackup(id: int, storage: string, isAuto: bool, notes: Option<string>,
                      t1: DateTime, t2: DateTime, u: DateTime)
      returns (r: Result<Backup, VpsError>)
      requires ValidClock(t1) && ValidClock(t2)
      modifies this, hv
      ensures var o := BackupSpec(old(Snapshot()), old(hv.calls), hv.failing, id, storage, isAuto, notes, t1, t2, u);
              Snapshot() == o.db && hv.calls == o.calls && r == o.result
    {
      ghost var db0, calls0 := Snapshot(), hv.calls;
      var found := ServerIndex(servers, id);
      if found.None? {
        return Err(NoSuchServer);
      }
      var k := found.value;
      var s := servers[k];
      var ok := hv.Perform(BackupVm(s.nodeName, s.vmid, storage, "zstd"));
      if !ok {
        return Err(RemoteFailure);
      }
      var b := NewBackup(nextBackupId, s, notes, isAuto, t1, t2);
      assert BackupSpec(db0, calls0, hv.failing, id, storage, isAuto, notes, t1, t2, u)
             == CommitBackup(db0, k, b, u, hv.calls);
      r := CommitBackupRow(k, b, u);
    }

    /** The commit at the end of `create_backup`: the row and the server's
        last backup time together, or neither when the `backup_id` is
        taken. */
    method CommitBackupRow(k: nat, b: Backup, u: DateTime) returns (r: Result<Backup, VpsError>)
      requires k < |servers|
      modifies this
      ensures var o := CommitBackup(old(Snapshot()), k, b, u, hv.calls);
              Snapshot() == o.db && r == o.result
    {
      if HasBackupId(backups, b.backupId) {
        return Err(DuplicateBackupId);
      }
      backups := backups + [b];
      nextBackupId := nextBackupId + 1;
      servers := servers[k := servers[k].(lastBackupAt := Some(u))];
      r := Ok(b);
    }

    /** `update_vps_status`: each server takes the status the hypervisor
        reports for it; a server whose query raises is skipped. */
    method UpdateVpsStatus()
      requires Valid()
      modifies this
      ensures Valid()
      ensures servers == Reconciled(old(servers), hv.statusOf)
      ensures backups == old(backups) && nextServerId == old(nextServerId) && nextBackupId == old(nextBackupId)
    {
      ghost var db0 := Snapshot();
      ReconcileKeepsConsistent(db0, hv.statusOf);
      var rows := RefreshedRows(servers, hv.statusOf);
      servers := rows;
      assert Snapshot() == db0.(servers := Reconciled(db0.servers, hv.statusOf));
    }

    /** The loop of `update_vps_status`: each row in turn takes the reported
        status of its VM, when there is one; the rows are committed together
        afterwards. */
    static method RefreshedRows(servers: seq<Server>, statusOf: map<(string, int), string>)
      returns (rows: seq<Server>)
      ensures |rows| == |servers|
      ensures forall i :: 0 <= i < |rows| ==> rows[i] == Refreshed(servers[i], statusOf)
      ensures rows == Reconciled(servers, statusOf)
    {
      rows := servers;
      var k := 0;
      while k < |rows|
        invariant 0 <= k <= |rows| == |servers|
        invariant forall i :: 0 <= i < k ==> rows[i] == Refreshed(servers[i], statusOf)
        invariant forall i :: k <= i < |rows| ==> rows[i] == servers[i]
      {
        var s := rows[k];
        if (s.nodeName, s.vmid) in statusOf {
          rows := rows[k := s.(status := statusOf[(s.nodeName, s.vmid)])];
        }
        k := k + 1;
      }
    }
  }
}
