/** The rows the services read and write: address pools, address records,
    virtual servers and their backups. Only the columns the services use are
    kept; creation and update timestamps are left to the database. */
module Records {
  import opened Wrappers

  /** The status column of an address record. */
  datatype Status = Available | Allocated | Reserved

  /** The string stored in the status column. */
  function StatusName(s: Status): (name: string)
    ensures name in ["available", "allocated", "reserved"]
  {
    match s
    case Available => "available"
    case Allocated => "allocated"
    case Reserved => "reserved"
  }

  /** The status a stored string denotes, if any. */
  function ParseStatus(name: string): (r: Option<Status>)
    ensures r.Some? ==> StatusName(r.value) == name
    ensures r.None? ==> forall s :: StatusName(s) != name
  {
    if name == "available" then Some(Available)
    else if name == "allocated" then Some(Allocated)
    else if name == "reserved" then Some(Reserved)
    else None
  }

  /** Each status is stored under its own name. */
  lemma StatusNameRoundTrip(s: Status)
    ensures ParseStatus(StatusName(s)) == Some(s)
  {
  }

  /** One row of the address table; `address` is unique across the table. */
  datatype Allocation = Allocation(
    id: nat,
    address: string,
    poolId: nat,
    userId: Option<int>,
    status: Status,
    hostname: Option<string>,
    mac: Option<string>,
    notes: Option<string>)

  /** One row of the pool table; `name` is unique across the table. */
  datatype Pool = Pool(
    id: nat,
    name: string,
    network: string,
    gateway: string,
    subnetMask: string,
    dnsServers: string,
    vlanId: Option<int>,
    notes: Option<string>,
    isActive: bool)

  /** A wall-clock reading, as `datetime.now()` returns it. */
  datatype DateTime = DateTime(year: nat, month: nat, day: nat, hour: nat, minute: nat, second: nat)

  /** One row of the server table; `vmid` is unique across the table. The
      status is whatever string was last written: the services write
      "creating", "stopped", "running" and "failed", and the hypervisor may
      report others. */
  datatype Server = Server(
    id: nat,
    name: string,
    vmid: int,
    nodeName: string,
    userId: int,
    status: string,
    cpuCores: int,
    memory: int,
    diskSize: int,
    bandwidth: int,
    osType: string,
    osTemplate: string,
    allocationId: nat,
    notes: Option<string>,
    lastBackupAt: Option<DateTime>)

  /** One row of the backup table; `backupId` is unique across the table. */
  datatype Backup = Backup(
    id: nat,
    serverId: nat,
    backupId: string,
    fileName: string,
    fileSize: nat,
    notes: Option<string>,
    isAuto: bool)
}
