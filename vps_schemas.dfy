/** The request schemas of virtual servers and backups: field bounds,
    the operating-system check and the defaults of omitted fields. */
module VpsSchemas {
  import opened Wrappers

  /** The fields of a create request as they arrive; an omitted field with a
      default is `None`. */
  datatype CreateFields = CreateFields(
    name: string,
    nodeName: string,
    cpuCores: int,
    memory: int,
    diskSize: int,
    osType: string,
    osTemplate: string,
    bandwidth: Option<int>,
    notes: Option<string>,
    allocationId: Option<int>,
    poolId: Option<int>)

  /** A validated create request, defaults filled in. */
  datatype CreateRequest = CreateRequest(
    name: string,
    nodeName: string,
    cpuCores: int,
    memory: int,
    diskSize: int,
    osType: string,
    osTemplate: string,
    bandwidth: int,
    notes: Option<string>,
    allocationId: Option<int>,
    poolId: Option<int>)

  /** The fields a request can be refused for. */
  datatype Field = CpuCores | Memory | DiskSize | OsType

  const DefaultBandwidth: int := 1000

  /** `validate_os_type`. */
  predicate IsOsType(v: string) {
    v == "linux" || v == "windows"
  }

  /** The fields among cpu_cores, memory, disk_size and os_type that break
      their rule, in declaration order; the schema reports every one. */
  function CreateErrors(f: CreateFields): (errs: seq<Field>)
    ensures CpuCores in errs <==> f.cpuCores <= 0
    ensures Memory in errs <==> f.memory <= 0
    ensures DiskSize in errs <==> f.diskSize <= 0
    ensures OsType in errs <==> !IsOsType(f.osType)
    ensures forall i, j :: 0 <= i < j < |errs| ==> errs[i] != errs[j]
  {
    (if f.cpuCores <= 0 then [CpuCores] else [])
    + (if f.memory <= 0 then [Memory] else [])
    + (if f.diskSize <= 0 then [DiskSize] else [])
    + (if IsOsType(f.osType) then [] else [OsType])
  }

  /** `VPSServerCreate(**fields)`: the request with its bandwidth defaulted,
      or the list of refused fields. */
  function ValidateCreate(f: CreateFields): (r: Result<CreateRequest, seq<Field>>)
    ensures r.Ok? <==> f.cpuCores > 0 && f.memory > 0 && f.diskSize > 0 && IsOsType(f.osType)
    ensures r.Ok? ==> r.value.bandwidth == f.bandwidth.GetOr(DefaultBandwidth)
                      && r.value.cpuCores == f.cpuCores && r.value.memory == f.memory
                      && r.value.diskSize == f.diskSize && r.value.osType == f.osType
                      && r.value.allocationId == f.allocationId && r.value.poolId == f.poolId
                      && r.value.name == f.name && r.value.nodeName == f.nodeName
                      && r.value.osTemplate == f.osTemplate && r.value.notes == f.notes
    ensures r.Err? ==> |r.error| >= 1 && r.error == CreateErrors(f)
  {
    var errs := CreateErrors(f);
    if errs != [] then Err(errs)
    else
      Ok(CreateRequest(f.name, f.nodeName, f.cpuCores, f.memory, f.diskSize, f.osType,
                       f.osTemplate, f.bandwidth.GetOr(DefaultBandwidth), f.notes,
                       f.allocationId, f.poolId))
  }

  /** The bandwidth is not bounded: any value, even a negative one, passes,
      and an omitted one becomes 1000. */
  lemma CreateBandwidthUnbounded(f: CreateFields)
    requires f.cpuCores > 0 && f.memory > 0 && f.diskSize > 0 && IsOsType(f.osType)
    ensures f.bandwidth.None? ==> ValidateCreate(f).value.bandwidth == 1000
    ensures f.bandwidth.Some? ==> ValidateCreate(f).value.bandwidth == f.bandwidth.value
  {
  }

  /** The fields of an update request; every field may be omitted. */
  datatype UpdateFields = UpdateFields(
    name: Option<string>,
    cpuCores: Option<int>,
    memory: Option<int>,
    diskSize: Option<int>,
    bandwidth: Option<int>,
    notes: Option<string>)

  /** A bounded optional field is refused only when present and not positive. */
  predicate PositiveIfPresent(v: Option<int>) {
    v.None? || v.value > 0
  }

  /** `VPSServerUpdate(**fields)`: the refused fields, in declaration order. */
  function ValidateUpdate(f: UpdateFields): (r: Result<UpdateFields, seq<Field>>)
    ensures r.Ok? <==> PositiveIfPresent(f.cpuCores) && PositiveIfPresent(f.memory)
                       && PositiveIfPresent(f.diskSize)
    ensures r.Ok? ==> r.value == f
    ensures r.Err? ==> |r.error| >= 1 && OsType !in r.error
                       && (CpuCores in r.error <==> !PositiveIfPresent(f.cpuCores))
                       && (Memory in r.error <==> !PositiveIfPresent(f.memory))
                       && (DiskSize in r.error <==> !PositiveIfPresent(f.diskSize))
  {
    var errs := (if PositiveIfPresent(f.cpuCores) then [] else [CpuCores])
                + (if PositiveIfPresent(f.memory) then [] else [Memory])
                + (if PositiveIfPresent(f.diskSize) then [] else [DiskSize]);
    if errs == [] then Ok(f) else Err(errs)
  }

  /** An empty update passes, and the bandwidth of an update is never refused. */
  lemma UpdateBounds(f: UpdateFields, b: Option<int>)
    ensures ValidateUpdate(UpdateFields(None, None, None, None, b, None)).Ok?
    ensures ValidateUpdate(f).Ok? <==> ValidateUpdate(f.(bandwidth := b)).Ok?
  {
  }

  /** A backup request as it arrives. */
  datatype BackupFields = BackupFields(storage: Option<string>, notes: Option<string>, isAuto: Option<bool>)

  /** A backup request with its defaults filled in. */
  datatype BackupRequest = BackupRequest(storage: string, notes: Option<string>, isAuto: bool)

  /** `VPSBackupCreate(**fields)`: storage "local" and a manual backup unless
      said otherwise. */
  function BackupCreate(f: BackupFields): (r: BackupRequest)
    ensures f.storage.None? ==> r.storage == "local"
    ensures f.storage.Some? ==> r.storage == f.storage.value
    ensures f.isAuto.None? ==> !r.isAuto
    ensures f.isAuto.Some? ==> r.isAuto == f.isAuto.value
    ensures r.notes == f.notes
  {
    BackupRequest(f.storage.GetOr("local"), f.notes, f.isAuto.GetOr(false))
  }

  /** `VPSBackupBase.is_auto`: a stored backup counts as automatic unless
      said otherwise, the opposite of the create request's default. */
  function BackupBaseIsAuto(isAuto: Option<bool>): (r: bool)
    ensures isAuto.None? ==> r
    ensures isAuto.Some? ==> r == isAuto.value
  {
    isAuto.GetOr(true)
  }

  /** The two schemas disagree on an omitted `is_auto`. */
  lemma BackupDefaultsDisagree(storage: Option<string>, notes: Option<string>)
    ensures BackupCreate(BackupFields(storage, notes, None)).isAuto != BackupBaseIsAuto(None)
  {
  }
}
