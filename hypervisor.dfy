/** The hypervisor the orchestrator drives, seen from outside: what its
    queries answer, which of its state-changing calls raise, and the log of
    the calls made. The queries are fixed for the lifetime of a client; a
    state-changing call succeeds or raises according to its position in the
    log, so every pattern of failures is one choice of `failing`. */
module Hypervisor {
  import opened Wrappers

  /** How `create_vm` installs the guest. */
  datatype Install =
    | Clone(source: string)
    | FromTemplate(source: string)
    | IsoInstall(ide2: string, boot: string)

  /** The parameters `create_vm` posts for a new machine. */
  datatype VmParams = VmParams(
    vmid: int,
    name: string,
    cores: int,
    memory: int,
    storage: string,
    net0: string,
    ipconfig0: string,
    nameserver: string,
    ostype: string,
    install: Install)

  /** The state-changing calls: `create_vm`, `start_vm`, `stop_vm`,
      `restart_vm`, `delete_vm` and `backup_vm`. */
  datatype Call =
    | CreateVm(node: string, params: VmParams)
    | StartVm(node: string, vmid: int)
    | StopVm(node: string, vmid: int)
    | RestartVm(node: string, vmid: int)
    | DeleteVm(node: string, vmid: int)
    | BackupVm(node: string, vmid: int, storage: string, compress: string)

  class Client {
    /** The node names `get_nodes` lists; `None` when it raises. */
    const nodes: Option<seq<string>>
    /** The VM ids `get_vms(node)` lists, per node; a node without an entry
        raises. */
    const vmsOn: map<string, seq<int>>
    /** The status `get_vm_status` reports per node and VM id; a pair
        without an entry raises. */
    const statusOf: map<(string, int), string>
    /** The positions in the call log at which a state-changing call raises. */
    const failing: set<nat>
    /** Every state-changing call attempted, in order. */
    var calls: seq<Call>

    constructor (nodes: Option<seq<string>>, vmsOn: map<string, seq<int>>,
                 statusOf: map<(string, int), string>, failing: set<nat>)
      ensures this.nodes == nodes && this.vmsOn == vmsOn && this.statusOf == statusOf
      ensures this.failing == failing && calls == []
    {
      this.nodes := nodes;
      this.vmsOn := vmsOn;
      this.statusOf := statusOf;
      this.failing := failing;
      calls := [];
    }

    /** Whether the next state-changing call will succeed. */
    function NextSucceeds(): bool
      reads this
    {
      |calls| !in failing
    }

    /** Makes one state-changing call; `ok` is false when it raises. The
        call is logged either way. */
    method Perform(c: Call) returns (ok: bool)
      modifies this
      ensures calls == old(calls) + [c]
      ensures ok == old(NextSucceeds())
    {
      ok := NextSucceeds();
      calls := calls + [c];
    }
  }
}
