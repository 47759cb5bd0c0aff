/** The external commands the module issues, the replies it reads back and
    the result it reports. Process execution itself is an oracle: a Shell
    answers each command, knowing every command issued before it. */
module Commands {

  datatype Option<T> = None | Some(value: T)

  /** The commands of lvm_pvs, by what they do; Argv gives their command
      lines. */
  datatype Command =
    | ListPvs                                       // the inventory listing
    | MapperName(device: string)                    // the dmsetup name lookup
    | Create(options: seq<string>, device: string)  // pvcreate
    | Remove(device: string)                        // graceful pvremove
    | ForceRemove(device: string)                   // forced pvremove
  {
    /** The commands that change the host's volumes. */
    predicate Mutating() {
      Create? || Remove? || ForceRemove?
    }
  }

  /** The command line the module hands to run_command. */
  function Argv(c: Command): (argv: seq<string>)
    ensures |argv| >= 2
    ensures !c.ListPvs? ==> argv[|argv| - 1] == c.device
    ensures c.Mutating() ==> argv[0] == (if c.Create? then "pvcreate" else "pvremove")
  {
    match c
    case ListPvs =>
      ["pvs", "--noheadings", "-o", "pv_name,vg_name,pv_size,pv_free", "--units", "b", "--separator", ";"]
    case MapperName(dev) => ["dmsetup", "info", "-C", "--noheadings", "-o", "name", dev]
    case Create(options, dev) => ["pvcreate"] + options + [dev]
    case Remove(dev) => ["pvremove", dev]
    case ForceRemove(dev) => ["pvremove", "-ff", "-y", dev]
  }

  /** What run_command returns: exit code, standard output, standard error. */
  datatype Reply = Reply(rc: int, out: string, err: string)

  /** The host's answer to a command, given the commands issued before it. */
  type Shell = (seq<Command>, Command) -> Reply

  /** The exit code and error text that fail_json reports for a failed
      command. */
  datatype Status = Status(rc: int, err: string)

  /** How a run ends: exit_json(changed=...), fail_json(msg=..., rc=...,
      err=...), or an uncaught Python exception. */
  datatype Outcome =
    | Changed(changed: bool)
    | Failed(msg: string, status: Option<Status>)
    | Crashed(exception: string)

  /** A whole run: its outcome and every command it issued, in order. */
  datatype Run = Run(outcome: Outcome, log: seq<Command>)
}
