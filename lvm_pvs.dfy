/** The reconciliation core of lvm_pvs: validate the request, read the
    inventory once, decide per requested device (create, nothing, graceful
    remove, forced remove, or refuse) and run the decided commands,
    stopping at the first failure or, in check mode, at the first device
    that needs an action. */
module LvmPvs {
  import opened PyText
  import opened Commands
  import opened Inventory

  datatype State = Present | Absent

  /** The module's parameters (pvs, pv_options, state, force) and Ansible's
      check mode. */
  datatype Request = Request(pvs: seq<string>, pvOptions: string, state: State, force: bool, checkMode: bool)

  /** The host as oracles: os.path.realpath, os.path.exists and
      run_command. */
  datatype Host = Host(realpath: string -> string, pathExists: string -> bool, run: Shell)

  /** What the decision rule depends on: the request's state, force and
      check mode, the split pv_options, and the inventory read at the
      start. */
  datatype Setting = Setting(state: State, force: bool, checkMode: bool, options: seq<string>, inv: map<string, PvRecord>)

  /** The decision for one device. */
  datatype Action = NoOp | Issue(cmd: Command) | Refuse(device: string, vgName: string)

  const NO_VOLUMES := "No physical volumes given."
  const PVS_FAILED := "Failed executing pvs command."
  const DMSETUP_FAILED := "Failed executing dmsetup command."
  /** Raised when main reads its device list, a local never assigned when
      no devices are given and state=absent; a subclass of NameError. */
  const UNBOUND_LOCAL := "UnboundLocalError"
  const INDEX_ERROR := "IndexError"

  function NotFoundMessage(dev: string): string {
    "Device " + dev + " not found."
  }

  function RefusalMessage(dev: string, vgName: string): string {
    "Refuse to remove physical volume " + dev + " being in use by volume group " + vgName + " without force=yes"
  }

  /** The fail_json message for a command that exited non-zero. */
  function FailureMessage(c: Command): string {
    match c
    case ListPvs => PVS_FAILED
    case MapperName(_) => DMSETUP_FAILED
    case Create(_, dev) => "Creating physical volume '" + dev + "' failed"
    case Remove(dev) => "Failed to remove physical volume " + dev
    case ForceRemove(dev) => "Failed to remove physical volume " + dev
  }

  /** The graceful-removal test: all of the volume is free and it belongs to
      no volume group. Sizes are compared as the text the listing printed. */
  predicate Removable(r: PvRecord) {
    r.pvSize == r.pvFree && r.vgName == ""
  }

  /** The per-device decision rule. */
  function Decide(s: Setting, dev: string): (a: Action)
    ensures a.NoOp? <==> (s.state == Present <==> dev in s.inv)
    ensures a.Issue? ==> a.cmd.Mutating() && a.cmd.device == dev
    ensures a.Issue? && a.cmd.Create? ==> s.state == Present && a.cmd.options == s.options
    ensures a.Issue? && a.cmd.Remove? ==> s.state == Absent && !s.force && dev in s.inv && Removable(s.inv[dev])
    ensures a.Issue? && a.cmd.ForceRemove? ==> s.state == Absent && s.force
    ensures a.Refuse? <==> s.state == Absent && !s.force && dev in s.inv && !Removable(s.inv[dev])
    ensures a.Refuse? ==> a.device == dev && a.vgName == s.inv[dev].vgName
  {
    match s.state
    case Present =>
      if dev in s.inv then NoOp else Issue(Create(s.options, dev))
    case Absent =>
      if dev !in s.inv then NoOp
      else if s.force then Issue(ForceRemove(dev))
      else if Removable(s.inv[dev]) then Issue(Remove(dev))
      else Refuse(dev, s.inv[dev].vgName)
  }

  /** The device loops of main over the remaining devices `devs`, with `log`
      the commands issued so far and `changed` the flag so far. */
  function Reconcile(s: Setting, run: Shell, devs: seq<string>, log: seq<Command>, changed: bool): Run
    decreases |devs|
  {
    if devs == [] then Run(Changed(changed), log)
    else
      match Decide(s, devs[0])
      case NoOp => Reconcile(s, run, devs[1..], log, changed)
      case Refuse(dev, vg) =>
        if s.checkMode then Run(Changed(true), log) else Run(Failed(RefusalMessage(dev, vg), None), log)
      case Issue(c) =>
        if s.checkMode then Run(Changed(true), log)
        else
          var reply := run(log, c);
          if reply.rc == 0 then Reconcile(s, run, devs[1..], log + [c], true)
          else Run(Failed(FailureMessage(c), Some(Status(reply.rc, reply.err))), log + [c])
  }

  /** The requested devices with symbolic links resolved. */
  function Canonical(pvs: seq<string>, realpath: string -> string): (devs: seq<string>)
    ensures |devs| == |pvs|
  {
    seq(|pvs|, i requires 0 <= i < |pvs| => realpath(pvs[i]))
  }

  /** The first requested device that does not exist. */
  function FirstMissing(devs: seq<string>, pathExists: string -> bool): Option<string> {
    if devs == [] then None
    else if !pathExists(devs[0]) then Some(devs[0])
    else FirstMissing(devs[1..], pathExists)
  }

  /** The reply to the inventory listing, always the first command. */
  function Listing(host: Host): Reply {
    host.run([], ListPvs)
  }

  /** The inventory parsed from the listing. */
  function Snapshot(host: Host): Scan {
    ParseFrom(host.run, Rows(SplitLines(Listing(host).out)), map[], [ListPvs])
  }

  function SettingOf(req: Request, inv: map<string, PvRecord>): Setting {
    Setting(req.state, req.force, req.checkMode, Words(req.pvOptions), inv)
  }

  /** The request passes validation: devices are given and, for
      state=present, all of them exist. */
  predicate Admitted(req: Request, host: Host) {
    req.pvs != [] && (req.state == Present ==> FirstMissing(Canonical(req.pvs, host.realpath), host.pathExists) == None)
  }

  /** main, as a function of the request and the host. */
  function Module(req: Request, host: Host): Run {
    if req.pvs == [] then
      if req.state == Present then Run(Failed(NO_VOLUMES, None), []) else Run(Crashed(UNBOUND_LOCAL), [])
    else
      var devs := Canonical(req.pvs, host.realpath);
      var missing := if req.state == Present then FirstMissing(devs, host.pathExists) else None;
      if missing.Some? then Run(Failed(NotFoundMessage(missing.value), None), [])
      else Proceed(req, host, devs)
  }

  /** main after validation: read the inventory, then reconcile the
      canonical devices `devs`. */
  function Proceed(req: Request, host: Host, devs: seq<string>): Run {
    if Listing(host).rc != 0 then
      Run(Failed(PVS_FAILED, Some(Status(Listing(host).rc, Listing(host).err))), [ListPvs])
    else
      var scan := Snapshot(host);
      match scan.result
      case DmFailed(st) => Run(Failed(DMSETUP_FAILED, Some(st)), scan.log)
      case Malformed => Run(Crashed(INDEX_ERROR), scan.log)
      case Pvs(inv) => Reconcile(SettingOf(req, inv), host.run, devs, scan.log, false)
  }

  /** Replaces every requested device by its real path, in place. */
  method Canonicalize(devs: array<string>, realpath: string -> string)
    modifies devs
    ensures devs[..] == Canonical(old(devs[..]), realpath)
  {
    for idx := 0 to devs.Length
      invariant forall j :: 0 <= j < idx ==> devs[j] == realpath(old(devs[j]))
      invariant forall j :: idx <= j < devs.Length ==> devs[j] == old(devs[j])
    {
      devs[idx] := realpath(devs[idx]);
    }
  }

  /** The existence check of state=present: the first device that does not
      exist, if any. */
  method FindMissing(devs: array<string>, pathExists: string -> bool) returns (missing: Option<string>)
    ensures missing.None? <==> forall j :: 0 <= j < devs.Length ==> pathExists(devs[j])
    ensures missing.Some? ==>
      exists j :: 0 <= j < devs.Length && missing.value == devs[j] && !pathExists(devs[j]) &&
        (forall k :: 0 <= k < j ==> pathExists(devs[k]))
    ensures missing == FirstMissing(devs[..], pathExists)
  {
    for idx := 0 to devs.Length
      invariant forall j :: 0 <= j < idx ==> pathExists(devs[j])
      invariant FirstMissing(devs[idx..], pathExists) == FirstMissing(devs[..], pathExists)
    {
      assert devs[idx..][1..] == devs[idx + 1..];
      if !pathExists(devs[idx]) {
        return Some(devs[idx]);
      }
    }
    assert devs[devs.Length..] == [];
    return None;
  }

  /** The device loops of main: decide per device in list order; in check
      mode stop at the first device that needs an action; otherwise run the
      decided command and stop at the first refusal or failure. */
  method Apply(s: Setting, run: Shell, devs: array<string>, log0: seq<Command>) returns (outcome: Outcome, log: seq<Command>)
    ensures Run(outcome, log) == Reconcile(s, run, devs[..], log0, false)
  {
    var changed := false;
    log := log0;
    for idx := 0 to devs.Length
      invariant Reconcile(s, run, devs[idx..], log, changed) == Reconcile(s, run, devs[..], log0, false)
    {
      assert devs[idx..][1..] == devs[idx + 1..];
      var action := Decide(s, devs[idx]);
      if !action.NoOp? {
        if s.checkMode {
          return Changed(true), log;
        }
        if action.Refuse? {
          return Failed(RefusalMessage(action.device, action.vgName), None), log;
        }
        var reply := run(log, action.cmd);
        log := log + [action.cmd];
        if reply.rc != 0 {
          return Failed(FailureMessage(action.cmd), Some(Status(reply.rc, reply.err))), log;
        }
        changed := true;
      }
    }
    assert devs[devs.Length..] == [];
    outcome := Changed(changed);
  }

  /** main: validate, canonicalise and check existence, then proceed. */
  method Execute(req: Request, host: Host) returns (outcome: Outcome, log: seq<Command>)
    ensures Run(outcome, log) == Module(req, host)
  {
    if req.pvs == [] {
      if req.state == Present {
        return Failed(NO_VOLUMES, None), [];
      }
      return Crashed(UNBOUND_LOCAL), [];
    }
    var devs := new string[|req.pvs|](i requires 0 <= i < |req.pvs| => req.pvs[i]);
    assert devs[..] == req.pvs;
    Canonicalize(devs, host.realpath);
    if req.state == Present {
      var missing := FindMissing(devs, host.pathExists);
      if missing.Some? {
        return Failed(NotFoundMessage(missing.value), None), [];
      }
    }
    outcome, log := ReadAndApply(req, host, devs);
  }

  /** The rest of main: list the volumes, parse the listing, and reconcile. */
  method ReadAndApply(req: Request, host: Host, devs: array<string>) returns (outcome: Outcome, log: seq<Command>)
    ensures Run(outcome, log) == Proceed(req, host, devs[..])
  {
    var options := Words(req.pvOptions);
    var listing := host.run([], ListPvs);
    log := [ListPvs];
    if listing.rc != 0 {
      return Failed(PVS_FAILED, Some(Status(listing.rc, listing.err))), log;
    }
    var parsed;
    parsed, log := ParsePvs(host.run, listing.out, log);
    if parsed.DmFailed? {
      return Failed(DMSETUP_FAILED, Some(parsed.status)), log;
    }
    if parsed.Malformed? {
      return Crashed(INDEX_ERROR), log;
    }
    outcome, log := Apply(Setting(req.state, req.force, req.checkMode, options, parsed.pvs), host.run, devs, log);
  }
}
