/** Properties of whole runs of main: what happens before any command,
    the order of the commands, check mode, the removal guard, convergence
    and what a successful run has done. */
module Runs {
  import opened PyText
  import opened Commands
  import opened Inventory
  import opened LvmPvs
  import opened Plans

  /** The run reaches the device loops: the request is admitted, the
      listing succeeds and parses. */
  predicate Reaches(req: Request, host: Host) {
    Admitted(req, host) && Listing(host).rc == 0 && Snapshot(host).result.Pvs?
  }

  /** The inventory a run that reaches the device loops works from. */
  function Inv(host: Host): map<string, PvRecord>
    requires Snapshot(host).result.Pvs?
  {
    Snapshot(host).result.pvs
  }

  /** The device loops keep the commands before them and add only commands
      that change the host. */
  lemma IssuesOnlyMutations(s: Setting, run: Shell, devs: seq<string>, log: seq<Command>)
    ensures var r := Reconcile(s, run, devs, log, false);
      && |log| <= |r.log| && r.log[..|log|] == log
      && (forall j :: |log| <= j < |r.log| ==> r.log[j].Mutating())
      && (s.checkMode ==> r.log == log)
  {
    var r := Reconcile(s, run, devs, log, false);
    if s.checkMode {
      DryRun(s, run, devs, log, false);
    } else {
      IssuesPlanPrefix(s, run, devs, log, false);
      IssuesMutations(s, run, devs, log, false);
    }
  }

  /** A log that starts with `log` agrees with it at every index of
      `log`. */
  lemma PrefixAt(log: seq<Command>, r: seq<Command>)
    requires |log| <= |r| && r[..|log|] == log
    ensures forall j :: 0 <= j < |log| ==> r[j] == log[j]
  {
    forall j | 0 <= j < |log| ensures r[j] == log[j] {
      assert r[..|log|][j] == r[j];
    }
  }

  /** A parse that starts after the listing logs the listing first, then
      only dmsetup lookups. */
  lemma LookupsAfterListing(run: Shell, rows: seq<seq<string>>)
    ensures var log := ParseFrom(run, rows, map[], [ListPvs]).log;
      && log != [] && log[0] == ListPvs
      && (forall j :: 0 < j < |log| ==> log[j].MapperName?)
  {
    var log := ParseFrom(run, rows, map[], [ListPvs]).log;
    ParseOnlyLooksUp(run, rows, map[], [ListPvs]);
    PrefixAt([ListPvs], log);
  }

  /** The inventory listing comes first in the parser's log, followed only by
      dmsetup lookups. */
  lemma SnapshotLog(host: Host)
    ensures var log := Snapshot(host).log;
      && log != [] && log[0] == ListPvs
      && (forall j :: 0 < j < |log| ==> log[j].MapperName?)
  {
    LookupsAfterListing(host.run, Rows(SplitLines(Listing(host).out)));
  }

  /** The run after validation, by how the listing turned out. */
  lemma AfterValidation(req: Request, host: Host)
    requires Admitted(req, host)
    ensures Module(req, host) == Proceed(req, host, Canonical(req.pvs, host.realpath))
    ensures Listing(host).rc != 0 ==> Module(req, host).log == [ListPvs]
    ensures Listing(host).rc == 0 && !Snapshot(host).result.Pvs? ==> Module(req, host).log == Snapshot(host).log
    ensures Reaches(req, host) ==>
      Module(req, host) == Reconcile(SettingOf(req, Inv(host)), host.run, Canonical(req.pvs, host.realpath), Snapshot(host).log, false)
  {
  }

  /** The log of a run that passes validation: the listing first and only
      there, then dmsetup lookups, then commands that change the host. */
  lemma LogPhases(req: Request, host: Host)
    requires Admitted(req, host)
    ensures var r := Module(req, host);
      && r.log != [] && r.log[0] == ListPvs
      && (forall j :: 0 < j < |r.log| ==> r.log[j].MapperName? || r.log[j].Mutating())
      && (forall j, k :: 0 <= j < k < |r.log| && r.log[j].Mutating() ==> r.log[k].Mutating())
  {
    AfterValidation(req, host);
    SnapshotLog(host);
    if Reaches(req, host) {
      var r := Module(req, host);
      var scan := Snapshot(host);
      IssuesOnlyMutations(SettingOf(req, Inv(host)), host.run, Canonical(req.pvs, host.realpath), scan.log);
      PrefixAt(scan.log, r.log);
    }
  }

  /** Validation comes first: a request without devices, or with a device
      that does not exist under state=present, ends before any command, with
      the module's fail_json message (or, for state=absent without devices,
      the UnboundLocalError, a NameError, of the unassigned device list). */
  lemma ValidationFirst(req: Request, host: Host)
    requires !Admitted(req, host)
    ensures var r := Module(req, host);
      && r.log == []
      && (req.pvs == [] && req.state == Present ==> r.outcome == Failed(NO_VOLUMES, None))
      && (req.pvs == [] && req.state == Absent ==> r.outcome == Crashed(UNBOUND_LOCAL))
      && (req.pvs != [] ==>
            exists i :: 0 <= i < |req.pvs| && r.outcome == Failed(NotFoundMessage(host.realpath(req.pvs[i])), None) &&
              !host.pathExists(host.realpath(req.pvs[i])) &&
              forall k :: 0 <= k < i ==> host.pathExists(host.realpath(req.pvs[k])))
  {
    if req.pvs != [] {
      var devs := Canonical(req.pvs, host.realpath);
      FirstMissingIsFirst(devs, host.pathExists);
      var i :| 0 <= i < |devs| && FirstMissing(devs, host.pathExists) == Some(devs[i]) &&
        !host.pathExists(devs[i]) && forall k :: 0 <= k < i ==> host.pathExists(devs[k]);
      assert forall k :: 0 <= k < i ==> devs[k] == host.realpath(req.pvs[k]);
    }
  }

  /** FirstMissing finds the first device that does not exist, and finds
      none only when all exist. */
  lemma {:induction false} FirstMissingIsFirst(devs: seq<string>, pathExists: string -> bool)
    ensures FirstMissing(devs, pathExists).None? <==> forall i :: 0 <= i < |devs| ==> pathExists(devs[i])
    ensures FirstMissing(devs, pathExists).Some? ==>
      exists i :: 0 <= i < |devs| && FirstMissing(devs, pathExists) == Some(devs[i]) &&
        !pathExists(devs[i]) && forall k :: 0 <= k < i ==> pathExists(devs[k])
  {
    if devs != [] && pathExists(devs[0]) {
      var rest := devs[1..];
      FirstMissingIsFirst(rest, pathExists);
      if FirstMissing(rest, pathExists).Some? {
        var i :| 0 <= i < |rest| && FirstMissing(rest, pathExists) == Some(rest[i]) &&
          !pathExists(rest[i]) && forall k :: 0 <= k < i ==> pathExists(rest[k]);
        assert rest[i] == devs[i + 1];
        assert forall k :: 1 <= k < i + 1 ==> devs[k] == rest[k - 1];
      } else {
        assert forall i :: 1 <= i < |devs| ==> devs[i] == rest[i - 1];
      }
    } else if devs != [] {
      assert FirstMissing(devs, pathExists) == Some(devs[0]);
    }
  }

  /** Check mode never changes the host; a run that reaches the device loops
      reports changed exactly when some device needs an action. */
  lemma CheckModeIsReadOnly(req: Request, host: Host)
    requires req.checkMode
    ensures forall c :: c in Module(req, host).log ==> !c.Mutating()
    ensures Reaches(req, host) ==>
      Module(req, host) == Run(Changed(NeedsAction(SettingOf(req, Inv(host)), Canonical(req.pvs, host.realpath))), Snapshot(host).log)
  {
    if Admitted(req, host) {
      AfterValidation(req, host);
      SnapshotLog(host);
      if Reaches(req, host) {
        DryRun(SettingOf(req, Inv(host)), host.run, Canonical(req.pvs, host.realpath), Snapshot(host).log, false);
      }
      var log := Module(req, host).log;
      forall c | c in log ensures !c.Mutating() {
        var j :| 0 <= j < |log| && log[j] == c;
      }
    }
  }

  /** Every command the device loops add is the decision for one of the
      devices. */
  lemma {:induction false} LoopsIssueDecisions(s: Setting, run: Shell, devs: seq<string>, log: seq<Command>)
    ensures var r := Reconcile(s, run, devs, log, false);
      forall j :: |log| <= j < |r.log| ==> !s.checkMode && exists i :: 0 <= i < |devs| && Decide(s, devs[i]) == Issue(r.log[j])
  {
    var r := Reconcile(s, run, devs, log, false);
    IssuesOnlyMutations(s, run, devs, log);
    if !s.checkMode {
      IssuesPlanPrefix(s, run, devs, log, false);
      PlanIssued(s, devs);
      forall j | |log| <= j < |r.log|
        ensures exists i :: 0 <= i < |devs| && Decide(s, devs[i]) == Issue(r.log[j])
      {
        assert r.log[j] == Plan(s, devs)[j - |log|] by {
          assert r.log[j] == r.log[|log|..][j - |log|];
        }
      }
    }
  }

  /** A run that stops before the device loops changes nothing. */
  lemma StoppedEarlyChangesNothing(req: Request, host: Host)
    requires !Reaches(req, host)
    ensures var log := Module(req, host).log;
      forall j :: 0 <= j < |log| ==> !log[j].Mutating()
  {
    if Admitted(req, host) {
      AfterValidation(req, host);
      SnapshotLog(host);
    }
  }

  /** Every command that changes the host is the decision, on the inventory
      read at the start, for one of the requested devices, outside check
      mode. */
  lemma MutationsAreDecided(req: Request, host: Host)
    ensures var log := Module(req, host).log;
      forall j :: 0 <= j < |log| && log[j].Mutating() ==>
        && Reaches(req, host) && !req.checkMode
        && exists i :: 0 <= i < |req.pvs| && Decide(SettingOf(req, Inv(host)), Canonical(req.pvs, host.realpath)[i]) == Issue(log[j])
  {
    var log := Module(req, host).log;
    if !Reaches(req, host) {
      StoppedEarlyChangesNothing(req, host);
    } else {
      forall j | 0 <= j < |log| && log[j].Mutating()
        ensures !req.checkMode
        ensures exists i :: 0 <= i < |req.pvs| && Decide(SettingOf(req, Inv(host)), Canonical(req.pvs, host.realpath)[i]) == Issue(log[j])
      {
        MutationDecided(req, host, j);
      }
    }
  }

  /** One command of a run that changes the host is the decision for one of
      the requested devices. */
  lemma MutationDecided(req: Request, host: Host, j: nat)
    requires Reaches(req, host)
    requires j < |Module(req, host).log| && Module(req, host).log[j].Mutating()
    ensures !req.checkMode
    ensures exists i :: 0 <= i < |req.pvs| && Decide(SettingOf(req, Inv(host)), Canonical(req.pvs, host.realpath)[i]) == Issue(Module(req, host).log[j])
  {
    var s := SettingOf(req, Inv(host));
    var devs := Canonical(req.pvs, host.realpath);
    var scan := Snapshot(host);
    AfterValidation(req, host);
    SnapshotLog(host);
    IssuesOnlyMutations(s, host.run, devs, scan.log);
    PrefixAt(scan.log, Module(req, host).log);
    LoopsIssueDecisions(s, host.run, devs, scan.log);
  }

  /** The removal guard: without force no forced removal is ever issued, and
      a graceful removal is issued only for a volume that the inventory shows
      entirely free and in no volume group. */
  lemma InUseNeverRemovedWithoutForce(req: Request, host: Host)
    requires !req.force
    ensures var log := Module(req, host).log;
      forall j :: 0 <= j < |log| ==>
        && !log[j].ForceRemove?
        && (log[j].Remove? ==>
              Reaches(req, host) && req.state == Absent && log[j].device in Inv(host) && Removable(Inv(host)[log[j].device]))
  {
    MutationsAreDecided(req, host);
  }

  /** A device whose real path is a /dev/dm- node never matches the
      inventory, whose device-mapper entries are renamed to /dev/mapper/
      aliases: state=present always creates it and state=absent never
      removes it. */
  lemma DmNodesNeverMatch(req: Request, host: Host)
    requires Reaches(req, host)
    ensures forall d :: d in Canonical(req.pvs, host.realpath) && DM_PREFIX <= d ==>
      Decide(SettingOf(req, Inv(host)), d) == (if req.state == Present then Issue(Create(Words(req.pvOptions), d)) else NoOp)
  {
    NoDmKeys(host.run, Listing(host).out, [ListPvs]);
  }

  /** Convergence: when every device already is as requested, the run
      issues nothing after reading the inventory and reports no change. */
  lemma Converged(req: Request, host: Host)
    requires Reaches(req, host)
    requires forall d :: d in Canonical(req.pvs, host.realpath) ==> Decide(SettingOf(req, Inv(host)), d).NoOp?
    ensures Module(req, host) == Run(Changed(false), Snapshot(host).log)
  {
    var s := SettingOf(req, Inv(host));
    var devs := Canonical(req.pvs, host.realpath);
    var log := Snapshot(host).log;
    assert !NeedsAction(s, devs);
    if req.checkMode {
      DryRun(s, host.run, devs, log, false);
    } else {
      assert NoRefusal(s, devs);
      NoActionNoPlan(s, devs);
      FollowsPlan(s, host.run, devs, log, false);
      StopsAtFirstFailure(s, host.run, devs, log, false);
      IssuesPlanPrefix(s, host.run, devs, log, false);
      VerdictSuccess(s, devs, false);
      assert log + [] == log;
    }
  }

  /** A run outside check mode that reports success has issued exactly the
      plan after the inventory: every requested device that was missing was
      created with the options, or every listed device was removed, the
      graceful way without force and the forced way with it. */
  lemma SuccessReachesGoal(req: Request, host: Host)
    requires !req.checkMode
    ensures var r := Module(req, host);
      r.outcome.Changed? ==>
        && Reaches(req, host)
        && r.log == Snapshot(host).log + Plan(SettingOf(req, Inv(host)), Canonical(req.pvs, host.realpath))
        && (forall d :: d in Canonical(req.pvs, host.realpath) ==>
              if req.state == Present then d in Inv(host) || Create(Words(req.pvOptions), d) in r.log
              else d !in Inv(host) || (if req.force then ForceRemove(d) else Remove(d)) in r.log)
  {
    var r := Module(req, host);
    if r.outcome.Changed? {
      assert Reaches(req, host);
      var s := SettingOf(req, Inv(host));
      var devs := Canonical(req.pvs, host.realpath);
      var log := Snapshot(host).log;
      FollowsPlan(s, host.run, devs, log, false);
      if !NoRefusal(s, devs) {
        VerdictRefusal(s, devs, false);
      }
      PlanCovers(s, devs);
      forall d | d in devs
        ensures if req.state == Present then d in Inv(host) || Create(Words(req.pvOptions), d) in r.log
                else d !in Inv(host) || (if req.force then ForceRemove(d) else Remove(d)) in r.log
      {
        var i :| 0 <= i < |devs| && devs[i] == d;
        assert Decide(s, devs[i]).Issue? ==> Decide(s, d).cmd in r.log;
      }
    }
  }

  /** When every command that changes the host succeeds and no device is
      refused, the run issues exactly the plan and reports changed exactly
      when the plan is not empty. */
  lemma AllSucceedRun(req: Request, host: Host)
    requires !req.checkMode && Reaches(req, host)
    requires NoRefusal(SettingOf(req, Inv(host)), Canonical(req.pvs, host.realpath))
    requires forall h: seq<Command>, c: Command :: c.Mutating() ==> host.run(h, c).rc == 0
    ensures var p := Plan(SettingOf(req, Inv(host)), Canonical(req.pvs, host.realpath));
      Module(req, host) == Run(Changed(p != []), Snapshot(host).log + p)
  {
    var s := SettingOf(req, Inv(host));
    var devs := Canonical(req.pvs, host.realpath);
    AllSucceed(s, host.run, devs, Snapshot(host).log, false);
    VerdictSuccess(s, devs, false);
  }
}
