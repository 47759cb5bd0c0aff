/** What the device loops of main do, against two reference definitions:
    the plan (the commands the decisions call for, in list order, up to the
    first refusal) and the verdict (the result the run reports when every
    command succeeds). */
module Plans {
  import opened Commands
  import opened Inventory
  import opened LvmPvs

  /** Some requested device needs an action: a command or a refusal. */
  predicate NeedsAction(s: Setting, devs: seq<string>) {
    exists i :: 0 <= i < |devs| && !Decide(s, devs[i]).NoOp?
  }

  /** No requested device is refused. */
  predicate NoRefusal(s: Setting, devs: seq<string>) {
    forall i :: 0 <= i < |devs| ==> !Decide(s, devs[i]).Refuse?
  }

  /** The commands the decisions call for, in list order, up to the first
      refused device. */
  function Plan(s: Setting, devs: seq<string>): seq<Command>
    decreases |devs|
  {
    if devs == [] then []
    else
      match Decide(s, devs[0])
      case NoOp => Plan(s, devs[1..])
      case Issue(c) => [c] + Plan(s, devs[1..])
      case Refuse(_, _) => []
  }

  /** The result the device loops report when every command succeeds. */
  function Verdict(s: Setting, devs: seq<string>, changed: bool): Outcome
    decreases |devs|
  {
    if devs == [] then Changed(changed)
    else
      match Decide(s, devs[0])
      case NoOp => Verdict(s, devs[1..], changed)
      case Issue(_) => Verdict(s, devs[1..], true)
      case Refuse(dev, vg) => Failed(RefusalMessage(dev, vg), None)
  }

  /** Command `j` of `log` exited with status 0, given the commands before
      it. */
  predicate Succeeded(run: Shell, log: seq<Command>, j: int)
    requires 0 <= j < |log|
  {
    run(log[..j], log[j]).rc == 0
  }

  /** Check mode issues nothing and reports changed exactly when some device
      needs an action (or the flag was already set). */
  lemma {:induction false} DryRun(s: Setting, run: Shell, devs: seq<string>, log: seq<Command>, changed: bool)
    requires s.checkMode
    ensures Reconcile(s, run, devs, log, changed) == Run(Changed(changed || NeedsAction(s, devs)), log)
  {
    if devs != [] {
      DryRun(s, run, devs[1..], log, changed);
      if NeedsAction(s, devs[1..]) {
        var i :| 0 <= i < |devs[1..]| && !Decide(s, devs[1..][i]).NoOp?;
        assert !Decide(s, devs[i + 1]).NoOp?;
      }
      if Decide(s, devs[0]).NoOp? && NeedsAction(s, devs) {
        var i :| 0 <= i < |devs| && !Decide(s, devs[i]).NoOp?;
        assert devs[1..][i - 1] == devs[i];
      }
    }
  }

  /** Every command of the plan changes the host and is the decision for one
      of the requested devices; the plan has no more commands than there
      are devices. */
  lemma {:induction false} PlanIssued(s: Setting, devs: seq<string>)
    ensures |Plan(s, devs)| <= |devs|
    ensures forall k :: 0 <= k < |Plan(s, devs)| ==>
      Plan(s, devs)[k].Mutating() && exists i :: 0 <= i < |devs| && Decide(s, devs[i]) == Issue(Plan(s, devs)[k])
  {
    if devs != [] {
      PlanIssued(s, devs[1..]);
      var p := Plan(s, devs);
      var rest := Plan(s, devs[1..]);
      forall k | 0 <= k < |p|
        ensures p[k].Mutating() && exists i :: 0 <= i < |devs| && Decide(s, devs[i]) == Issue(p[k])
      {
        if Decide(s, devs[0]).Issue? && k == 0 {
          assert Decide(s, devs[0]) == Issue(p[0]);
        } else {
          var k' := if Decide(s, devs[0]).Issue? then k - 1 else k;
          assert p[k] == rest[k'];
          var i :| 0 <= i < |devs[1..]| && Decide(s, devs[1..][i]) == Issue(rest[k']);
          assert devs[1..][i] == devs[i + 1];
        }
      }
    }
  }

  /** The plan grows one device at a time, in list order: a further
      device adds its own command, if it has one, unless an earlier device
      was refused; a device listed twice gets its command twice. */
  lemma {:induction false} PlanSnoc(s: Setting, devs: seq<string>, d: string)
    ensures Plan(s, devs + [d]) ==
      if !NoRefusal(s, devs) then Plan(s, devs)
      else match Decide(s, d)
        case Issue(c) => Plan(s, devs) + [c]
        case _ => Plan(s, devs)
  {
    var all := devs + [d];
    if devs == [] {
      assert all == [d] && all[1..] == [];
    } else {
      assert all[0] == devs[0] && all[1..] == devs[1..] + [d];
      PlanSnoc(s, devs[1..], d);
      assert NoRefusal(s, devs) <==> !Decide(s, devs[0]).Refuse? && NoRefusal(s, devs[1..]) by {
        forall i | 0 <= i < |devs[1..]| ensures devs[1..][i] == devs[i + 1] { }
        if !Decide(s, devs[0]).Refuse? && NoRefusal(s, devs[1..]) {
          forall i | 0 < i < |devs| ensures !Decide(s, devs[i]).Refuse? {
            assert devs[i] == devs[1..][i - 1];
          }
        }
      }
    }
  }

  /** Without a refusal the plan holds the command decided for every device
      that needs one. */
  lemma {:induction false} PlanCovers(s: Setting, devs: seq<string>)
    requires NoRefusal(s, devs)
    ensures forall i :: 0 <= i < |devs| && Decide(s, devs[i]).Issue? ==> Decide(s, devs[i]).cmd in Plan(s, devs)
  {
    if devs != [] {
      assert NoRefusal(s, devs[1..]) by {
        forall i | 0 <= i < |devs[1..]| ensures !Decide(s, devs[1..][i]).Refuse? {
          assert devs[1..][i] == devs[i + 1];
        }
      }
      PlanCovers(s, devs[1..]);
      forall i | 0 <= i < |devs| && Decide(s, devs[i]).Issue?
        ensures Decide(s, devs[i]).cmd in Plan(s, devs)
      {
        if i > 0 {
          assert devs[1..][i - 1] == devs[i];
        }
      }
    }
  }

  /** Without a refusal the verdict is success, changed exactly when the
      plan is not empty or the flag was set. */
  lemma {:induction false} VerdictSuccess(s: Setting, devs: seq<string>, changed: bool)
    requires NoRefusal(s, devs)
    ensures Verdict(s, devs, changed) == Changed(changed || Plan(s, devs) != [])
  {
    if devs != [] {
      assert NoRefusal(s, devs[1..]) by {
        forall i | 0 <= i < |devs[1..]| ensures !Decide(s, devs[1..][i]).Refuse? {
          assert devs[1..][i] == devs[i + 1];
        }
      }
      VerdictSuccess(s, devs[1..], Decide(s, devs[0]).Issue? || changed);
    }
  }

  /** With a refusal the verdict is the refusal of the first refused
      device, without an exit status. */
  lemma {:induction false} VerdictRefusal(s: Setting, devs: seq<string>, changed: bool)
    requires !NoRefusal(s, devs)
    ensures exists i ::
      && 0 <= i < |devs| && Decide(s, devs[i]).Refuse? && NoRefusal(s, devs[..i])
      && Verdict(s, devs, changed) == Failed(RefusalMessage(devs[i], s.inv[devs[i]].vgName), None)
  {
    if Decide(s, devs[0]).Refuse? {
      assert NoRefusal(s, devs[..0]);
    } else {
      var rest := devs[1..];
      var changed' := Decide(s, devs[0]).Issue? || changed;
      assert !NoRefusal(s, rest) by {
        var i :| 0 <= i < |devs| && Decide(s, devs[i]).Refuse?;
        assert rest[i - 1] == devs[i];
      }
      VerdictRefusal(s, rest, changed');
      var i :| 0 <= i < |rest| && Decide(s, rest[i]).Refuse? && NoRefusal(s, rest[..i]) &&
        Verdict(s, rest, changed') == Failed(RefusalMessage(rest[i], s.inv[rest[i]].vgName), None);
      assert rest[i] == devs[i + 1];
      NoRefusalPrefix(s, devs, i);
    }
  }

  /** A device that is not refused, in front of devices none of which is. */
  lemma NoRefusalPrefix(s: Setting, devs: seq<string>, i: nat)
    requires i < |devs| && !Decide(s, devs[0]).Refuse? && NoRefusal(s, devs[1..][..i])
    ensures NoRefusal(s, devs[..i + 1])
  {
    var pre := devs[..i + 1];
    forall k | 0 <= k < |pre| ensures !Decide(s, pre[k]).Refuse? {
      if k > 0 {
        assert pre[k] == devs[1..][..i][k - 1];
      }
    }
  }

  /** Without check mode the loops issue, after the commands before them, a
      prefix of the plan. */
  lemma {:induction false} IssuesPlanPrefix(s: Setting, run: Shell, devs: seq<string>, log: seq<Command>, changed: bool)
    requires !s.checkMode
    ensures var r := Reconcile(s, run, devs, log, changed);
      |log| <= |r.log| && r.log[..|log|] == log && r.log[|log|..] <= Plan(s, devs)
  {
    if devs != [] {
      match Decide(s, devs[0])
      case NoOp =>
        IssuesPlanPrefix(s, run, devs[1..], log, changed);
      case Refuse(_, _) =>
      case Issue(c) =>
        var r := Reconcile(s, run, devs, log, changed);
        if run(log, c).rc == 0 {
          IssuesPlanPrefix(s, run, devs[1..], log + [c], true);
          assert r.log[..|log|] == (log + [c])[..|log|];
          assert r.log[|log|..] == [c] + r.log[|log| + 1..];
        } else {
          assert r.log[|log|..] == [c];
        }
    }
  }

  /** The loops stop at the first command that fails: every command before
      the last succeeded, and the run reports a failure with an exit status
      exactly when its last command failed. */
  lemma {:induction false} StopsAtFirstFailure(s: Setting, run: Shell, devs: seq<string>, log: seq<Command>, changed: bool)
    requires !s.checkMode
    ensures var r := Reconcile(s, run, devs, log, changed);
      && |log| <= |r.log|
      && (forall j :: |log| <= j < |r.log| - 1 ==> Succeeded(run, r.log, j))
      && (r.outcome.Failed? && r.outcome.status.Some? <==> |r.log| > |log| && !Succeeded(run, r.log, |r.log| - 1))
  {
    IssuesPlanPrefix(s, run, devs, log, changed);
    if devs != [] {
      match Decide(s, devs[0])
      case NoOp =>
        StopsAtFirstFailure(s, run, devs[1..], log, changed);
      case Refuse(_, _) =>
      case Issue(c) =>
        var r := Reconcile(s, run, devs, log, changed);
        if run(log, c).rc == 0 {
          StopsAtFirstFailure(s, run, devs[1..], log + [c], true);
          IssuesPlanPrefix(s, run, devs[1..], log + [c], true);
          assert r.log[..|log|] == log;
          assert Succeeded(run, r.log, |log|);
        } else {
          assert r.log[..|log|] == log;
        }
    }
  }

  /** A failure with an exit status carries the message and the status of
      the last command, the one that failed. */
  lemma {:induction false} FailureReport(s: Setting, run: Shell, devs: seq<string>, log: seq<Command>, changed: bool)
    requires !s.checkMode
    ensures var r := Reconcile(s, run, devs, log, changed);
      r.outcome.Failed? && r.outcome.status.Some? ==>
        && |r.log| > |log|
        && var last := r.log[|r.log| - 1];
           var reply := run(r.log[..|r.log| - 1], last);
           r.outcome == Failed(FailureMessage(last), Some(Status(reply.rc, reply.err)))
  {
    if devs != [] {
      match Decide(s, devs[0])
      case NoOp =>
        FailureReport(s, run, devs[1..], log, changed);
      case Refuse(_, _) =>
      case Issue(c) =>
        if run(log, c).rc == 0 {
          FailureReport(s, run, devs[1..], log + [c], true);
        } else {
          assert (log + [c])[..|log|] == log;
        }
    }
  }

  /** A run that ends in success reports changed exactly when a command ran
      or the flag was already set. */
  lemma {:induction false} ChangedIffIssued(s: Setting, run: Shell, devs: seq<string>, log: seq<Command>, changed: bool)
    requires !s.checkMode
    ensures var r := Reconcile(s, run, devs, log, changed);
      r.outcome.Changed? ==> (r.outcome.changed <==> changed || |r.log| > |log|)
  {
    IssuesPlanPrefix(s, run, devs, log, changed);
    if devs != [] {
      match Decide(s, devs[0])
      case NoOp =>
        ChangedIffIssued(s, run, devs[1..], log, changed);
      case Refuse(_, _) =>
      case Issue(c) =>
        if run(log, c).rc == 0 {
          ChangedIffIssued(s, run, devs[1..], log + [c], true);
          IssuesPlanPrefix(s, run, devs[1..], log + [c], true);
        }
    }
  }

  /** Unless a command fails, the loops issue exactly the plan and report
      the verdict. */
  lemma {:induction false} FollowsPlan(s: Setting, run: Shell, devs: seq<string>, log: seq<Command>, changed: bool)
    requires !s.checkMode
    ensures var r := Reconcile(s, run, devs, log, changed);
      (r.outcome.Failed? && r.outcome.status.Some?) || r == Run(Verdict(s, devs, changed), log + Plan(s, devs))
  {
    if devs != [] {
      match Decide(s, devs[0])
      case NoOp =>
        FollowsPlan(s, run, devs[1..], log, changed);
      case Refuse(_, _) =>
        assert log + Plan(s, devs) == log;
      case Issue(c) =>
        if run(log, c).rc == 0 {
          FollowsPlan(s, run, devs[1..], log + [c], true);
          assert log + [c] + Plan(s, devs[1..]) == log + Plan(s, devs);
        }
    }
  }

  /** Without check mode every command the loops add changes the host. */
  lemma IssuesMutations(s: Setting, run: Shell, devs: seq<string>, log: seq<Command>, changed: bool)
    requires !s.checkMode
    ensures var r := Reconcile(s, run, devs, log, changed);
      forall j :: |log| <= j < |r.log| ==> r.log[j].Mutating()
  {
    var r := Reconcile(s, run, devs, log, changed);
    IssuesPlanPrefix(s, run, devs, log, changed);
    PlanIssued(s, devs);
    forall j | |log| <= j < |r.log| ensures r.log[j].Mutating() {
      assert r.log[j] == r.log[|log|..][j - |log|];
    }
  }

  /** When no device needs an action the plan is empty. */
  lemma {:induction false} NoActionNoPlan(s: Setting, devs: seq<string>)
    requires !NeedsAction(s, devs)
    ensures Plan(s, devs) == []
  {
    if devs != [] {
      assert Decide(s, devs[0]).NoOp?;
      assert !NeedsAction(s, devs[1..]) by {
        forall i | 0 <= i < |devs[1..]| ensures Decide(s, devs[1..][i]).NoOp? {
          assert devs[1..][i] == devs[i + 1];
        }
      }
      NoActionNoPlan(s, devs[1..]);
    }
  }

  /** When every command that changes the host succeeds, the loops issue
      exactly the plan and report the verdict. */
  lemma AllSucceed(s: Setting, run: Shell, devs: seq<string>, log: seq<Command>, changed: bool)
    requires !s.checkMode
    requires forall h: seq<Command>, c: Command :: c.Mutating() ==> run(h, c).rc == 0
    ensures Reconcile(s, run, devs, log, changed) == Run(Verdict(s, devs, changed), log + Plan(s, devs))
  {
    FollowsPlan(s, run, devs, log, changed);
    StopsAtFirstFailure(s, run, devs, log, changed);
    IssuesMutations(s, run, devs, log, changed);
  }
}
