# lvm_pvs in Dafny

A model of the Ansible module `lvm_pvs`. The module makes a list of block
devices LVM physical volumes (`state=present`) or stops them being physical
volumes (`state=absent`). It reads the inventory once with `pvs`, and it
renames device-mapper nodes (`/dev/dm-N`) to their `/dev/mapper/` aliases
with `dmsetup`. Then it decides, device by device, whether to run
`pvcreate`, to run `pvremove` (gracefully or forced), to refuse, or to do
nothing. It stops at the first failure and, in check mode, at the first
device that needs an action.

The project has six modules:

- `PyText` (`text.dfy`): the Python 2 string operations the module relies
  on. These are `strip`, `rstrip`, `split(';')`, `split()` and `splitlines()`,
  with ASCII whitespace and the `\n`, `\r` and `\r\n` line boundaries. Each
  comes with its inverse or its characterisation: `Join` for `split(';')`,
  `Interleave` (words between whitespace runs) for `split()`, and `Glue`
  (lines with their terminators) for `splitlines()`.
- `Commands` (`commands.dfy`): the commands the module issues, as data, and
  their command lines (`Argv`). Also the replies and the three ways a run
  ends: `exit_json(changed=…)`, `fail_json(msg=…, rc=…, err=…)` or an
  uncaught Python exception.
- `Inventory` (`inventory.dfy`): `find_mapper_device_name` and `parse_pvs`.
  `ParsePvs` is the imperative loop. It is proved equal to the
  specification function `ParseFrom`. `ParseAll` states, for every listing,
  what `ParseFrom` gives in terms of each line read on its own
  (`LineFacts`), with the log the lookups of the earlier lines have
  extended (`LineAtLog`).
- `LvmPvs` (`lvm_pvs.dfy`): `main` in two forms:
  - `Module`: a function of the request and the host;
  - `Execute`: the imperative code, proved equal to `Module`. It rewrites
    the device array in place with real paths, checks that the devices
    exist, and calls the loops of `parse_pvs` and of `main`.
- `Plans` (`plans.dfy`): the device loops against two reference
  definitions. The plan is the commands the decisions call for. The verdict
  is the result reported when every command succeeds.
- `Runs` (`runs.dfy`): properties of whole runs:
  - validation comes before any command;
  - the order of the commands;
  - check mode changes nothing;
  - the removal guard;
  - convergence;
  - what a successful run has done.

The host is a set of oracles: `realpath`, `exists` and `run`. `run` answers
each command given every command issued before it, so a repeated command may
get a different reply. Each run records the commands it issued, in order, in
a log. Most properties are stated about that log.

Where the module's documented intent and its code differ, the model follows
the code:

- When `pvs` is empty and `state=absent`, the local device list is never
  assigned, so `main` ends with an `UnboundLocalError` (a `NameError`)
  rather than doing nothing (`Module`, `ValidationFirst`).
- Graceful removal needs both conditions: all of the volume is free, and its
  volume group is empty. A volume in a group is refused without
  `force=yes` even when all of it is free (`Decide`).
- Sizes are compared as the text `pvs` printed (`"1000B"`), not as numbers
  (`Removable`).
- A listing line with fewer than four `;`-separated fields ends the run with
  an `IndexError` (`Malformed`). For a `/dev/dm-` line this happens after
  the `dmsetup` lookup.

One consequence of the code is made explicit (`Runs.DmNodesNeverMatch`).
The requested devices are replaced by their real paths, and the real path of
`/dev/mapper/x` is a `/dev/dm-N` node. The inventory, however, names every
device-mapper volume by its `/dev/mapper/` alias. So a requested device whose
real path is a `/dev/dm-` node never matches the inventory: it is always
decided for creation under `state=present`, and never for removal under
`state=absent`.

## Model

| member | source | states |
|---|---|---|
| PyText.LeadingSpace | system/lvm_pvs.py:89 | the whitespace `strip()` drops in front: an all-whitespace prefix followed by a non-whitespace character or the end |
| PyText.TrailingSpace | system/lvm_pvs.py:81 | the whitespace `rstrip()` drops at the end: an all-whitespace suffix preceded by a non-whitespace character or the start |
| PyText.Strip | system/lvm_pvs.py:89 | `strip()` gives the line between an all-whitespace prefix and an all-whitespace suffix, itself without whitespace at either end |
| PyText.Split | system/lvm_pvs.py:89 | `split(';')` gives at least one field and no field contains `;` |
| PyText.JoinSplit | system/lvm_pvs.py:89 | joining the fields of `split(';')` with `;` gives the line back |
| PyText.SplitJoin | system/lvm_pvs.py:89 | `split(';')` of fields joined with `;` gives the fields back when none contains `;` |
| PyText.SplitLines | system/lvm_pvs.py:88 | `splitlines()` gives lines without line boundaries, no more lines than characters |
| PyText.SplitGlue | system/lvm_pvs.py:88 | `splitlines()` of lines each followed by `\n`, `\r` or `\r\n` (the last possibly unterminated) gives exactly those lines, unless a lone `\r` and a following `\n` would read as one `\r\n` |
| PyText.GlueSplit | system/lvm_pvs.py:88 | every text is the lines `splitlines()` finds, each followed by the terminator it had |
| PyText.Words | system/lvm_pvs.py:113 | `split()` gives non-empty words without whitespace |
| PyText.WordsUnwords | system/lvm_pvs.py:113 | `split()` of words joined by spaces gives exactly those words, so `pv_options` reaches `pvcreate` word by word |
| PyText.WordsInterleave | system/lvm_pvs.py:113 | `split()` of words between whitespace runs, non-empty between two words, gives exactly those words |
| PyText.InterleaveWords | system/lvm_pvs.py:113 | every text is the words `split()` finds, separated and surrounded by whitespace runs |
| Commands.Argv | system/lvm_pvs.py:78-167 | the command lines of lines 78 (`dmsetup`), 134 (`pvs`), 146 (`pvcreate`), 158 and 167 (`pvremove`): each has a program and, but for the listing, the device as its last argument; changing commands run `pvcreate` or `pvremove` |
| Inventory.MapperDevice | system/lvm_pvs.py:75-82 | a zero exit gives `/dev/mapper/` plus the reply with only trailing whitespace removed; any other exit gives the dmsetup failure with its exit code and error text |
| Inventory.FindMapperDeviceName | system/lvm_pvs.py:75-82 | issues exactly one `dmsetup` lookup of the node and returns what `MapperDevice` makes of the reply |
| Inventory.MapperIsNotDm | system/lvm_pvs.py:77 | a `/dev/mapper/` path never starts with `/dev/dm-` |
| Inventory.Rows | system/lvm_pvs.py:88-89 | one field list per line of the listing |
| Inventory.ReadLine | system/lvm_pvs.py:89-96 | one iteration of the parse loop (strip, split, rename of a `/dev/dm-` node, record of the last three fields) equals `ParseLine` on the line's fields |
| Inventory.ParsePvs | system/lvm_pvs.py:85-97 | the parse loop, with the commands it issues, equals `ParseFrom` over the listing's lines |
| Inventory.LineFacts | system/lvm_pvs.py:89-96 | a line issues exactly the lookup of the `/dev/dm-` node it names, if any; it gives an entry iff it has four fields and any lookup succeeds; the entry's key is the first field or the alias the lookup answered, and its record is fields 1-3 verbatim; otherwise a failed lookup gives its status and a short line an IndexError |
| Inventory.ParseOnlyLooksUp | system/lvm_pvs.py:88-91 | parsing keeps the commands before it and adds only `dmsetup` lookups, a prefix of the lines' own lookups in line order, so at most one per line |
| Inventory.ParseKeys | system/lvm_pvs.py:90-93 | every key of the parsed inventory was there before, is a `/dev/mapper/` alias, or is a non-`/dev/dm-` device some line names |
| Inventory.NoDmKeys | system/lvm_pvs.py:90-93 | no key of a parsed inventory is a `/dev/dm-` node |
| Inventory.LineAtLog | system/lvm_pvs.py:88-91 | line i is read with the log extended by the lookups of the device-mapper lines before it |
| Inventory.ParseAll | system/lvm_pvs.py:85-97 | for every listing: the parse succeeds iff every line gives an entry; then one lookup per device-mapper line was issued and the inventory is the earlier one assigned every line's key and record in order, the last line for a key winning and other entries kept; otherwise it ends as the first line that gives no entry ends |
| Inventory.ParseFailureCause | system/lvm_pvs.py:79-80 | a dmsetup failure is the reply to the last command, a lookup of a `/dev/dm-` node with a non-zero exit, and reports that exit code and error text |
| LvmPvs.Decide | system/lvm_pvs.py:141-171 | the decision table: nothing iff the device already is as requested; create with the options when present is wanted; forced removal with force; graceful removal only of a volume entirely free and in no group; refusal, naming the group, otherwise |
| LvmPvs.Canonicalize | system/lvm_pvs.py:121-122 | every requested device is replaced in place by its real path |
| LvmPvs.FindMissing | system/lvm_pvs.py:124-128 | finds nothing iff every device exists, and otherwise the first device that does not exist |
| LvmPvs.Apply | system/lvm_pvs.py:139-173 | the device loops, with the commands they issue, equal `Reconcile` |
| LvmPvs.ReadAndApply | system/lvm_pvs.py:134-173 | listing, parsing and the device loops, with the failures of `pvs` and `dmsetup`, equal `Proceed` |
| LvmPvs.Execute | system/lvm_pvs.py:111-173 | the whole of `main`, including the empty-list and missing-device failures, equals `Module` |
| Plans.DryRun | system/lvm_pvs.py:144-145 | check mode issues no command and reports changed exactly when some device needs an action |
| Plans.PlanIssued | system/lvm_pvs.py:141-171 | every planned command changes the host and is the decision for a requested device; there are no more commands than devices |
| Plans.PlanSnoc | system/lvm_pvs.py:141-171 | the plan follows the list: one more device adds exactly its own command, if it has one, at the end, unless an earlier device was refused; a device listed twice gets its command twice |
| Plans.PlanCovers | system/lvm_pvs.py:141-171 | without a refusal, the command decided for every device that needs one is planned |
| Plans.VerdictSuccess | system/lvm_pvs.py:139-173 | without a refusal the verdict is success, changed exactly when something is planned |
| Plans.VerdictRefusal | system/lvm_pvs.py:163-165 | with a refusal the verdict is the refusal of the first refused device, without an exit code |
| Plans.NoActionNoPlan | system/lvm_pvs.py:142-153 | when no device needs an action nothing is planned |
| Plans.IssuesPlanPrefix | system/lvm_pvs.py:141-171 | the loops keep the earlier commands and issue a prefix of the plan |
| Plans.IssuesMutations | system/lvm_pvs.py:146-167 | every command the loops issue changes the host |
| Plans.StopsAtFirstFailure | system/lvm_pvs.py:146-171 | every issued command but the last succeeded; a failure with an exit code is reported iff the last command failed |
| Plans.FailureReport | system/lvm_pvs.py:150-171 | a failure reports the failed command's message, exit code and error text |
| Plans.ChangedIffIssued | system/lvm_pvs.py:139-173 | a successful run reports changed exactly when a command ran |
| Plans.FollowsPlan | system/lvm_pvs.py:141-173 | unless a command fails, the loops issue exactly the plan and report the verdict |
| Plans.AllSucceed | system/lvm_pvs.py:141-173 | when every changing command succeeds, the loops issue exactly the plan and report the verdict |
| Runs.LookupsAfterListing | system/lvm_pvs.py:88-91 | a parse after the listing logs the listing first and then only lookups |
| Runs.SnapshotLog | system/lvm_pvs.py:134-137 | the inventory read issues the listing first and then only `dmsetup` lookups |
| Runs.AfterValidation | system/lvm_pvs.py:134-137 | after validation the run is the listing failure, the parse failure, or the device loops on the parsed inventory |
| Runs.LogPhases | system/lvm_pvs.py:134-171 | an admitted run lists the volumes first and only once, then looks up nodes, then only changes the host |
| Runs.ValidationFirst | system/lvm_pvs.py:115-128 | a rejected request issues no command and fails with the module's `fail_json` message for the first missing device or for the empty list, or crashes with the `UnboundLocalError` |
| Runs.FirstMissingIsFirst | system/lvm_pvs.py:126-128 | the existence check finds nothing iff all devices exist, and otherwise the first missing one |
| Runs.IssuesOnlyMutations | system/lvm_pvs.py:141-171 | the loops keep the earlier commands and add only changing ones, none in check mode |
| Runs.CheckModeIsReadOnly | system/lvm_pvs.py:144-155 | in check mode no command changes the host, and a run reaching the loops reports changed exactly when some device needs an action |
| Runs.StoppedEarlyChangesNothing | system/lvm_pvs.py:115-137 | a run that stops before the device loops issues no changing command |
| Runs.LoopsIssueDecisions | system/lvm_pvs.py:141-171 | every command the loops add is the decision for a requested device, outside check mode |
| Runs.MutationsAreDecided | system/lvm_pvs.py:141-171 | every changing command of a run is the decision, on the inventory read at the start, for a requested device |
| Runs.MutationDecided | system/lvm_pvs.py:141-171 | one changing command of a run is the decision for a requested device |
| Runs.InUseNeverRemovedWithoutForce | system/lvm_pvs.py:156-165 | without force there is no forced removal, and a graceful one only of a volume entirely free and in no group |
| Runs.DmNodesNeverMatch | system/lvm_pvs.py:90-91 | a requested device whose real path is a `/dev/dm-` node is always decided for creation under present and for nothing under absent, so it is never removed |
| Runs.Converged | system/lvm_pvs.py:139-173 | when every device is already as requested, no changing command is issued and the run reports no change |
| Runs.SuccessReachesGoal | system/lvm_pvs.py:139-173 | a successful run outside check mode issued exactly the plan: every missing device was created with the options, or every listed device was removed (forced with force) |
| Runs.AllSucceedRun | system/lvm_pvs.py:139-173 | when all changing commands succeed and nothing is refused, the run issues the plan and reports changed iff the plan is not empty |

## Left out

- `AnsibleModule` argument handling is not modelled. This covers parameter
  parsing, the comma-splitting `list` type, the `pv_args` alias, the
  defaults, `module.boolean` and the misspelt `require=True`. `Request`
  holds the parsed values.
- `get_bin_path` (lines 76, 130-132) is left out. It only locates the
  binaries and fails when one is missing. The model's commands name the
  programs directly.
- `run_command`, `os.path.realpath` and `os.path.exists` are oracles, the
  fields of `Host`. Shell quoting of the `dmsetup` and `pvremove` command
  strings is not modelled.
- Python 3 text semantics are not modelled: Unicode whitespace in
  `strip()`/`split()`, and the extra line boundaries of `splitlines()`. The
  model uses Python 2 byte strings, which this module targets.
- `exit_json` and `fail_json` end the process. The model returns the
  outcome instead, and the `Crashed` outcome stands for an uncaught
  exception with its traceback.
- The present and absent loops of `main` are one loop over `Decide`. This
  behaves the same because `state` does not change during a run.
- Inventory.Rows: the branch of `ParseLine` for a line with no fields cannot
  occur, because `split(';')` always gives at least one field. It is kept
  and ends as `Malformed`.
- Documentation strings (`DOCUMENTATION`, `EXAMPLES`) are not modelled.
