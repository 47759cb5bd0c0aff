/** The inventory reader: parse_pvs and the device-mapper name rewrite of
    find_mapper_device_name. The listing has one volume per line, fields
    separated by ';': device, volume group, size, free space. */
module Inventory {
  import opened PyText
  import opened Commands

  const DM_PREFIX := "/dev/dm-"
  const MAPPER_PREFIX := "/dev/mapper/"

  /** What the listing says of one physical volume; sizes are kept as the
      text the listing printed. */
  datatype PvRecord = PvRecord(vgName: string, pvSize: string, pvFree: string)

  /** The outcome of a dmsetup lookup. */
  datatype Lookup = Found(path: string) | LookupFailed(status: Status)

  /** How parsing the listing ends: the inventory, a failed dmsetup lookup
      (fail_json), or a line with fewer than four fields (IndexError). */
  datatype Parsed = Pvs(pvs: map<string, PvRecord>) | DmFailed(status: Status) | Malformed

  /** A parse together with the command log after it. */
  datatype Scan = Scan(result: Parsed, log: seq<Command>)

  /** find_mapper_device_name once dmsetup has answered: a zero exit gives
      the mapper alias, the name with its trailing whitespace removed. */
  function MapperDevice(reply: Reply): (r: Lookup)
    ensures r.Found? <==> reply.rc == 0
    ensures r.LookupFailed? ==> r.status == Status(reply.rc, reply.err)
    ensures r.Found? ==> |MAPPER_PREFIX| <= |r.path| && r.path[..|MAPPER_PREFIX|] == MAPPER_PREFIX
    ensures r.Found? ==>
      var name := r.path[|MAPPER_PREFIX|..];
      name <= reply.out && AllSpace(reply.out[|name|..]) && (name == [] || !IsSpace(name[|name| - 1]))
  {
    if reply.rc != 0 then LookupFailed(Status(reply.rc, reply.err))
    else
      var path := MAPPER_PREFIX + RStrip(reply.out);
      assert path[|MAPPER_PREFIX|..] == RStrip(reply.out);
      Found(path)
  }

  /** find_mapper_device_name: asks dmsetup for the name of a device-mapper
      node and turns the reply into the node's mapper alias. */
  method FindMapperDeviceName(run: Shell, log: seq<Command>, device: string) returns (r: Lookup, log': seq<Command>)
    ensures log' == log + [MapperName(device)]
    ensures r == MapperDevice(run(log, MapperName(device)))
  {
    var reply := run(log, MapperName(device));
    log' := log + [MapperName(device)];
    if reply.rc != 0 {
      return LookupFailed(Status(reply.rc, reply.err)), log';
    }
    r := Found(MAPPER_PREFIX + RStrip(reply.out));
  }

  /** A mapper alias is never itself a device-mapper node path. */
  lemma MapperIsNotDm(path: string)
    requires MAPPER_PREFIX <= path
    ensures !(DM_PREFIX <= path)
  {
    assert path[5] == 'm' && DM_PREFIX[5] == 'd';
  }

  /** The fields of every line of the listing: the stripped line split on
      ';'. */
  function Rows(lines: seq<string>): (rows: seq<seq<string>>)
    ensures |rows| == |lines|
  {
    if lines == [] then [] else [Split(Strip(lines[0]), ';')] + Rows(lines[1..])
  }

  lemma {:induction false} RowsAt(lines: seq<string>, i: nat)
    requires i < |lines|
    ensures Rows(lines)[i] == Split(Strip(lines[i]), ';')
  {
    if i > 0 {
      RowsAt(lines[1..], i - 1);
    }
  }

  /** The device a row names, before any rewrite. */
  function Device(row: seq<string>): string {
    if row == [] then "" else row[0]
  }

  function Record(row: seq<string>): PvRecord
    requires |row| >= 4
  {
    PvRecord(row[1], row[2], row[3])
  }

  /** One row of the listing read: an entry for the inventory, or the end
      of parsing; `log` is the command log after the row. */
  datatype LineScan =
    | Entry(device: string, record: PvRecord, log: seq<Command>)
    | Stop(result: Parsed, log: seq<Command>)

  /** One iteration of parse_pvs on a line's fields: look up the mapper alias
      of a device-mapper node, then read the three other fields (an
      IndexError when there are fewer). */
  function ParseLine(run: Shell, row: seq<string>, log: seq<Command>): LineScan {
    if row == [] then Stop(Malformed, log)
    else if DM_PREFIX <= row[0] then
      var c := MapperName(row[0]);
      match MapperDevice(run(log, c))
      case LookupFailed(st) => Stop(DmFailed(st), log + [c])
      case Found(path) =>
        if |row| < 4 then Stop(Malformed, log + [c]) else Entry(path, Record(row), log + [c])
    else if |row| < 4 then Stop(Malformed, log)
    else Entry(row[0], Record(row), log)
  }

  /** parse_pvs over the remaining `rows`, with `pvs` the inventory read so
      far and `log` the commands issued so far. */
  function ParseFrom(run: Shell, rows: seq<seq<string>>, pvs: map<string, PvRecord>, log: seq<Command>): Scan
    decreases |rows|
  {
    if rows == [] then Scan(Pvs(pvs), log)
    else
      match ParseLine(run, rows[0], log)
      case Stop(result, log') => Scan(result, log')
      case Entry(device, record, log') => ParseFrom(run, rows[1..], pvs[device := record], log')
  }

  /** One step of ParseFrom, for the loop of ParsePvs. */
  lemma ParseFromStep(run: Shell, rows: seq<seq<string>>, pvs: map<string, PvRecord>, log: seq<Command>)
    requires rows != []
    ensures ParseFrom(run, rows, pvs, log) ==
      match ParseLine(run, rows[0], log)
      case Stop(result, log') => Scan(result, log')
      case Entry(device, record, log') => ParseFrom(run, rows[1..], pvs[device := record], log')
  {
  }

  /** The body of parse_pvs's loop: split the stripped line on ';',
      replace a device-mapper node in the first field by its mapper alias,
      and read the record from the other three fields. */
  method ReadLine(run: Shell, line: string, log: seq<Command>) returns (r: LineScan)
    ensures r == ParseLine(run, Split(Strip(line), ';'), log)
  {
    var parts := Split(Strip(line), ';');
    var log' := log;
    if DM_PREFIX <= parts[0] {
      var lookup;
      lookup, log' := FindMapperDeviceName(run, log, parts[0]);
      match lookup
      case LookupFailed(st) =>
        return Stop(DmFailed(st), log');
      case Found(path) =>
        parts := parts[0 := path];
    }
    if |parts| < 4 {
      return Stop(Malformed, log');
    }
    r := Entry(parts[0], PvRecord(parts[1], parts[2], parts[3]), log');
  }

  /** parse_pvs: reads the listing line by line into a map from device path
      to record. */
  method ParsePvs(run: Shell, data: string, log0: seq<Command>) returns (result: Parsed, log: seq<Command>)
    ensures Scan(result, log) == ParseFrom(run, Rows(SplitLines(data)), map[], log0)
  {
    var lines := SplitLines(data);
    ghost var rows := Rows(lines);
    ghost var target := ParseFrom(run, rows, map[], log0);
    var pvs: map<string, PvRecord> := map[];
    log := log0;
    var i := 0;
    while i < |lines|
      invariant 0 <= i <= |lines|
      invariant ParseFrom(run, rows[i..], pvs, log) == target
    {
      RowsAt(lines, i);
      ParseFromStep(run, rows[i..], pvs, log);
      assert rows[i..][1..] == rows[i + 1..];
      var step := ReadLine(run, lines[i], log);
      match step
      case Stop(r, log') =>
        return r, log';
      case Entry(device, record, log') =>
        pvs := pvs[device := record];
        log := log';
        i := i + 1;
    }
    result := Pvs(pvs);
  }

  /** The lookup a row issues: one for a device-mapper node, none
      otherwise. */
  function RowLookups(row: seq<string>): seq<Command> {
    if DM_PREFIX <= Device(row) then [MapperName(Device(row))] else []
  }

  /** A row issues exactly the lookup of the device-mapper node it names, if
      any. It is read exactly when it has four fields and, for a node, the
      lookup succeeds; its key is then the device it names or, for a node,
      the mapper alias the lookup gave, and its record is its last three
      fields verbatim. Otherwise a failed lookup ends parsing with the
      lookup's status and a short row with an IndexError. */
  lemma LineFacts(run: Shell, row: seq<string>, log: seq<Command>)
    ensures var r := ParseLine(run, row, log);
      var dm := DM_PREFIX <= Device(row);
      var lookup := MapperDevice(run(log, MapperName(Device(row))));
      && r.log == log + RowLookups(row)
      && (r.Entry? <==> |row| >= 4 && (dm ==> lookup.Found?))
      && (r.Entry? ==> r.record == Record(row))
      && (r.Entry? ==> r.device == if dm then lookup.path else Device(row))
      && (r.Entry? && dm ==> MAPPER_PREFIX <= r.device)
      && (r.Stop? ==> r.result == if dm && lookup.LookupFailed? then DmFailed(lookup.status) else Malformed)
  {
    if row == [] {
      assert log + [] == log;
    } else if !(DM_PREFIX <= row[0]) {
      assert log + [] == log;
    }
  }

  /** `log'` is `log` followed by at most `n` dmsetup lookups. */
  predicate ExtendedByLookups(log: seq<Command>, log': seq<Command>, n: nat) {
    |log| <= |log'| <= |log| + n && log'[..|log|] == log &&
    forall j :: |log| <= j < |log'| ==> log'[j].MapperName?
  }

  /** Extensions by lookups compose. */
  lemma LookupsCompose(a: seq<Command>, b: seq<Command>, c: seq<Command>, m: nat, n: nat)
    requires ExtendedByLookups(a, b, m) && ExtendedByLookups(b, c, n)
    ensures ExtendedByLookups(a, c, m + n)
  {
    assert c[..|a|] == c[..|b|][..|a|];
    forall j | |a| <= j < |c| ensures c[j].MapperName? {
      if j < |b| {
        assert c[j] == c[..|b|][j];
      }
    }
  }

  /** Parsing issues nothing but dmsetup lookups, at most one per line, and
      keeps the commands issued before it: what it adds is the lookups of
      the lines it read, in order, each line's own lookup or none. */
  lemma {:induction false} ParseOnlyLooksUp(run: Shell, rows: seq<seq<string>>, pvs: map<string, PvRecord>, log: seq<Command>)
    ensures ExtendedByLookups(log, ParseFrom(run, rows, pvs, log).log, |rows|)
    ensures ParseFrom(run, rows, pvs, log).log[|log|..] <= Lookups(rows)
  {
    if rows == [] {
      assert ParseFrom(run, rows, pvs, log).log[|log|..] == [];
    } else {
      var r := ParseLine(run, rows[0], log);
      var own := RowLookups(rows[0]);
      assert ExtendedByLookups(log, r.log, 1) && r.log == log + own by {
        LineFacts(run, rows[0], log);
      }
      assert Lookups(rows) == own + Lookups(rows[1..]);
      if r.Entry? {
        var s := ParseFrom(run, rows[1..], pvs[r.device := r.record], r.log);
        ParseOnlyLooksUp(run, rows[1..], pvs[r.device := r.record], r.log);
        LookupsCompose(log, r.log, s.log, 1, |rows| - 1);
        TailAfter(log, own, s.log);
      } else {
        assert r.log[|log|..] == own;
      }
    }
  }

  /** A log that extends `log + own` adds `own` and then its own tail. */
  lemma TailAfter(log: seq<Command>, own: seq<Command>, t: seq<Command>)
    requires |log + own| <= |t| && t[..|log + own|] == log + own
    ensures t[|log|..] == own + t[|log + own|..]
  {
    assert t == (log + own) + t[|log + own|..];
  }

  /** Some row names device `k`. */
  predicate Named(rows: seq<seq<string>>, k: string) {
    exists i :: 0 <= i < |rows| && Device(rows[i]) == k
  }

  /** Every key of the inventory was already there, is a mapper alias, or is
      the device of a row that is not a device-mapper node. */
  lemma {:induction false} ParseKeys(run: Shell, rows: seq<seq<string>>, pvs: map<string, PvRecord>, log: seq<Command>)
    ensures var s := ParseFrom(run, rows, pvs, log);
      s.result.Pvs? ==>
        forall k :: k in s.result.pvs ==> k in pvs || MAPPER_PREFIX <= k || (!(DM_PREFIX <= k) && Named(rows, k))
  {
    if rows != [] {
      LineFacts(run, rows[0], log);
      match ParseLine(run, rows[0], log)
      case Stop(_, _) =>
      case Entry(d, rec, log') =>
        var s := ParseFrom(run, rows, pvs, log);
        ParseKeys(run, rows[1..], pvs[d := rec], log');
        if s.result.Pvs? {
          forall k | k in s.result.pvs
            ensures k in pvs || MAPPER_PREFIX <= k || (!(DM_PREFIX <= k) && Named(rows, k))
          {
            if k == d && !(MAPPER_PREFIX <= k) {
              assert Device(rows[0]) == k;
            } else if Named(rows[1..], k) {
              var i :| 0 <= i < |rows[1..]| && Device(rows[1..][i]) == k;
              assert Device(rows[i + 1]) == k;
            }
          }
        }
    }
  }

  /** No key of a parsed inventory is a device-mapper node path. */
  lemma NoDmKeys(run: Shell, data: string, log: seq<Command>)
    ensures var s := ParseFrom(run, Rows(SplitLines(data)), map[], log);
      s.result.Pvs? ==> forall k :: k in s.result.pvs ==> !(DM_PREFIX <= k)
  {
    var rows := Rows(SplitLines(data));
    var s := ParseFrom(run, rows, map[], log);
    ParseKeys(run, rows, map[], log);
    if s.result.Pvs? {
      forall k | k in s.result.pvs ensures !(DM_PREFIX <= k) {
        if MAPPER_PREFIX <= k {
          MapperIsNotDm(k);
        }
      }
    }
  }

  /** The lookups of every device-mapper row, in order. */
  function Lookups(rows: seq<seq<string>>): seq<Command> {
    if rows == [] then [] else RowLookups(rows[0]) + Lookups(rows[1..])
  }

  /** Row i as parsing reads it: after the lookups of the rows before it. */
  function LineAt(run: Shell, rows: seq<seq<string>>, log: seq<Command>, i: nat): LineScan
    requires i < |rows|
  {
    if i == 0 then ParseLine(run, rows[0], log) else LineAt(run, rows[1..], log + RowLookups(rows[0]), i - 1)
  }

  /** Row i is read with the log extended by the lookups of rows 0 to
      i - 1. */
  lemma {:induction false} LineAtLog(run: Shell, rows: seq<seq<string>>, log: seq<Command>, i: nat)
    requires i < |rows|
    ensures LineAt(run, rows, log, i) == ParseLine(run, rows[i], log + Lookups(rows[..i]))
  {
    if i == 0 {
      assert rows[..0] == [] && log + [] == log;
    } else {
      LineAtLog(run, rows[1..], log + RowLookups(rows[0]), i - 1);
      var pre := rows[..i];
      assert pre[0] == rows[0] && pre[1..] == rows[1..][..i - 1];
      assert Lookups(pre) == RowLookups(rows[0]) + Lookups(rows[1..][..i - 1]);
      assert log + Lookups(pre) == (log + RowLookups(rows[0])) + Lookups(rows[1..][..i - 1]);
      assert rows[i] == rows[1..][i - 1];
    }
  }

  function KeyOf(r: LineScan): string {
    if r.Entry? then r.device else ""
  }

  function RecordOf(r: LineScan): PvRecord {
    if r.Entry? then r.record else PvRecord("", "", "")
  }

  /** The key every row gives the inventory, each row read after the
      lookups of the rows before it. */
  function Keys(run: Shell, rows: seq<seq<string>>, log: seq<Command>): (keys: seq<string>)
    ensures |keys| == |rows|
  {
    if rows == [] then []
    else [KeyOf(ParseLine(run, rows[0], log))] + Keys(run, rows[1..], log + RowLookups(rows[0]))
  }

  /** The record every row gives the inventory, read as Keys reads it. */
  function Records(run: Shell, rows: seq<seq<string>>, log: seq<Command>): (recs: seq<PvRecord>)
    ensures |recs| == |rows|
  {
    if rows == [] then []
    else [RecordOf(ParseLine(run, rows[0], log))] + Records(run, rows[1..], log + RowLookups(rows[0]))
  }

  /** `m` is `pvs` assigned `keys[i] := recs[i]` in order: its keys are
      those of `pvs` and `keys`, the last assignment to a key wins, and the
      other entries of `pvs` are kept. */
  ghost predicate UpdatedBy(pvs: map<string, PvRecord>, keys: seq<string>, recs: seq<PvRecord>, m: map<string, PvRecord>)
    requires |keys| == |recs|
  {
    && (forall k :: k in m <==> (k in pvs || k in keys))
    && (forall i :: 0 <= i < |keys| && (forall j :: i < j < |keys| ==> keys[j] != keys[i]) ==>
          keys[i] in m && m[keys[i]] == recs[i])
    && (forall k :: k in pvs && k !in keys ==> k in m && m[k] == pvs[k])
  }

  /** UpdatedBy after a first assignment. */
  lemma UpdatedStep(pvs: map<string, PvRecord>, keys: seq<string>, recs: seq<PvRecord>, m: map<string, PvRecord>)
    requires |keys| == |recs| >= 1
    requires UpdatedBy(pvs[keys[0] := recs[0]], keys[1..], recs[1..], m)
    ensures UpdatedBy(pvs, keys, recs, m)
  {
    UpdatedKeys(pvs, keys, recs, m);
    UpdatedLast(pvs, keys, recs, m);
    UpdatedKept(pvs, keys, recs, m);
  }

  /** UpdatedStep for the key set. */
  lemma UpdatedKeys(pvs: map<string, PvRecord>, keys: seq<string>, recs: seq<PvRecord>, m: map<string, PvRecord>)
    requires |keys| == |recs| >= 1
    requires forall k :: k in m <==> (k in pvs[keys[0] := recs[0]] || k in keys[1..])
    ensures forall k :: k in m <==> (k in pvs || k in keys)
  {
    assert keys == [keys[0]] + keys[1..];
  }

  /** UpdatedStep for the entries no assignment touches. */
  lemma UpdatedKept(pvs: map<string, PvRecord>, keys: seq<string>, recs: seq<PvRecord>, m: map<string, PvRecord>)
    requires |keys| == |recs| >= 1
    requires forall k :: k in pvs[keys[0] := recs[0]] && k !in keys[1..] ==> k in m && m[k] == pvs[keys[0] := recs[0]][k]
    ensures forall k :: k in pvs && k !in keys ==> k in m && m[k] == pvs[k]
  {
    forall k | k in pvs && k !in keys ensures k in m && m[k] == pvs[k] {
      assert k != keys[0];
      forall j | 0 <= j < |keys[1..]| ensures keys[1..][j] != k {
        assert keys[1..][j] == keys[j + 1];
      }
    }
  }

  /** UpdatedStep for the last-assignment-wins rule. */
  lemma UpdatedLast(pvs: map<string, PvRecord>, keys: seq<string>, recs: seq<PvRecord>, m: map<string, PvRecord>)
    requires |keys| == |recs| >= 1
    requires UpdatedBy(pvs[keys[0] := recs[0]], keys[1..], recs[1..], m)
    ensures forall i :: 0 <= i < |keys| && (forall j :: i < j < |keys| ==> keys[j] != keys[i]) ==>
      keys[i] in m && m[keys[i]] == recs[i]
  {
    var ks, rs := keys[1..], recs[1..];
    forall i | 0 <= i < |keys| && (forall j :: i < j < |keys| ==> keys[j] != keys[i])
      ensures keys[i] in m && m[keys[i]] == recs[i]
    {
      if i == 0 {
        forall j | 0 <= j < |ks| ensures ks[j] != keys[0] {
          assert ks[j] == keys[j + 1];
        }
      } else {
        assert ks[i - 1] == keys[i] && rs[i - 1] == recs[i];
        forall j | i - 1 < j < |ks| ensures ks[j] != ks[i - 1] {
          assert ks[j] == keys[j + 1];
        }
      }
    }
  }

  /** What parse_pvs promises of the scan `s` of a listing: it succeeds
      exactly when every row, read after the lookups of the rows before it,
      gives an entry. Then it has issued one lookup per device-mapper row,
      and the inventory is the earlier one assigned every row's key and
      record in order, the last row for a key winning. Otherwise it ends as
      the first row that does not give an entry ends. */
  ghost predicate ParsedAs(run: Shell, rows: seq<seq<string>>, pvs: map<string, PvRecord>, log: seq<Command>, s: Scan) {
    && (s.result.Pvs? <==> forall i :: 0 <= i < |rows| ==> LineAt(run, rows, log, i).Entry?)
    && (s.result.Pvs? ==>
          s.log == log + Lookups(rows) && UpdatedBy(pvs, Keys(run, rows, log), Records(run, rows, log), s.result.pvs))
    && (!s.result.Pvs? ==>
          exists i :: 0 <= i < |rows| && (forall j :: 0 <= j < i ==> LineAt(run, rows, log, j).Entry?) &&
            LineAt(run, rows, log, i) == Stop(s.result, s.log))
  }

  /** parse_pvs over any listing does what ParsedAs says. */
  lemma {:induction false} ParseAll(run: Shell, rows: seq<seq<string>>, pvs: map<string, PvRecord>, log: seq<Command>)
    ensures ParsedAs(run, rows, pvs, log, ParseFrom(run, rows, pvs, log))
    decreases |rows|, 1
  {
    if rows == [] {
      assert log + [] == log;
    } else if ParseLine(run, rows[0], log).Stop? {
      ParseStops(run, rows, pvs, log);
    } else {
      ParseAllStep(run, rows, pvs, log);
    }
  }

  /** ParsedAs when the first row ends parsing. */
  lemma ParseStops(run: Shell, rows: seq<seq<string>>, pvs: map<string, PvRecord>, log: seq<Command>)
    requires rows != [] && ParseLine(run, rows[0], log).Stop?
    ensures ParsedAs(run, rows, pvs, log, ParseFrom(run, rows, pvs, log))
  {
    var r := ParseLine(run, rows[0], log);
    LineFacts(run, rows[0], log);
    assert ParseFrom(run, rows, pvs, log) == Scan(r.result, r.log);
    assert LineAt(run, rows, log, 0) == r;
  }

  /** ParsedAs when the first row gives an entry. */
  lemma ParseAllStep(run: Shell, rows: seq<seq<string>>, pvs: map<string, PvRecord>, log: seq<Command>)
    requires rows != [] && ParseLine(run, rows[0], log).Entry?
    ensures ParsedAs(run, rows, pvs, log, ParseFrom(run, rows, pvs, log))
    decreases |rows|, 0
  {
    var r := ParseLine(run, rows[0], log);
    var tail, pvs' := rows[1..], pvs[r.device := r.record];
    LineFacts(run, rows[0], log);
    var log' := log + RowLookups(rows[0]);
    var s := ParseFrom(run, tail, pvs', log');
    assert ParseFrom(run, rows, pvs, log) == s;
    ParseAll(run, tail, pvs', log');
    if s.result.Pvs? {
      EntriesFromTail(run, rows, log);
      PvsShift(run, rows, pvs, log, s.result.pvs);
      LogShift(rows, log, s.log);
    } else {
      var i :| 0 <= i < |tail| && (forall j :: 0 <= j < i ==> LineAt(run, tail, log', j).Entry?) &&
        LineAt(run, tail, log', i) == Stop(s.result, s.log);
      StopShift(run, rows, log, i);
    }
  }

  /** When the first row and every row of the tail give an entry, every
      row does. */
  lemma EntriesFromTail(run: Shell, rows: seq<seq<string>>, log: seq<Command>)
    requires rows != [] && LineAt(run, rows, log, 0).Entry?
    requires forall i :: 0 <= i < |rows| - 1 ==> LineAt(run, rows[1..], log + RowLookups(rows[0]), i).Entry?
    ensures forall i :: 0 <= i < |rows| ==> LineAt(run, rows, log, i).Entry?
  {
    forall i | 0 < i < |rows| ensures LineAt(run, rows, log, i).Entry? {
      assert LineAt(run, rows, log, i) == LineAt(run, rows[1..], log + RowLookups(rows[0]), i - 1);
    }
  }

  /** The inventory part of ParsedAs, carried from the tail to the whole
      listing when the first row gives an entry. */
  lemma PvsShift(run: Shell, rows: seq<seq<string>>, pvs: map<string, PvRecord>, log: seq<Command>, m: map<string, PvRecord>)
    requires rows != []
    requires var log' := log + RowLookups(rows[0]);
      UpdatedBy(pvs[Keys(run, rows, log)[0] := Records(run, rows, log)[0]], Keys(run, rows[1..], log'), Records(run, rows[1..], log'), m)
    ensures UpdatedBy(pvs, Keys(run, rows, log), Records(run, rows, log), m)
  {
    UpdatedStep(pvs, Keys(run, rows, log), Records(run, rows, log), m);
  }

  /** The lookups of a listing are those of its first row followed by
      those of its tail. */
  lemma LogShift(rows: seq<seq<string>>, log: seq<Command>, log': seq<Command>)
    requires rows != [] && log' == log + RowLookups(rows[0]) + Lookups(rows[1..])
    ensures log' == log + Lookups(rows)
  {
  }

  /** The first stopping row of the tail, when the first row gives an entry,
      is the first stopping row of the listing. */
  lemma StopShift(run: Shell, rows: seq<seq<string>>, log: seq<Command>, i: nat)
    requires i < |rows| - 1 && LineAt(run, rows, log, 0).Entry?
    requires forall j :: 0 <= j < i ==> LineAt(run, rows[1..], log + RowLookups(rows[0]), j).Entry?
    ensures forall j :: 0 <= j < i + 1 ==> LineAt(run, rows, log, j).Entry?
    ensures LineAt(run, rows, log, i + 1) == LineAt(run, rows[1..], log + RowLookups(rows[0]), i)
  {
    forall j | 0 < j < i + 1 ensures LineAt(run, rows, log, j).Entry? {
      assert LineAt(run, rows, log, j) == LineAt(run, rows[1..], log + RowLookups(rows[0]), j - 1);
    }
  }

  /** A dmsetup failure during parsing is the reply to the last command
      issued, a lookup of a device-mapper node, and it exited non-zero. */
  lemma {:induction false} ParseFailureCause(run: Shell, rows: seq<seq<string>>, pvs: map<string, PvRecord>, log: seq<Command>)
    ensures var s := ParseFrom(run, rows, pvs, log);
      s.result.DmFailed? ==>
        && |s.log| > |log|
        && var last := s.log[|s.log| - 1];
           && last.MapperName? && DM_PREFIX <= last.device
           && var reply := run(s.log[..|s.log| - 1], last);
              reply.rc != 0 && s.result.status == Status(reply.rc, reply.err)
  {
    if rows != [] {
      LineFacts(run, rows[0], log);
      match ParseLine(run, rows[0], log)
      case Stop(r, log') =>
        if r.DmFailed? {
          assert log'[..|log|] == log;
        }
      case Entry(d, rec, log') =>
        ParseFailureCause(run, rows[1..], pvs[d := rec], log');
    }
  }
}
