/**
 * The `ps` listing parser of the Solaris operating-system layer: the output of
 * `ps -o s,pid,ppid,user,uid,group,gid,nlwp,pri,vsz,rss,etime,time,comm,args`
 * becomes one process record per well-formed row.
 */
module ProcessList {
  import opened Options
  import opened Text
  import opened Numbers

  /** The number of columns the `ps` commands ask for. */
  const FIELD_COUNT: nat := 15

  /** Lists every process. */
  const ALL_PROCESSES_COMMAND: string :=
    "ps -eo s,pid,ppid,user,uid,group,gid,nlwp,pri,vsz,rss,etime,time,comm,args"

  /** Lists the processes whose pids follow, one pid or a comma-separated list. */
  const PID_LIST_COMMAND: string :=
    "ps -o s,pid,ppid,user,uid,group,gid,nlwp,pri,vsz,rss,etime,time,comm,args -p "

  /**
   * One process as the listing reports it: the pid the record carries and the raw
   * columns s, pid, ppid, user, uid, group, gid, nlwp, pri, vsz, rss, etime, time,
   * comm and args, in that order.
   */
  datatype ProcessRecord = ProcessRecord(pid: Int32, fields: seq<string>)
  {
    predicate Valid() {
      |fields| == FIELD_COUNT
    }

    /** The full command line: the last column, with its inner spaces. */
    function Args(): string
      requires Valid()
    {
      fields[FIELD_COUNT - 1]
    }
  }

  /** The columns of one data row: the first line split on `\s+` with limit 15, after trimming. */
  function Columns(line: string): (fields: seq<string>)
    ensures 1 <= |fields| <= FIELD_COUNT
  {
    SplitLimit(Trim(line), FIELD_COUNT)
  }

  /**
   * The record a data row yields, if any: rows that do not split into exactly 15
   * columns are skipped. A non-negative `pid` is the pid the caller asked for and
   * every record carries it; a negative one means the pid is read from the second
   * column, 0 when that does not parse.
   */
  function ParseRow(line: string, pid: Int32): (r: Option<ProcessRecord>)
    ensures r.Some? <==> |Columns(line)| == FIELD_COUNT
    ensures r.Some? ==> r.value.Valid() && r.value.fields == Columns(line)
    ensures r.Some? && pid >= 0 ==> r.value.pid == pid
    ensures r.Some? && pid < 0 ==> r.value.pid == ParseIntOrDefault(r.value.fields[1], 0)
  {
    var fields := Columns(line);
    if |fields| == FIELD_COUNT then
      Some(ProcessRecord(if pid < 0 then ParseIntOrDefault(fields[1], 0) else pid, fields))
    else
      None
  }

  /** The records of the data rows, in row order. */
  function ParseRows(lines: seq<string>, pid: Int32): (r: seq<ProcessRecord>)
    ensures |r| <= |lines|
    ensures forall k :: 0 <= k < |r| ==> r[k].Valid()
    ensures pid >= 0 ==> forall k :: 0 <= k < |r| ==> r[k].pid == pid
    ensures pid < 0 ==> forall k :: 0 <= k < |r| ==> r[k].Valid() && r[k].pid == ParseIntOrDefault(r[k].fields[1], 0)
    decreases |lines|
  {
    if |lines| == 0 then []
    else
      var rest := ParseRows(lines[1..], pid);
      match ParseRow(lines[0], pid)
      case Some(p) => [p] + rest
      case None => rest
  }

  /**
   * `getProcessListFromPS` once the command has run: fewer than two lines (no data
   * under the header) give no record; otherwise the header is dropped and every
   * other line yields at most one record, whose pid is the requested one or, for a
   * negative request, its own pid column read with default 0.
   */
  function ParseProcessList(lines: seq<string>, pid: Int32): (r: seq<ProcessRecord>)
    ensures |lines| < 2 ==> r == []
    ensures |lines| >= 1 ==> |r| <= |lines| - 1
    ensures forall k :: 0 <= k < |r| ==> r[k].Valid()
    ensures pid >= 0 ==> forall k :: 0 <= k < |r| ==> r[k].pid == pid
    ensures pid < 0 ==> forall k :: 0 <= k < |r| ==> r[k].Valid() && r[k].pid == ParseIntOrDefault(r[k].fields[1], 0)
  {
    if |lines| < 2 then [] else ParseRows(lines[1..], pid)
  }

  /** The command `getProcessListFromPS` runs: the pid is appended only when it is non-negative. */
  function PsCommand(psCommand: string, pid: Int32): (cmd: string)
    ensures psCommand <= cmd
    ensures pid < 0 ==> cmd == psCommand
    ensures pid >= 0 ==> ParseInt(cmd[|psCommand|..]) == Some(pid)
  {
    ParseIntToString(pid);
    assert (psCommand + IntToString(pid))[|psCommand|..] == IntToString(pid);
    psCommand + (if pid < 0 then "" else IntToString(pid))
  }

  /** `getProcessListFromPS(psCommand, pid)` with the command source `run`. */
  function ProcessListFromPs(run: string -> seq<string>, psCommand: string, pid: Int32): (r: seq<ProcessRecord>)
    ensures |run(PsCommand(psCommand, pid))| < 2 ==> r == []
    ensures |r| < |run(PsCommand(psCommand, pid))| || r == []
    ensures forall k :: 0 <= k < |r| ==> r[k].Valid()
    ensures pid >= 0 ==> forall k :: 0 <= k < |r| ==> r[k].pid == pid
    ensures pid < 0 ==> forall k :: 0 <= k < |r| ==> r[k].Valid() && r[k].pid == ParseIntOrDefault(r[k].fields[1], 0)
  {
    ParseProcessList(run(PsCommand(psCommand, pid)), pid)
  }

  /** `getProcess(pid)`: the first record the pid query yields, or `None` (Java's null). */
  function GetProcess(run: string -> seq<string>, pid: Int32): (r: Option<ProcessRecord>)
    ensures r.None? <==> ProcessListFromPs(run, PID_LIST_COMMAND, pid) == []
    ensures r.Some? ==> r.value.Valid()
    ensures r.Some? && pid >= 0 ==> r.value.pid == pid
  {
    var procs := ProcessListFromPs(run, PID_LIST_COMMAND, pid);
    if |procs| == 0 then None else Some(procs[0])
  }

  // ---------------------------------------------------------------------------
  // Properties

  /** Records keep the order of their rows: parsing distributes over concatenation. */
  lemma {:induction false} ParseRowsAppend(a: seq<string>, b: seq<string>, pid: Int32)
    ensures ParseRows(a + b, pid) == ParseRows(a, pid) + ParseRows(b, pid)
    decreases |a|
  {
    if |a| > 0 {
      assert (a + b)[1..] == a[1..] + b;
      ParseRowsAppend(a[1..], b, pid);
    } else {
      assert a + b == b;
    }
  }

  /** One row yields its record alone, or nothing. */
  lemma ParseRowsSingle(line: string, pid: Int32)
    ensures ParseRows([line], pid) == (match ParseRow(line, pid) case Some(p) => [p] case None => [])
  {
  }

  /** The header line is never turned into a record: whatever it says, the result is the same. */
  lemma HeaderIgnored(h1: string, h2: string, rows: seq<string>, pid: Int32)
    ensures ParseProcessList([h1] + rows, pid) == ParseProcessList([h2] + rows, pid)
  {
    assert ([h1] + rows)[1..] == rows;
    assert ([h2] + rows)[1..] == rows;
  }

  /**
   * The columns of a row `ps` would print: fourteen plain columns and a non-empty
   * `args` that starts and ends above U+0020 and may contain spaces inside.
   */
  predicate IsRowColumns(fields: seq<string>) {
    && |fields| == FIELD_COUNT
    && (forall j :: 0 <= j < FIELD_COUNT - 1 ==> IsPlain(fields[j]))
    && |fields[FIELD_COUNT - 1]| > 0
    && IsTrimmed(fields[FIELD_COUNT - 1])
  }

  /** A line made of well-formed columns is already trimmed, however wide its gaps. */
  lemma RowIsTrimmed(fields: seq<string>, seps: seq<string>)
    requires 1 <= |fields| && |seps| == |fields| - 1
    requires |fields[0]| > 0 && fields[0][0] > ' '
    requires var last := fields[|fields| - 1]; |last| > 0 && last[|last| - 1] > ' '
    ensures IsTrimmed(Interleave(fields, seps))
  {
    InterleaveStartsWithFirst(fields, seps);
    InterleaveEndsWithLast(fields, seps);
    var s := Interleave(fields, seps);
    assert s[0] == fields[0][0];
    var last := fields[|fields| - 1];
    assert s[|s| - 1] == s[|s| - |last|..][|last| - 1];
  }

  /**
   * A well-formed row, after any indent and with its columns separated by any runs
   * of whitespace as `ps` pads them, comes back as exactly its columns, `args`
   * unsplit, with the requested pid or, for a negative one, the pid column read back.
   */
  lemma ParseRowOfColumns(indent: string, fields: seq<string>, seps: seq<string>, pid: Int32)
    requires forall k :: 0 <= k < |indent| ==> indent[k] <= ' '
    requires IsRowColumns(fields) && |seps| == FIELD_COUNT - 1 && AllSpaceRuns(seps)
    ensures ParseRow(indent + Interleave(fields, seps), pid)
         == Some(ProcessRecord(if pid < 0 then ParseIntOrDefault(fields[1], 0) else pid, fields))
  {
    var line := Interleave(fields, seps);
    RowIsTrimmed(fields, seps);
    InterleaveStartsWithFirst(fields, seps);
    TrimAfterIndent(indent, line);
    forall j | 0 <= j < FIELD_COUNT - 1
      ensures IsToken(fields[j])
    {
      PlainIsToken(fields[j]);
    }
    assert IsSplitLimitFields(fields, FIELD_COUNT);
    SplitLimitInterleave(fields, seps, FIELD_COUNT);
  }

  /**
   * A line with fewer than 15 plain columns is skipped, whatever its indent: the
   * split finds fewer than 15 fields.
   */
  lemma ShortRowSkipped(indent: string, fields: seq<string>, seps: seq<string>, pid: Int32)
    requires forall k :: 0 <= k < |indent| ==> indent[k] <= ' '
    requires 1 <= |fields| < FIELD_COUNT && |seps| == |fields| - 1 && AllSpaceRuns(seps)
    requires forall j :: 0 <= j < |fields| ==> IsPlain(fields[j])
    ensures ParseRow(indent + Interleave(fields, seps), pid) == None
  {
    var line := Interleave(fields, seps);
    RowIsTrimmed(fields, seps);
    InterleaveStartsWithFirst(fields, seps);
    TrimAfterIndent(indent, line);
    forall j | 0 <= j < |fields|
      ensures IsToken(fields[j])
    {
      PlainIsToken(fields[j]);
    }
    assert IsSplitLimitFields(fields, FIELD_COUNT);
    SplitLimitInterleave(fields, seps, FIELD_COUNT);
  }

  /** Rows that each yield nothing give no record, and rows that give no record each yield nothing. */
  lemma {:induction false} ParseRowsEmpty(lines: seq<string>, pid: Int32)
    ensures ParseRows(lines, pid) == [] <==> forall j :: 0 <= j < |lines| ==> ParseRow(lines[j], pid).None?
    decreases |lines|
  {
    if |lines| > 0 {
      ParseRowsEmpty(lines[1..], pid);
      assert forall j :: 1 <= j < |lines| ==> lines[j] == lines[1..][j - 1];
    }
  }

  /**
   * `getProcess` on a pid `ps` reports: the record is the first row that parses,
   * whatever the header, the rows before it that are skipped and the rows after
   * it; it carries the requested pid and the row's columns, its command line whole.
   */
  lemma GetProcessFindsRow(run: string -> seq<string>, pid: Int32, header: string, skipped: seq<string>,
                            indent: string, fields: seq<string>, seps: seq<string>, more: seq<string>)
    requires pid >= 0 && IsRowColumns(fields) && |seps| == FIELD_COUNT - 1 && AllSpaceRuns(seps)
    requires forall k :: 0 <= k < |indent| ==> indent[k] <= ' '
    requires forall j :: 0 <= j < |skipped| ==> ParseRow(skipped[j], pid).None?
    requires run(PsCommand(PID_LIST_COMMAND, pid)) == [header] + skipped + [indent + Interleave(fields, seps)] + more
    ensures GetProcess(run, pid) == Some(ProcessRecord(pid, fields))
    ensures GetProcess(run, pid).value.Args() == fields[FIELD_COUNT - 1]
  {
    ParseRowOfColumns(indent, fields, seps, pid);
    FirstRowFirst(run(PsCommand(PID_LIST_COMMAND, pid)), header, skipped, indent + Interleave(fields, seps), more, pid);
  }

  /** The first row below the header that parses gives the first record of the listing. */
  lemma FirstRowFirst(lines: seq<string>, header: string, skipped: seq<string>, row: string, more: seq<string>, pid: Int32)
    requires lines == [header] + skipped + [row] + more && ParseRow(row, pid).Some?
    requires forall j :: 0 <= j < |skipped| ==> ParseRow(skipped[j], pid).None?
    ensures |ParseProcessList(lines, pid)| > 0 && ParseProcessList(lines, pid)[0] == ParseRow(row, pid).value
  {
    var rows := skipped + ([row] + more);
    assert lines == [header] + rows && |lines| >= 2;
    assert lines[1..] == rows;
    ParseRowsAfterSkipped(skipped, row, more, pid);
  }

  /** Rows that yield nothing, then a row that parses: its record comes first. */
  lemma ParseRowsAfterSkipped(skipped: seq<string>, row: string, more: seq<string>, pid: Int32)
    requires ParseRow(row, pid).Some?
    requires forall j :: 0 <= j < |skipped| ==> ParseRow(skipped[j], pid).None?
    ensures ParseRows(skipped + ([row] + more), pid) == [ParseRow(row, pid).value] + ParseRows(more, pid)
  {
    ParseRowsAppend(skipped, [row] + more, pid);
    ParseRowsEmpty(skipped, pid);
    assert ([row] + more)[1..] == more;
  }
}
