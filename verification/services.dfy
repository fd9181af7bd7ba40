/**
 * The service inventory of the Solaris operating-system layer: each line of
 * `svcs -p` is classified by its prefix into at most one service record, using the
 * names of the legacy init scripts for `legacy_run` lines.
 */
module Services {
  import opened Options
  import opened Text
  import opened Numbers

  datatype State = Running | Stopped

  datatype Service = Service(name: string, pid: Int32, state: State)

  /** The command whose output is classified. */
  const SERVICES_COMMAND: string := "svcs -p"

  /** The directory whose file names are the legacy service names. */
  const LEGACY_DIRECTORY: string := "/etc/init.d"

  const ONLINE_PREFIX: string := "online"
  const PROCESS_PREFIX: string := " "
  const LEGACY_PREFIX: string := "legacy_run"

  /** What precedes the service path in an FMRI such as `svc:/system/svc/restarter:default`. */
  const FMRI_DELIMITER: string := ":/"

  /** The instance suffix dropped from online service names. */
  const DEFAULT_SUFFIX: string := ":default"

  // ---------------------------------------------------------------------------
  // online lines

  /** A name with one trailing `:default` removed, if it has one. */
  function StripDefault(name: string): (r: string)
    ensures EndsWith(name, DEFAULT_SUFFIX) ==> r + DEFAULT_SUFFIX == name
    ensures !EndsWith(name, DEFAULT_SUFFIX) ==> r == name
  {
    if EndsWith(name, DEFAULT_SUFFIX) then name[..|name| - |DEFAULT_SUFFIX|] else name
  }

  /**
   * An `online` line: a stopped record with pid 0 when `:/` occurs after the start
   * of the line, named by what follows the `:` of its last occurrence (so the name
   * keeps the leading `/`), one trailing `:default` removed.
   */
  function OnlineService(line: string): (r: Option<Service>)
    ensures r.Some? ==> r.value.pid == 0 && r.value.state == Stopped
    ensures r.Some? ==> |r.value.name| > 0 && r.value.name[0] == '/'
  {
    var delim := LastIndexOf(line, FMRI_DELIMITER);
    if delim > 0 then
      assert line[delim + 1] == '/' by {
        assert line[delim..delim + 2] == FMRI_DELIMITER;
      }
      Some(Service(StripDefault(line[delim + 1..]), 0, Stopped))
    else
      None
  }

  /** An online line yields a record exactly when `:/` occurs somewhere past its first character. */
  lemma OnlineServiceExists(line: string)
    ensures OnlineService(line).Some? <==> exists k :: 0 < k && OccursAt(line, FMRI_DELIMITER, k)
  {
    var delim := LastIndexOf(line, FMRI_DELIMITER);
    if delim > 0 {
      assert OccursAt(line, FMRI_DELIMITER, delim);
    }
  }

  /**
   * The name of an online record is the text after the `:` of the last `:/`, with a
   * trailing `:default` removed when there is one and kept whole otherwise; so it
   * holds no `:/` of its own.
   */
  lemma OnlineServiceName(line: string)
    requires OnlineService(line).Some?
    ensures var rest := line[LastIndexOf(line, FMRI_DELIMITER) + 1..];
      var name := OnlineService(line).value.name;
      && (EndsWith(rest, DEFAULT_SUFFIX) ==> rest == name + DEFAULT_SUFFIX)
      && (!EndsWith(rest, DEFAULT_SUFFIX) ==> rest == name)
      && forall k :: !OccursAt(name, FMRI_DELIMITER, k)
  {
    var delim := LastIndexOf(line, FMRI_DELIMITER);
    var rest := line[delim + 1..];
    var name := OnlineService(line).value.name;
    assert name == rest[..|name|];
    forall k | OccursAt(name, FMRI_DELIMITER, k)
      ensures OccursAt(rest, FMRI_DELIMITER, k)
    {
      assert rest[k..k + 2] == name[k..k + 2];
    }
    NoDelimiterAfterLast(line, delim, rest);
  }

  /** Past its last `:/`, a line holds no other `:/`. */
  lemma NoDelimiterAfterLast(line: string, delim: int, rest: string)
    requires delim == LastIndexOf(line, FMRI_DELIMITER) && delim >= 0
    requires rest == line[delim + 1..]
    ensures forall k :: !OccursAt(rest, FMRI_DELIMITER, k)
  {
    forall k | OccursAt(rest, FMRI_DELIMITER, k)
      ensures OccursAt(line, FMRI_DELIMITER, delim + 1 + k)
    {
      assert line[delim + 1 + k..delim + 1 + k + 2] == rest[k..k + 2];
    }
  }

  // ---------------------------------------------------------------------------
  // process lines

  /**
   * A line starting with a space: a running record when its trimmed text splits
   * into exactly three fields, named by the third, with the second as pid (0 when
   * it does not parse).
   */
  function ProcessService(line: string): (r: Option<Service>)
    ensures r.Some? <==> |Split(Trim(line))| == 3
    ensures r.Some? ==> r.value.state == Running
    ensures r.Some? ==> r.value.name == Split(Trim(line))[2]
    ensures r.Some? ==> r.value.pid == ParseIntOrDefault(Split(Trim(line))[1], 0)
  {
    var fields := Split(Trim(line));
    if |fields| == 3 then Some(Service(fields[2], ParseIntOrDefault(fields[1], 0), Running)) else None
  }

  // ---------------------------------------------------------------------------
  // legacy lines

  /** The index of the first legacy name at or after `i` that `line` ends with, or -1. */
  function FirstSuffixFrom(line: string, legacy: seq<string>, i: nat): (r: int)
    requires i <= |legacy|
    ensures r == -1 || (i <= r < |legacy| && EndsWith(line, legacy[r]))
    ensures forall j :: i <= j < |legacy| && (r == -1 || j < r) ==> !EndsWith(line, legacy[j])
    decreases |legacy| - i
  {
    if i == |legacy| then -1
    else if EndsWith(line, legacy[i]) then i
    else FirstSuffixFrom(line, legacy, i + 1)
  }

  /** A `legacy_run` line: a stopped record with pid 0 named by the first legacy name the line ends with. */
  function LegacyService(line: string, legacy: seq<string>): (r: Option<Service>)
    ensures r.Some? <==> exists j :: 0 <= j < |legacy| && EndsWith(line, legacy[j])
    ensures r.Some? ==> r.value.pid == 0 && r.value.state == Stopped
    ensures r.Some? ==> exists j :: 0 <= j < |legacy| && legacy[j] == r.value.name && EndsWith(line, r.value.name)
                                  && forall k :: 0 <= k < j ==> !EndsWith(line, legacy[k])
  {
    var j := FirstSuffixFrom(line, legacy, 0);
    if j < 0 then None else Some(Service(legacy[j], 0, Stopped))
  }

  // ---------------------------------------------------------------------------
  // whole listing

  /** The record one `svcs -p` line yields, chosen by its prefix; other lines, such as the header, yield none. */
  function ClassifyLine(line: string, legacy: seq<string>): (r: Option<Service>)
    ensures StartsWith(line, ONLINE_PREFIX) ==> r == OnlineService(line)
    ensures !StartsWith(line, ONLINE_PREFIX) && StartsWith(line, PROCESS_PREFIX) ==> r == ProcessService(line)
    ensures (!StartsWith(line, ONLINE_PREFIX) && !StartsWith(line, PROCESS_PREFIX) && StartsWith(line, LEGACY_PREFIX))
              ==> r == LegacyService(line, legacy)
    ensures (!StartsWith(line, ONLINE_PREFIX) && !StartsWith(line, PROCESS_PREFIX) && !StartsWith(line, LEGACY_PREFIX))
              ==> r == None
  {
    if StartsWith(line, ONLINE_PREFIX) then OnlineService(line)
    else if StartsWith(line, PROCESS_PREFIX) then ProcessService(line)
    else if StartsWith(line, LEGACY_PREFIX) then LegacyService(line, legacy)
    else None
  }

  /** `getServices()` given the output of `svcs -p` and the legacy file names: the records of the lines, in line order. */
  function GetServices(lines: seq<string>, legacy: seq<string>): (r: seq<Service>)
    ensures |r| <= |lines|
    ensures forall k :: 0 <= k < |r| ==> r[k].state == Stopped ==> r[k].pid == 0
    decreases |lines|
  {
    if |lines| == 0 then []
    else
      var rest := GetServices(lines[1..], legacy);
      match ClassifyLine(lines[0], legacy)
      case Some(s) => [s] + rest
      case None => rest
  }

  /**
   * `getServices()` with its inputs as parameters: `run` gives the lines of
   * `svcs -p`, and `listDir` the file names of a directory in listing order (none
   * when the directory is missing or cannot be read).
   */
  function QueryServices(run: string -> seq<string>, listDir: string -> seq<string>): (r: seq<Service>)
    ensures |r| <= |run(SERVICES_COMMAND)|
    ensures forall k :: 0 <= k < |r| ==> r[k].state == Stopped ==> r[k].pid == 0
  {
    GetServices(run(SERVICES_COMMAND), listDir(LEGACY_DIRECTORY))
  }

  // ---------------------------------------------------------------------------
  // Properties

  /** Records keep the order of their lines: the listing distributes over concatenation. */
  lemma {:induction false} GetServicesAppend(a: seq<string>, b: seq<string>, legacy: seq<string>)
    ensures GetServices(a + b, legacy) == GetServices(a, legacy) + GetServices(b, legacy)
    decreases |a|
  {
    if |a| > 0 {
      assert (a + b)[1..] == a[1..] + b;
      GetServicesAppend(a[1..], b, legacy);
    } else {
      assert a + b == b;
    }
  }

  /** A line that yields no record adds nothing to the records of the lines after it. */
  lemma OtherLinesSkippedAt(line: string, rest: seq<string>, legacy: seq<string>)
    requires ClassifyLine(line, legacy) == None
    ensures GetServices([line] + rest, legacy) == GetServices(rest, legacy)
  {
    assert ([line] + rest)[1..] == rest;
  }

  /** A line that yields a record puts it in front of the records of the lines after it. */
  lemma GetServicesCons(line: string, rest: seq<string>, legacy: seq<string>, record: Service)
    requires ClassifyLine(line, legacy) == Some(record)
    ensures GetServices([line] + rest, legacy) == [record] + GetServices(rest, legacy)
  {
    assert ([line] + rest)[1..] == rest;
  }

  /** One line yields its record alone, or nothing. */
  lemma GetServicesSingle(line: string, legacy: seq<string>)
    ensures GetServices([line], legacy) == (match ClassifyLine(line, legacy) case Some(s) => [s] case None => [])
  {
  }

  /** A line with none of the three prefixes, such as the `STATE` header, contributes nothing. */
  lemma OtherLinesSkipped(line: string, rest: seq<string>, legacy: seq<string>)
    requires !StartsWith(line, ONLINE_PREFIX) && !StartsWith(line, PROCESS_PREFIX) && !StartsWith(line, LEGACY_PREFIX)
    ensures GetServices([line] + rest, legacy) == GetServices(rest, legacy)
  {
    assert ([line] + rest)[1..] == rest;
  }

  /** A `legacy_run` line is only ever named after one of the legacy file names. */
  lemma LegacyNamesOnly(line: string, legacy: seq<string>)
    requires StartsWith(line, LEGACY_PREFIX) && ClassifyLine(line, legacy).Some?
    ensures ClassifyLine(line, legacy).value.name in legacy
    ensures ClassifyLine(line, legacy).value.state == Stopped
  {
    assert line[0] == 'l';
  }

  /** A running record only ever comes from a line starting with a space. */
  lemma RunningOnlyFromProcessLines(line: string, legacy: seq<string>)
    requires ClassifyLine(line, legacy).Some? && ClassifyLine(line, legacy).value.state == Running
    ensures StartsWith(line, PROCESS_PREFIX) && !StartsWith(line, ONLINE_PREFIX)
  {
  }

  /**
   * A process line, three plain fields after its leading spaces with any runs of
   * whitespace between them, gives the running record named by the third, with the
   * second read as pid.
   */
  lemma ProcessLineOfFields(indent: string, time: string, gap1: string, pidText: string, gap2: string, name: string)
    requires forall k :: 0 <= k < |indent| ==> indent[k] == ' '
    requires IsPlain(time) && IsPlain(pidText) && IsPlain(name)
    requires IsSpaceRun(gap1) && IsSpaceRun(gap2)
    ensures ProcessService(indent + Interleave([time, pidText, name], [gap1, gap2]))
         == Some(Service(name, ParseIntOrDefault(pidText, 0), Running))
  {
    var body := Interleave([time, pidText, name], [gap1, gap2]);
    PlainColumnsSplit(time, gap1, pidText, gap2, name);
    TrimAfterIndent(indent, body);
  }

  /** Three plain columns with runs of spaces between them: trimmed already, and split back into the three. */
  lemma PlainColumnsSplit(time: string, gap1: string, pidText: string, gap2: string, name: string)
    requires IsPlain(time) && IsPlain(pidText) && IsPlain(name)
    requires IsSpaceRun(gap1) && IsSpaceRun(gap2)
    ensures var body := Interleave([time, pidText, name], [gap1, gap2]);
      |body| > 0 && IsTrimmed(body) && Split(body) == [time, pidText, name]
  {
    var fields := [time, pidText, name];
    var body := Interleave(fields, [gap1, gap2]);
    InterleaveStartsWithFirst(fields, [gap1, gap2]);
    InterleaveEndsWithLast(fields, [gap1, gap2]);
    assert body[0] == time[0];
    assert body[|body| - 1] == body[|body| - |name|..][|name| - 1];
    assert IsToken(time) && IsToken(pidText) && IsToken(name);
    SplitInterleave(fields, [gap1, gap2]);
  }
}
/** Sample lines of `svcs -p` output (the comment in `getServices`), worked through. */
module ServiceExamples {
  import opened Options
  import opened Text
  import opened Numbers
  import opened Services

  const ONLINE_HEAD: string := "online 23:56:25 svc:"
  const RESTARTER: string := "/system/svc/restarter"

  /** `online 23:56:25 svc:/system/svc/restarter:default`. */
  const ONLINE_LINE: string := ONLINE_HEAD + RESTARTER + DEFAULT_SUFFIX

  /** No `:/` occurs in the online sample after its `svc:`. */
  lemma OnlineTailPlain()
    ensures forall k :: !OccursAt(RESTARTER + DEFAULT_SUFFIX, FMRI_DELIMITER, k)
  {
    var tail := RESTARTER + DEFAULT_SUFFIX;
    assert tail == "/system/svc/restarter:default";
    forall k
      ensures !OccursAt(tail, FMRI_DELIMITER, k)
    {
      if 0 <= k && k + 2 <= |tail| {
        assert tail[k..k + 2][0] == tail[k];
        assert tail[k..k + 2][1] == tail[k + 1];
      }
    }
  }

  /** The last `:/` of the online sample is the one after `svc`, at index 19. */
  lemma OnlineLineDelimiter()
    ensures LastIndexOf(ONLINE_LINE, FMRI_DELIMITER) == 19
  {
    var line := ONLINE_LINE;
    var tail := RESTARTER + DEFAULT_SUFFIX;
    assert line == ONLINE_HEAD + tail;
    assert line[20..] == tail;
    assert line[19] == ONLINE_HEAD[19] == ':';
    assert line[20] == tail[0] == '/';
    assert line[19..21] == FMRI_DELIMITER;
    OnlineTailPlain();
    forall k | OccursAt(line, FMRI_DELIMITER, k)
      ensures k <= 19
    {
      if k > 19 {
        assert line[k..k + 2] == tail[k - 20..k - 18];
        assert OccursAt(tail, FMRI_DELIMITER, k - 20);
      }
    }
    assert OccursAt(line, FMRI_DELIMITER, 19);
    var r := LastIndexOf(line, FMRI_DELIMITER);
    assert 19 <= r && OccursAt(line, FMRI_DELIMITER, r);
  }

  /**
   * The online sample is a stopped record with pid 0 named `/system/svc/restarter`:
   * the leading `/` stays, because the name starts one character after the `:` of `:/`.
   */
  lemma OnlineExample()
    ensures OnlineService(ONLINE_LINE) == Some(Service(RESTARTER, 0, Stopped))
  {
    OnlineLineDelimiter();
    var rest := ONLINE_LINE[20..];
    assert rest == RESTARTER + DEFAULT_SUFFIX;
    assert EndsWith(rest, DEFAULT_SUFFIX);
    assert rest[..|rest| - |DEFAULT_SUFFIX|] == RESTARTER;
  }

  /** The pid text of the process sample reads as 13. */
  lemma ThirteenParses()
    ensures ParseIntOrDefault("13", 0) == 13
  {
    var s := "13";
    assert AllDigits(s) && IsDecimal(s);
    assert s[..1] == "1";
    assert DigitsValue(s[..1]) == 1;
  }

  const INDENT: string := "               "
  const GAP: string := "       "

  /** `               23:56:24       13 svc.startd`. */
  const PROCESS_LINE: string := INDENT + "23:56:24" + GAP + "13" + " " + "svc.startd"

  /** The process sample is its indent, then time, pid and name with runs of spaces between. */
  lemma ProcessLineShape()
    ensures PROCESS_LINE == INDENT + Interleave(["23:56:24", "13", "svc.startd"], [GAP, " "])
  {
    var fields := ["23:56:24", "13", "svc.startd"];
    assert fields[1..] == ["13", "svc.startd"];
    assert fields[1..][1..] == ["svc.startd"];
    assert Interleave(fields[1..], [" "]) == "13" + " " + "svc.startd";
  }

  /**
   * The process sample is a running record for `svc.startd` with pid 13: the
   * padding before the pid is one whitespace run, not several empty fields.
   */
  lemma ProcessExample()
    ensures ProcessService(PROCESS_LINE) == Some(Service("svc.startd", 13, Running))
  {
    ProcessLineShape();
    ThirteenParses();
    ProcessLinePieces();
    ProcessLineOfFields(INDENT, "23:56:24", GAP, "13", " ", "svc.startd");
  }

  /** The pieces of the process sample: spaces for the indent and gaps, plain text for the columns. */
  lemma ProcessLinePieces()
    ensures forall k :: 0 <= k < |INDENT| ==> INDENT[k] == ' '
    ensures IsPlain("23:56:24") && IsPlain("13") && IsPlain("svc.startd")
    ensures IsSpaceRun(GAP) && IsSpaceRun(" ")
  {
  }

  const HEADER_LINE: string := "STATE          STIME    FMRI"

  const LEGACY_FMRI: string := "     23:56:49 lrc:/etc/rc2_d/"

  /** `legacy_run     23:56:49 lrc:/etc/rc2_d/S47pppd`. */
  const LEGACY_LINE: string := LEGACY_PREFIX + LEGACY_FMRI + "S47pppd"

  /** The header of the listing yields no record. */
  lemma HeaderExample(rest: seq<string>, legacy: seq<string>)
    ensures GetServices([HEADER_LINE] + rest, legacy) == GetServices(rest, legacy)
  {
    assert HEADER_LINE[0] == 'S';
    assert ONLINE_PREFIX[0] == 'o' && PROCESS_PREFIX[0] == ' ' && LEGACY_PREFIX[0] == 'l';
    OtherLinesSkipped(HEADER_LINE, rest, legacy);
  }

  /** The legacy sample takes the name of the init script it ends with, not of one listed before it. */
  lemma LegacyExample()
    ensures ClassifyLine(LEGACY_LINE, ["S89PRESERVE", "S47pppd"]) == Some(Service("S47pppd", 0, Stopped))
  {
    var line := LEGACY_LINE;
    var head := LEGACY_PREFIX + LEGACY_FMRI;
    assert line[..|LEGACY_PREFIX|] == LEGACY_PREFIX;
    assert line[0] == 'l';
    assert !StartsWith(line, ONLINE_PREFIX) && !StartsWith(line, PROCESS_PREFIX);
    assert line[|head|..] == "S47pppd";
    assert line[|line| - 11] == head[|head| - 4] == '2';
    assert !EndsWith(line, "S89PRESERVE");
  }

  /** The header starts with none of the three prefixes. */
  lemma HeaderClassified(legacy: seq<string>)
    ensures ClassifyLine(HEADER_LINE, legacy) == None
  {
    assert HEADER_LINE[0] == 'S';
    assert ONLINE_PREFIX[0] == 'o' && PROCESS_PREFIX[0] == ' ' && LEGACY_PREFIX[0] == 'l';
  }

  /** The classifier's view of the online sample: it starts with `online`. */
  lemma OnlineLineClassified(legacy: seq<string>)
    ensures ClassifyLine(ONLINE_LINE, legacy) == OnlineService(ONLINE_LINE)
  {
    assert ONLINE_LINE[..|ONLINE_PREFIX|] == ONLINE_PREFIX;
  }

  /** The classifier's view of the process sample: it starts with a space, not with `online`. */
  lemma ProcessLineClassified(legacy: seq<string>)
    ensures ClassifyLine(PROCESS_LINE, legacy) == ProcessService(PROCESS_LINE)
  {
    assert PROCESS_LINE[0] == ' ';
    assert PROCESS_LINE[..|PROCESS_PREFIX|] == PROCESS_PREFIX;
  }

  /** A skipped header, then three lines that each yield a record. */
  lemma ThreeBelowHeader(header: string, a: string, b: string, c: string, legacy: seq<string>,
                         ra: Service, rb: Service, rc: Service)
    requires ClassifyLine(header, legacy) == None
    requires ClassifyLine(a, legacy) == Some(ra) && ClassifyLine(b, legacy) == Some(rb)
    requires ClassifyLine(c, legacy) == Some(rc)
    ensures GetServices([header, a, b, c], legacy) == [ra, rb, rc]
  {
    GetServicesCons(c, [], legacy, rc);
    GetServicesCons(b, [c], legacy, rb);
    GetServicesCons(a, [b, c], legacy, ra);
    OtherLinesSkippedAt(header, [a, b, c], legacy);
    assert [header] + [a, b, c] == [header, a, b, c];
  }

  /**
   * A whole `svcs -p` listing, header first, with `S89PRESERVE` and `S47pppd` in
   * `/etc/init.d`: one record per sample line below the header, in line order.
   */
  lemma ListingExample(run: string -> seq<string>, listDir: string -> seq<string>)
    requires run(SERVICES_COMMAND) == [HEADER_LINE, LEGACY_LINE, ONLINE_LINE, PROCESS_LINE]
    requires listDir(LEGACY_DIRECTORY) == ["S89PRESERVE", "S47pppd"]
    ensures QueryServices(run, listDir)
         == [Service("S47pppd", 0, Stopped), Service(RESTARTER, 0, Stopped), Service("svc.startd", 13, Running)]
  {
    var legacy := listDir(LEGACY_DIRECTORY);
    HeaderClassified(legacy);
    LegacyExample();
    OnlineLineClassified(legacy);
    OnlineExample();
    ProcessLineClassified(legacy);
    ProcessExample();
    ThreeBelowHeader(HEADER_LINE, LEGACY_LINE, ONLINE_LINE, PROCESS_LINE, legacy,
      Service("S47pppd", 0, Stopped), Service(RESTARTER, 0, Stopped), Service("svc.startd", 13, Running));
  }
}
