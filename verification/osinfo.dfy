/**
 * The three small command-output readers of the Solaris operating system class:
 * the family and version from `uname -rv`, the bitness from `isainfo -b`, and the
 * thread count from `ps -eLo pid`.
 */
module OsInfo {
  import opened Options
  import opened Text
  import opened Numbers

  const UNAME_COMMAND: string := "uname -rv"
  const ISAINFO_COMMAND: string := "isainfo -b"
  const THREAD_LIST_COMMAND: string := "ps -eLo pid"

  const FAMILY: string := "SunOS"
  const CODE_NAME: string := "Solaris"
  const DEFAULT_BITNESS: Int32 := 32

  /** The first line a command printed, or the empty string when it printed nothing. */
  function FirstAnswer(lines: seq<string>): string {
    if |lines| > 0 then lines[0] else ""
  }

  datatype VersionInfo = VersionInfo(version: string, codeName: string, buildNumber: Option<string>)

  datatype FamilyVersion = FamilyVersion(family: string, info: VersionInfo)

  /**
   * The family and version read from the first line of `uname -rv`: the release is
   * the first whitespace field and the build the second, when there is one. A blank
   * answer splits into no field at all, and reading the release then fails (None).
   */
  function FamilyVersionInfo(answer: string): (r: Option<FamilyVersion>)
    ensures r.None? <==> |answer| > 0 && IsBlank(answer)
    ensures r.Some? ==> r.value.family == FAMILY && r.value.info.codeName == CODE_NAME
    ensures r.Some? ==> (r.value.info.buildNumber.Some? <==> |Split(answer)| > 1)
  {
    SplitEmptyIffBlank(answer);
    var fields := Split(answer);
    if |fields| == 0 then None
    else
      var build := if |fields| > 1 then Some(fields[1]) else None;
      Some(FamilyVersion(FAMILY, VersionInfo(fields[0], CODE_NAME, build)))
  }

  function QueryFamilyVersionInfo(run: string -> seq<string>): Option<FamilyVersion> {
    FamilyVersionInfo(FirstAnswer(run(UNAME_COMMAND)))
  }

  /**
   * A release and a build printed with whitespace between them, whatever follows,
   * come back as version and build number.
   */
  lemma FamilyVersionOfFields(fields: seq<string>, seps: seq<string>)
    requires |fields| >= 2 && (forall j :: 0 <= j < |fields| ==> IsToken(fields[j]))
    requires |seps| == |fields| - 1 && AllSpaceRuns(seps)
    ensures FamilyVersionInfo(Interleave(fields, seps))
         == Some(FamilyVersion(FAMILY, VersionInfo(fields[0], CODE_NAME, Some(fields[1]))))
  {
    SplitInterleave(fields, seps);
  }

  /** A release alone comes back as the version, with no build number. */
  lemma FamilyVersionOfRelease(release: string)
    requires IsToken(release)
    ensures FamilyVersionInfo(release) == Some(FamilyVersion(FAMILY, VersionInfo(release, CODE_NAME, None)))
  {
    SplitInterleave([release], []);
  }

  /** `uname` printing nothing gives an empty version rather than a failure. */
  lemma FamilyVersionOfSilence(run: string -> seq<string>)
    requires run(UNAME_COMMAND) == []
    ensures QueryFamilyVersionInfo(run) == Some(FamilyVersion(FAMILY, VersionInfo("", CODE_NAME, None)))
  {
    SpaceFromAt("", 0, 0);
  }

  /**
   * The bitness: a 64-bit JVM answers 64 without asking; otherwise the first line
   * of `isainfo -b` read as an int, or 32 when it does not read as one.
   */
  function Bitness(jvmBitness: Int32, answer: string): (r: Int32)
    ensures jvmBitness == 64 ==> r == 64
    ensures jvmBitness != 64 && ParseInt(answer).None? ==> r == DEFAULT_BITNESS
  {
    if jvmBitness == 64 then 64 else ParseIntOrDefault(answer, DEFAULT_BITNESS)
  }

  function QueryBitness(run: string -> seq<string>, jvmBitness: Int32): Int32 {
    Bitness(jvmBitness, FirstAnswer(run(ISAINFO_COMMAND)))
  }

  /** On a JVM that is not 64-bit, whatever number `isainfo -b` prints is the bitness. */
  lemma BitnessReadsAnswer(run: string -> seq<string>, jvmBitness: Int32, bits: Int32)
    requires jvmBitness != 64
    requires |run(ISAINFO_COMMAND)| > 0 && run(ISAINFO_COMMAND)[0] == IntToString(bits)
    ensures QueryBitness(run, jvmBitness) == bits
  {
    ParseIntOrDefaultToString(bits, DEFAULT_BITNESS);
  }

  /** When `isainfo` prints nothing the bitness falls back to 32. */
  lemma BitnessWithoutAnswer(run: string -> seq<string>, jvmBitness: Int32)
    requires jvmBitness != 64 && run(ISAINFO_COMMAND) == []
    ensures QueryBitness(run, jvmBitness) == DEFAULT_BITNESS
  {
  }

  /**
   * The thread count: the lines of `ps -eLo pid` less the header, or the process
   * count when the command printed nothing.
   */
  function ThreadCount(lines: seq<string>, processCount: int): (r: int)
    ensures |lines| > 0 ==> 0 <= r < |lines|
    ensures |lines| == 0 ==> r == processCount
  {
    if |lines| > 0 then |lines| - 1 else processCount
  }

  function QueryThreadCount(run: string -> seq<string>, processCount: int): int {
    ThreadCount(run(THREAD_LIST_COMMAND), processCount)
  }

  /** Below the header, one line per thread: the count is the number of those lines. */
  lemma ThreadCountCountsRows(run: string -> seq<string>, processCount: int, header: string, rows: seq<string>)
    requires run(THREAD_LIST_COMMAND) == [header] + rows
    ensures QueryThreadCount(run, processCount) == |rows|
  {
  }
}
