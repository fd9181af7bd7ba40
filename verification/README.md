# Solaris process and service inventory, modelled in Dafny

This project models the text-to-record layer of oshi's Solaris operating-system class
(`SolarisOperatingSystem`). That layer runs `ps`, `pgrep`, `svcs -p`, `uname`,
`isainfo` and `ps -eLo` and turns their line output into process records, pid sets
and service records:

- **`getProcessListFromPS` and `getProcess`** build the `ps` command, with the pid
  appended only when it is non-negative.
  - The header row is dropped.
  - Each trimmed row is split on `\s+` with a limit of 15, so the `args` column keeps its inner spaces.
  - Rows that do not give exactly 15 columns are skipped.
  - The record's pid is either the one asked for or the second column read as an int (0 when it does not read).
- **`getChildren`, `queryChildProcesses` and `queryDescendantProcesses`** collect a set of pid texts.
  - When the set is empty, they issue no follow-up query.
  - Otherwise, they issue one `ps -o ... -p` query whose pid list is the set joined with commas, in hash-set order.
- **`getServices`** classifies each `svcs -p` line by its prefix.
  - `online` lines give a stopped record with pid 0, named after the last `:/`.
  - Lines starting with a space give a running record when they split into three fields.
  - `legacy_run` lines are named by the first `/etc/init.d` file name the line ends with.
- **`queryFamilyVersionInfo`, `queryBitness` and `getThreadCount`** read the first line of `uname -rv`, the first line of `isainfo -b`, and the line count of `ps -eLo pid`.

Running a command is a parameter `run: string -> seq<string>`, which maps a command line to
the lines it prints. The query methods also return the commands they issued, in order.
This makes the "no `-p` query for an empty set" rule a stated property.

Modules, one concern each:

| file | module | what it holds |
|---|---|---|
| options.dfy | Options | `Option` |
| text.dfy | Text | Java's `String.trim`, `lastIndexOf`, `endsWith` and `String.join`; `Pattern.split` on `\s+` with and without a limit; a split on one character; their round trips |
| numbers.dfy | Numbers | `Integer.toString`, `Integer.parseInt` on 32-bit ints, parse-with-default |
| processes.dfy | ProcessList | the `ps` listing parser, `getProcess` |
| children.dfy | ProcessTree | `getChildren`, the pid-list query, the descendant closure, the child and descendant queries |
| services.dfy | Services, ServiceExamples | the `svcs -p` classifier and the sample lines of its output |
| osinfo.dfy | OsInfo | family/version, bitness, thread count |

Line 259 takes the substring one past the `:` of `:/`, so an online service name keeps
its leading `/`. `ServiceExamples.OnlineExample` proves that the sample line
`online 23:56:25 svc:/system/svc/restarter:default` names `/system/svc/restarter`.

## Model

All source paths are relative to `oshi-core/src/main/java/oshi/software/os/unix/solaris/`,
written out in full below.

| member | source | states |
|---|---|---|
| ProcessList.PsCommand | oshi-core/src/main/java/oshi/software/os/unix/solaris/SolarisOperatingSystem.java:157 | the command always starts with the given prefix; for a negative pid it is the prefix alone; for a non-negative pid, what follows the prefix reads back as that pid |
| ProcessList.ProcessListFromPs | oshi-core/src/main/java/oshi/software/os/unix/solaris/SolarisOperatingSystem.java:155-172 | `getProcessListFromPS`: the command is built as PsCommand states and run once; an output of fewer than two lines gives no record, otherwise fewer records than lines; every record has 15 columns and the pid rule of line 168. GetProcessFindsRow and LinkOfRow state which records come back |
| ProcessList.ParseProcessList | oshi-core/src/main/java/oshi/software/os/unix/solaris/SolarisOperatingSystem.java:158-171 | fewer than two lines give no record; otherwise at most one record per line after the header; every record has 15 columns; for a non-negative pid every record carries that pid, for a negative one each record's pid is its own second column read with default 0 |
| ProcessList.HeaderIgnored | oshi-core/src/main/java/oshi/software/os/unix/solaris/SolarisOperatingSystem.java:161-162 | whatever the first line says, the records are the same: the header never becomes a record |
| ProcessList.ParseRowsAppend | oshi-core/src/main/java/oshi/software/os/unix/solaris/SolarisOperatingSystem.java:164-170 | the records of two blocks of rows are the records of the first, then those of the second: records keep row order |
| ProcessList.ParseRow | oshi-core/src/main/java/oshi/software/os/unix/solaris/SolarisOperatingSystem.java:165-168 | a record exactly when the trimmed row splits into 15 columns with limit 15, and then those columns unchanged; the pid is the requested one when it is non-negative, else the second column read with default 0. Its partners: ParseRowOfColumns reads any laid-out row of 15 columns back, ShortRowSkipped rejects shorter ones |
| ProcessList.ParseRowOfColumns | oshi-core/src/main/java/oshi/software/os/unix/solaris/SolarisOperatingSystem.java:165-168 | fourteen plain columns and a trimmed `args`, after any indent and with any whitespace runs between them, parse back to exactly those columns, `args` with its inner spaces intact |
| ProcessList.ShortRowSkipped | oshi-core/src/main/java/oshi/software/os/unix/solaris/SolarisOperatingSystem.java:166-167 | a row of fewer than 15 plain columns, whatever its indent, yields no record |
| ProcessList.ParseRowsEmpty | oshi-core/src/main/java/oshi/software/os/unix/solaris/SolarisOperatingSystem.java:164-170 | the rows give no record exactly when every one of them yields nothing |
| ProcessList.GetProcess | oshi-core/src/main/java/oshi/software/os/unix/solaris/SolarisOperatingSystem.java:106-113 | no record (Java's null) exactly when the pid query yields none; otherwise a 15-column record carrying the requested pid. GetProcessFindsRow states that it is the record of the first row that parses |
| ProcessList.GetProcessFindsRow | oshi-core/src/main/java/oshi/software/os/unix/solaris/SolarisOperatingSystem.java:107-112 | when the pid query prints a header, any rows that yield nothing, then a well-formed row (indented or not), the process is that row's columns with the requested pid, its command line (`args`) whole, whatever rows follow |
| ProcessTree.GetChildren | oshi-core/src/main/java/oshi/software/os/unix/solaris/SolarisOperatingSystem.java:144-153 | the child set is exactly the trimmed `pgrep -P` lines other than the parent's own pid |
| ProcessTree.Enumerate | oshi-core/src/main/java/oshi/software/os/unix/solaris/SolarisOperatingSystem.java:127 | the iteration order of a hash set lists each pid of the set exactly once and nothing else; which order is left open |
| ProcessTree.QueryPidList | oshi-core/src/main/java/oshi/software/os/unix/solaris/SolarisOperatingSystem.java:124-127 | an empty pid set issues no command and gives no process; otherwise exactly one command, the pid-list `ps` command for those pids, whose rows are parsed with pids read from the rows |
| ProcessTree.PidListCommandNamesEach | oshi-core/src/main/java/oshi/software/os/unix/solaris/SolarisOperatingSystem.java:127 | the comma-joined pid list of such a command separates at its commas into each pid of the set exactly once |
| ProcessTree.PidTextsAvoidComma | oshi-core/src/main/java/oshi/software/os/unix/solaris/SolarisOperatingSystem.java:132-137 | pid texts never contain a comma, so the joined list of descendant pids is unambiguous |
| ProcessTree.QueryChildProcesses | oshi-core/src/main/java/oshi/software/os/unix/solaris/SolarisOperatingSystem.java:120-128 | first `pgrep -P <parent>`; with no child, nothing else runs and the result is empty; otherwise one `-p` query for exactly the children, and its records are the result |
| ProcessTree.Descendants | oshi-core/src/main/java/oshi/software/os/unix/solaris/SolarisOperatingSystem.java:132-133 | the traversal ends even on cyclic parent links; it returns the least set holding the root's children and closed under taking children, without the root |
| ProcessTree.ParentPid | oshi-core/src/main/java/oshi/software/os/unix/solaris/SolarisOperatingSystem.java:132 | a record's parent pid is its third column read as an int, or 0 when it does not read as one |
| ProcessTree.Links | oshi-core/src/main/java/oshi/software/os/unix/solaris/SolarisOperatingSystem.java:132 | one parent link per record of the snapshot, in order: the record's pid and its parent pid |
| ProcessTree.LinkOfRow | oshi-core/src/main/java/oshi/software/os/unix/solaris/SolarisOperatingSystem.java:132 | a full listing with one well-formed row gives exactly the link from that row's pid column to its ppid column |
| ProcessTree.DescendantSetUnique | oshi-core/src/main/java/oshi/software/os/unix/solaris/SolarisOperatingSystem.java:132-133 | the descendant set is determined by the links: any two agree |
| ProcessTree.DescendantsIgnoreLinkOrder | oshi-core/src/main/java/oshi/software/os/unix/solaris/SolarisOperatingSystem.java:132-133 | reordering the snapshot's rows does not change the descendants |
| ProcessTree.DescendantsOfTree | oshi-core/src/main/java/oshi/software/os/unix/solaris/SolarisOperatingSystem.java:132-133 | in the tree root→{2,3}, 2→{4}, the descendants of the root are {2,3,4} |
| ProcessTree.DescendantsOfCycle | oshi-core/src/main/java/oshi/software/os/unix/solaris/SolarisOperatingSystem.java:132-133 | with 5 and 6 each naming the other as parent, the descendants of 5 are {6} |
| ProcessTree.QueryDescendantProcesses | oshi-core/src/main/java/oshi/software/os/unix/solaris/SolarisOperatingSystem.java:130-142 | first the full `ps -eo` listing; with no descendant, nothing else runs and the result is empty; otherwise one `-p` query for exactly the descendants' pid texts |
| Services.OnlineService | oshi-core/src/main/java/oshi/software/os/unix/solaris/SolarisOperatingSystem.java:256-264 | an online record is stopped, has pid 0, and its name is non-empty and starts with `/` |
| Services.OnlineServiceExists | oshi-core/src/main/java/oshi/software/os/unix/solaris/SolarisOperatingSystem.java:257-258 | an online line yields a record exactly when `:/` occurs at some index past 0 |
| Services.OnlineServiceName | oshi-core/src/main/java/oshi/software/os/unix/solaris/SolarisOperatingSystem.java:257-262 | when the text after the `:` of the last `:/` ends in `:default`, the name is that text with exactly the suffix removed; otherwise the name is the whole text; either way the name contains no `:/` |
| Services.StripDefault | oshi-core/src/main/java/oshi/software/os/unix/solaris/SolarisOperatingSystem.java:260-262 | a name ending in `:default` loses exactly that suffix, since appending it again gives the name back; any other name is unchanged |
| Services.ProcessLineOfFields | oshi-core/src/main/java/oshi/software/os/unix/solaris/SolarisOperatingSystem.java:266-268 | an indented line of time, pid and name, with any whitespace runs between them, is a running record of that name and pid |
| Services.ProcessService | oshi-core/src/main/java/oshi/software/os/unix/solaris/SolarisOperatingSystem.java:265-269 | a record exactly when the trimmed line splits into three fields; it is running, named by the third field, with the second read as the pid (default 0). Its partner ProcessLineOfFields lays out any time, pid and name and reads them back |
| Services.LegacyService | oshi-core/src/main/java/oshi/software/os/unix/solaris/SolarisOperatingSystem.java:270-276 | a record exactly when the line ends with some legacy name; it is stopped, has pid 0, and is named by the first legacy name in list order that the line ends with |
| Services.GetServices | oshi-core/src/main/java/oshi/software/os/unix/solaris/SolarisOperatingSystem.java:255-279 | at most one record per line; every stopped record has pid 0 |
| Services.QueryServices | oshi-core/src/main/java/oshi/software/os/unix/solaris/SolarisOperatingSystem.java:231-279 | `getServices`: `svcs -p` runs once and the file names of `/etc/init.d` are listed once; at most one record per output line, and every stopped record has pid 0. ListingExample works through a whole listing |
| Services.ClassifyLine | oshi-core/src/main/java/oshi/software/os/unix/solaris/SolarisOperatingSystem.java:255-277 | the prefixes are tried in source order: `online` first, then a leading space, then `legacy_run`, each line going to the first that matches; a line with none of them yields nothing. RunningOnlyFromProcessLines and OtherLinesSkipped state the consequences |
| Services.GetServicesAppend | oshi-core/src/main/java/oshi/software/os/unix/solaris/SolarisOperatingSystem.java:255-278 | the records of two blocks of lines are those of the first, then those of the second: records keep line order |
| Services.RunningOnlyFromProcessLines | oshi-core/src/main/java/oshi/software/os/unix/solaris/SolarisOperatingSystem.java:263-273 | a running record only comes from a line that starts with a space; online and legacy lines are always stopped |
| Services.OtherLinesSkipped | oshi-core/src/main/java/oshi/software/os/unix/solaris/SolarisOperatingSystem.java:255-277 | a line with none of the three prefixes contributes nothing to the listing |
| Services.LegacyNamesOnly | oshi-core/src/main/java/oshi/software/os/unix/solaris/SolarisOperatingSystem.java:271-274 | a legacy record is stopped and named after one of the `/etc/init.d` file names |
| ServiceExamples.OnlineExample | oshi-core/src/main/java/oshi/software/os/unix/solaris/SolarisOperatingSystem.java:250-263 | `online 23:56:25 svc:/system/svc/restarter:default` is the stopped service `/system/svc/restarter`, leading `/` kept, with pid 0 |
| ServiceExamples.ProcessExample | oshi-core/src/main/java/oshi/software/os/unix/solaris/SolarisOperatingSystem.java:252-268 | the indented sample `23:56:24       13 svc.startd` is the running service `svc.startd` with pid 13 |
| ServiceExamples.HeaderExample | oshi-core/src/main/java/oshi/software/os/unix/solaris/SolarisOperatingSystem.java:246-277 | the `STATE STIME FMRI` header yields no record |
| ServiceExamples.LegacyExample | oshi-core/src/main/java/oshi/software/os/unix/solaris/SolarisOperatingSystem.java:247-274 | `legacy_run ... lrc:/etc/rc2_d/S47pppd` takes the name `S47pppd` from the legacy names |
| ServiceExamples.ListingExample | oshi-core/src/main/java/oshi/software/os/unix/solaris/SolarisOperatingSystem.java:231-279 | a whole `svcs -p` output (header, legacy, online and process samples) with `S89PRESERVE` and `S47pppd` in `/etc/init.d` gives exactly the three records, in line order |
| Text.Trim | oshi-core/src/main/java/oshi/software/os/unix/solaris/SolarisOperatingSystem.java:147 | the result has nothing at or below U+0020 at either end, and it is the stretch of the input between the first and last characters above U+0020 |
| Text.TrimIdempotent | oshi-core/src/main/java/oshi/software/os/unix/solaris/SolarisOperatingSystem.java:147 | trimming twice is trimming once |
| Text.LastIndexOf | oshi-core/src/main/java/oshi/software/os/unix/solaris/SolarisOperatingSystem.java:257 | -1 or an index where the pattern occurs, and no occurrence lies after it |
| Text.SplitLimit | oshi-core/src/main/java/oshi/software/os/unix/solaris/SolarisOperatingSystem.java:165 | between one and `limit` fields; none but the last holds whitespace, and when there are fewer than `limit` fields the last holds none either. SplitLimitInterleave is its inverse on laid-out fields |
| Text.Split | oshi-core/src/main/java/oshi/software/os/unix/solaris/SolarisOperatingSystem.java:266 | no field holds whitespace and only the first may be empty. SplitInterleave is its inverse on laid-out tokens, and SplitEmptyIffBlank says when it gives no field |
| Text.SplitLimitInterleave | oshi-core/src/main/java/oshi/software/os/unix/solaris/SolarisOperatingSystem.java:165 | splitting with limit n undoes laying out fields with whitespace runs; when there are n fields the last comes back whole, spaces included |
| Text.SplitInterleave | oshi-core/src/main/java/oshi/software/os/unix/solaris/SolarisOperatingSystem.java:266 | the unlimited split undoes laying out tokens with whitespace runs |
| Text.SplitEmptyIffBlank | oshi-core/src/main/java/oshi/software/os/unix/solaris/SolarisOperatingSystem.java:74-75 | the unlimited split gives no field exactly for a non-empty, all-whitespace input |
| Text.SplitOnCharJoin | oshi-core/src/main/java/oshi/software/os/unix/solaris/SolarisOperatingSystem.java:127 | joining pieces with a character they do not contain and splitting at it gives the pieces back |
| Numbers.ParseIntToString | oshi-core/src/main/java/oshi/software/os/unix/solaris/SolarisOperatingSystem.java:157 | every 32-bit int's decimal text reads back as that int |
| Numbers.ParseInt | oshi-core/src/main/java/oshi/software/os/unix/solaris/SolarisOperatingSystem.java:168 | a value exactly when the text is an optional sign and decimal digits whose value fits in 32 bits, Java's `NumberFormatException` otherwise |
| Numbers.ParseIntOrDefault | oshi-core/src/main/java/oshi/software/os/unix/solaris/SolarisOperatingSystem.java:168 | the parsed value when the text reads as a 32-bit int, the default otherwise. ParseIntOrDefaultToString is its inverse: the text of any int reads back as that int |
| Numbers.ParseIntOrDefaultToString | oshi-core/src/main/java/oshi/software/os/unix/solaris/SolarisOperatingSystem.java:168 | reading an int's text with a default gives the int, never the default |
| Numbers.IntToStringInjective | oshi-core/src/main/java/oshi/software/os/unix/solaris/SolarisOperatingSystem.java:132-133 | distinct pids have distinct texts |
| OsInfo.FamilyVersionInfo | oshi-core/src/main/java/oshi/software/os/unix/solaris/SolarisOperatingSystem.java:73-81 | family `SunOS` and code name `Solaris`; a build number exactly when the answer has more than one field; a failure (Java's index exception) exactly for a blank, non-empty answer |
| OsInfo.FamilyVersionOfFields | oshi-core/src/main/java/oshi/software/os/unix/solaris/SolarisOperatingSystem.java:74-79 | a release and build separated by whitespace, whatever follows, are the version and build number |
| OsInfo.FamilyVersionOfRelease | oshi-core/src/main/java/oshi/software/os/unix/solaris/SolarisOperatingSystem.java:75-78 | a single release token is the version, with no build number |
| OsInfo.FamilyVersionOfSilence | oshi-core/src/main/java/oshi/software/os/unix/solaris/SolarisOperatingSystem.java:74-75 | when `uname -rv` prints nothing, the version is empty rather than a failure |
| OsInfo.Bitness | oshi-core/src/main/java/oshi/software/os/unix/solaris/SolarisOperatingSystem.java:84-89 | a 64-bit JVM gives 64; otherwise an answer that does not read as an int gives 32 |
| OsInfo.BitnessReadsAnswer | oshi-core/src/main/java/oshi/software/os/unix/solaris/SolarisOperatingSystem.java:88 | on a JVM that is not 64-bit, any int that `isainfo -b` prints is the bitness |
| OsInfo.BitnessWithoutAnswer | oshi-core/src/main/java/oshi/software/os/unix/solaris/SolarisOperatingSystem.java:88 | when `isainfo -b` prints nothing, the bitness is 32 |
| OsInfo.ThreadCount | oshi-core/src/main/java/oshi/software/os/unix/solaris/SolarisOperatingSystem.java:185-192 | a non-empty output gives a count below its line count; an empty output gives the process count |
| OsInfo.ThreadCountCountsRows | oshi-core/src/main/java/oshi/software/os/unix/solaris/SolarisOperatingSystem.java:186-189 | under a header, the count is the number of rows |

## Left out

- Command execution (`ExecutingCommand.runNative`): a command becomes the parameter `run`, which maps the command line to its output lines. Timeouts, failures and encodings are not modelled.
- The source of `ExecutingCommand.getFirstAnswer` is not part of this model. `OsInfo.FirstAnswer` models it as the first line, or the empty string when there is none.
- The `/etc/init.d` listing (lines 234-241) is a file-system call. `Services.QueryServices` takes it as the parameter `listDir`, which gives a directory's file names in listing order, and none when the directory is missing or cannot be read.
- Uptime and boot time come from kstat (lines 194-223), with the `BOOTTIME` cache (line 65) and the clock. They are native handles and wall-clock time. Uptime is the kstat snapshot time divided by 10^9, or 0 when the lookup fails.
- `getChildrenOrDescendants` lives in `AbstractOperatingSystem`, whose source is not part of this model. `ProcessTree.Descendants` models it as a visited-set traversal whose result is the least set closed under the parent links; its visiting order is not modelled.
  - A process naming itself as its own parent is not its own child.
  - Duplicate pids in a snapshot, which `Collectors.toMap` would reject, are not modelled.
- ProcessTree.QueryDescendantProcesses: states that some descendant set exists for the parsed snapshot, not how the unmodelled Java traversal orders its work.
- The source of `SolarisOSProcess` is not part of this model. A record keeps its 15 raw columns, and `ProcessTree.ParentPid` reads the parent pid from the third column with default 0.
- The source of `ParseUtil` is not part of this model; `Text` and `Numbers` model the two parts used here.
  - `Pattern.split` on `\s+` is written out in `Text`.
  - `parseIntOrDefault` is written out in `Numbers`: an optional sign, ASCII digits and the 32-bit range. `Character.digit` would also accept non-ASCII Unicode digits, which the model rejects.
- Hash-set iteration order (lines 127 and 137) is left open: `ProcessTree.Enumerate` may pick any order, and contracts speak of "some enumeration".
- `String.valueOf` on the child pids (line 122) is the identity on strings and is not modelled separately.
- The process count that `getThreadCount` falls back to comes from `ProcessStat.getPidFiles`, a file-system call; it is a parameter.
- The trivial delegations and native calls are not modelled: `queryManufacturer`, `getpid`, `getSessions`, `queryAllProcesses`, and the file-system, network and protocol-statistics constructors.
- A blank `pgrep` line trims to the empty string. The code keeps it as a "pid", and so does the model.
