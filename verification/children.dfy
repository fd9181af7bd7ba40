/**
 * Child and descendant queries of the Solaris operating-system layer: the pids of
 * a process's children (from `pgrep -P`) or descendants (from the full listing),
 * then one `ps -p` query for all of them, or none when there are none.
 */
module ProcessTree {
  import opened Text
  import opened Numbers
  import opened ProcessList

  /** `pgrep -P <parent>`: the pids of the direct children of a process, one per line. */
  function PgrepCommand(parentPid: string): string {
    "pgrep -P " + parentPid
  }

  /** The trimmed lines of a command's output. */
  ghost function TrimmedLines(lines: seq<string>): set<string> {
    set k | 0 <= k < |lines| :: Trim(lines[k])
  }

  /** One more line adds its trimmed text to the trimmed lines. */
  lemma TrimmedLinesGrow(lines: seq<string>, i: nat)
    requires i < |lines|
    ensures TrimmedLines(lines[..i + 1]) == TrimmedLines(lines[..i]) + {Trim(lines[i])}
  {
    assert forall k :: 0 <= k < i ==> lines[..i + 1][k] == lines[..i][k];
  }

  /**
   * `getChildren(parentPid)`: the trimmed lines `pgrep -P` prints, except one equal
   * to the parent's own pid.
   */
  method GetChildren(run: string -> seq<string>, parentPid: string) returns (childPids: set<string>)
    ensures childPids == TrimmedLines(run(PgrepCommand(parentPid))) - {parentPid}
  {
    var lines := run(PgrepCommand(parentPid));
    childPids := {};
    var i := 0;
    while i < |lines|
      invariant i <= |lines|
      invariant childPids == TrimmedLines(lines[..i]) - {parentPid}
    {
      var pid := Trim(lines[i]);
      if pid != parentPid {
        childPids := childPids + {pid};
      }
      TrimmedLinesGrow(lines, i);
      i := i + 1;
    }
    assert lines[..i] == lines;
  }

  // ---------------------------------------------------------------------------
  // the follow-up `ps -p` query

  /** `order` lists every element of `pids` exactly once. */
  ghost predicate IsEnumeration(order: seq<string>, pids: set<string>) {
    && (forall k :: 0 <= k < |order| ==> order[k] in pids)
    && (forall p :: p in pids ==> p in order)
    && (forall j, k :: 0 <= j < k < |order| ==> order[j] != order[k])
  }

  /**
   * The iteration order of a hash set: some order of its elements, which the model
   * leaves open by choosing each next element arbitrarily.
   */
  method Enumerate(pids: set<string>) returns (order: seq<string>)
    ensures IsEnumeration(order, pids)
    ensures |order| == |pids|
  {
    order := [];
    var rest := pids;
    while rest != {}
      invariant rest <= pids
      invariant forall k :: 0 <= k < |order| ==> order[k] in pids && order[k] !in rest
      invariant forall p :: p in pids && p !in rest ==> p in order
      invariant forall j, k :: 0 <= j < k < |order| ==> order[j] != order[k]
      invariant |order| + |rest| == |pids|
      decreases |rest|
    {
      var p :| p in rest;
      order := order + [p];
      rest := rest - {p};
    }
  }

  /** `cmd` is the pid-list `ps` command for exactly the pids of `pids`, in some order. */
  ghost predicate IsPidListCommand(cmd: string, pids: set<string>) {
    exists order :: IsEnumeration(order, pids) && cmd == PID_LIST_COMMAND + Join(order, ",")
  }

  /**
   * The pid list of a pid-list command separates at its commas into exactly the
   * pids of the set, each once, when no pid text holds a comma.
   */
  lemma PidListCommandNamesEach(cmd: string, pids: set<string>)
    requires IsPidListCommand(cmd, pids) && pids != {}
    requires forall p :: p in pids ==> Avoids(p, ',')
    ensures StartsWith(cmd, PID_LIST_COMMAND)
    ensures IsEnumeration(SplitOnChar(cmd[|PID_LIST_COMMAND|..], ','), pids)
  {
    var order :| IsEnumeration(order, pids) && cmd == PID_LIST_COMMAND + Join(order, ",");
    var p :| p in pids;
    assert p in order;
    assert cmd[|PID_LIST_COMMAND|..] == Join(order, [',']);
    SplitOnCharJoin(order, ',');
  }

  /** Pid texts never hold a comma, so the lemma above applies to every set of pids. */
  lemma PidTextsAvoidComma(pids: set<int>)
    ensures forall t :: t in PidTexts(pids) ==> Avoids(t, ',')
  {
    forall t | t in PidTexts(pids)
      ensures Avoids(t, ',')
    {
      var p :| p in pids && t == IntToString(p);
      IntToStringPrintable(p);
    }
  }

  /**
   * The query both `queryChildProcesses` and `queryDescendantProcesses` end with:
   * no pid means no `ps` query and no process; otherwise one `ps -p` query for the
   * comma-joined pids, read with the pid taken from each row.
   */
  method QueryPidList(run: string -> seq<string>, pids: set<string>)
    returns (procs: seq<ProcessRecord>, issued: seq<string>)
    ensures pids == {} ==> procs == [] && issued == []
    ensures pids != {} ==> |issued| == 1 && IsPidListCommand(issued[0], pids)
                           && procs == ParseProcessList(run(issued[0]), -1)
  {
    if pids == {} {
      return [], [];
    }
    var order := Enumerate(pids);
    var cmd := PID_LIST_COMMAND + Join(order, ",");
    procs := ProcessListFromPs(run, cmd, -1);
    issued := [cmd];
  }

  /**
   * `queryChildProcesses(parentPid)`: the records of the processes `pgrep -P` names,
   * with the commands issued, in order.
   */
  method QueryChildProcesses(run: string -> seq<string>, parentPid: Int32)
    returns (procs: seq<ProcessRecord>, issued: seq<string>)
    ensures |issued| >= 1 && issued[0] == PgrepCommand(IntToString(parentPid))
    ensures var children := TrimmedLines(run(PgrepCommand(IntToString(parentPid)))) - {IntToString(parentPid)};
      && (children == {} ==> procs == [] && |issued| == 1)
      && (children != {} ==> |issued| == 2 && IsPidListCommand(issued[1], children)
                             && procs == ParseProcessList(run(issued[1]), -1))
  {
    var parent := IntToString(parentPid);
    var children := GetChildren(run, parent);
    var more;
    procs, more := QueryPidList(run, children);
    issued := [PgrepCommand(parent)] + more;
  }

  // ---------------------------------------------------------------------------
  // descendant closure

  /** One parent link of a snapshot: process `pid` names `ppid` as its parent. */
  datatype Link = Link(pid: int, ppid: int)

  /** A record's parent pid: its third column, 0 when that does not parse. */
  function ParentPid(p: ProcessRecord): (ppid: Int32)
    requires p.Valid()
    ensures ParseInt(p.fields[2]).Some? ==> ppid == ParseInt(p.fields[2]).value
    ensures ParseInt(p.fields[2]).None? ==> ppid == 0
  {
    ParseIntOrDefault(p.fields[2], 0)
  }

  /** The parent links of a snapshot, one per record. */
  function Links(snapshot: seq<ProcessRecord>): (links: seq<Link>)
    requires forall k :: 0 <= k < |snapshot| ==> snapshot[k].Valid()
    ensures |links| == |snapshot|
    ensures forall k :: 0 <= k < |links| ==> links[k] == Link(snapshot[k].pid, ParentPid(snapshot[k]))
  {
    seq(|snapshot|, k requires 0 <= k < |snapshot| => Link(snapshot[k].pid, ParentPid(snapshot[k])))
  }

  /**
   * A full listing with one well-formed row links that row's pid column to its
   * ppid column, whatever the indent and padding.
   */
  lemma LinkOfRow(header: string, indent: string, fields: seq<string>, seps: seq<string>, child: Int32, parent: Int32)
    requires forall k :: 0 <= k < |indent| ==> indent[k] <= ' '
    requires IsRowColumns(fields) && |seps| == FIELD_COUNT - 1 && AllSpaceRuns(seps)
    requires fields[1] == IntToString(child) && fields[2] == IntToString(parent)
    ensures Links(ParseProcessList([header, indent + Interleave(fields, seps)], -1)) == [Link(child, parent)]
  {
    var row := indent + Interleave(fields, seps);
    ParseRowOfColumns(indent, fields, seps, -1);
    ParseIntOrDefaultToString(child, 0);
    ParseIntOrDefaultToString(parent, 0);
    assert [header, row][1..] == [row];
    ParseRowsSingle(row, -1);
  }

  /** The pids of a snapshot. */
  function Pids(links: seq<Link>): set<int> {
    set l | l in links :: l.pid
  }

  /** The processes naming `x` as parent, other than `x` itself; only which links are
      present matters, not their order. */
  function ChildrenIn(links: seq<Link>, x: int): (kids: set<int>)
    ensures kids <= Pids(links)
  {
    set l | l in links && l.ppid == x && l.pid != x :: l.pid
  }

  /** `t` holds the children of `root` and the children of each of its members, `root` aside. */
  ghost predicate ClosedUnder(links: seq<Link>, root: int, t: set<int>) {
    && ChildrenIn(links, root) - {root} <= t
    && forall x :: x in t ==> ChildrenIn(links, x) - {root} <= t
  }

  /** The descendants of `root`: the least set closed under the parent links. */
  ghost predicate IsDescendantSet(links: seq<Link>, root: int, d: set<int>) {
    && ClosedUnder(links, root, d)
    && forall t :: ClosedUnder(links, root, t) ==> d <= t
  }

  /** A proper subset is smaller. */
  lemma ProperSubsetSmaller(a: set<int>, b: set<int>, x: int)
    requires a <= b && x in b && x !in a
    ensures |a| < |b|
  {
    assert b == a + (b - a);
    assert x in b - a;
  }

  /** Every pid of `desc` or `root` that has left the frontier has all its children in `desc`. */
  ghost predicate Expanded(links: seq<Link>, root: int, desc: set<int>, frontier: set<int>) {
    forall x :: x in desc + {root} && x !in frontier ==> ChildrenIn(links, x) - {root} <= desc
  }

  /** `desc` lies inside every closed set. */
  ghost predicate BelowEveryClosed(links: seq<Link>, root: int, desc: set<int>) {
    forall t :: ClosedUnder(links, root, t) ==> desc <= t
  }

  /** Adding the children of an expanded pid keeps `desc` inside every closed set. */
  lemma ExpandKeepsBelow(links: seq<Link>, root: int, desc: set<int>, x: int)
    requires BelowEveryClosed(links, root, desc)
    requires x == root || x in desc
    ensures BelowEveryClosed(links, root, desc + (ChildrenIn(links, x) - {root}))
  {
    forall t | ClosedUnder(links, root, t)
      ensures desc + (ChildrenIn(links, x) - {root}) <= t
    {
      assert desc <= t;
    }
  }

  /** Moving `x` out of the frontier after adding its new children keeps the expansion invariant. */
  lemma ExpandKeepsExpanded(links: seq<Link>, root: int, desc: set<int>, frontier: set<int>, x: int)
    requires Expanded(links, root, desc, frontier) && x in frontier
    ensures var newKids := ChildrenIn(links, x) - {root} - desc;
      Expanded(links, root, desc + newKids, frontier - {x} + newKids)
  {
    var newKids := ChildrenIn(links, x) - {root} - desc;
    var desc' := desc + newKids;
    var frontier' := frontier - {x} + newKids;
    forall y | y in desc' + {root} && y !in frontier'
      ensures ChildrenIn(links, y) - {root} <= desc'
    {
      if y != x {
        assert y in desc + {root} && y !in frontier;
      }
    }
  }

  /** With the frontier empty, the expansion invariant is closure. */
  lemma ExpandedIsClosed(links: seq<Link>, root: int, desc: set<int>)
    requires Expanded(links, root, desc, {})
    ensures ClosedUnder(links, root, desc)
  {
    assert root in desc + {root};
    forall x | x in desc
      ensures ChildrenIn(links, x) - {root} <= desc
    {
      assert x in desc + {root};
    }
  }

  /** The facts the closure loop keeps about its visited set and frontier. */
  ghost predicate ClosureInvariant(links: seq<Link>, root: int, desc: set<int>, frontier: set<int>) {
    && desc <= Pids(links) && root !in desc
    && frontier <= desc + {root}
    && Expanded(links, root, desc, frontier)
    && BelowEveryClosed(links, root, desc)
  }

  /**
   * Expanding one frontier pid keeps the loop's facts and makes progress: the
   * visited set grows, or it stays and the frontier shrinks.
   */
  lemma ExpandStep(links: seq<Link>, root: int, desc: set<int>, frontier: set<int>, x: int)
    requires ClosureInvariant(links, root, desc, frontier) && x in frontier
    ensures var newKids := ChildrenIn(links, x) - {root} - desc;
      && ClosureInvariant(links, root, desc + newKids, frontier - {x} + newKids)
      && (|Pids(links) - (desc + newKids)| < |Pids(links) - desc|
          || (newKids == {} && |frontier - {x}| < |frontier|))
  {
    var newKids := ChildrenIn(links, x) - {root} - desc;
    ExpandKeepsBelow(links, root, desc, x);
    ExpandKeepsExpanded(links, root, desc, frontier, x);
    assert desc + newKids == desc + (ChildrenIn(links, x) - {root});
    if newKids != {} {
      var y :| y in newKids;
      ProperSubsetSmaller(Pids(links) - (desc + newKids), Pids(links) - desc, y);
    }
  }

  /** Before the loop: nothing visited, the root alone on the frontier. */
  lemma ClosureStart(links: seq<Link>, root: int)
    ensures ClosureInvariant(links, root, {}, {root})
  {
  }

  /** After the loop: with the frontier empty, the visited set is the closure. */
  lemma ClosureEnd(links: seq<Link>, root: int, desc: set<int>)
    requires ClosureInvariant(links, root, desc, {})
    ensures root !in desc && desc <= Pids(links)
    ensures IsDescendantSet(links, root, desc)
  {
    ExpandedIsClosed(links, root, desc);
  }

  /**
   * The descendant closure: a visited set and a frontier, each visited pid expanded
   * once, so a snapshot whose links form a cycle still ends. The result is the least
   * set closed under the links, and never holds `root`.
   */
  method Descendants(links: seq<Link>, root: int) returns (desc: set<int>)
    ensures root !in desc
    ensures desc <= Pids(links)
    ensures IsDescendantSet(links, root, desc)
  {
    desc := {};
    var frontier := {root};
    ClosureStart(links, root);
    while frontier != {}
      invariant ClosureInvariant(links, root, desc, frontier)
      decreases |Pids(links) - desc|, |frontier|
    {
      var x :| x in frontier;
      ExpandStep(links, root, desc, frontier, x);
      var newKids := ChildrenIn(links, x) - {root} - desc;
      desc := desc + newKids;
      frontier := frontier - {x} + newKids;
    }
    ClosureEnd(links, root, desc);
  }

  /** The texts of a set of pids: `String.valueOf` on each. */
  function PidTexts(pids: set<int>): set<string> {
    set p | p in pids :: IntToString(p)
  }

  /** Every pid has its text among the texts. */
  lemma PidTextsHasText(pids: set<int>, p: int)
    requires p in pids
    ensures IntToString(p) in PidTexts(pids)
  {
  }

  /** The closure is determined by the links: two descendant sets of the same root agree. */
  lemma DescendantSetUnique(links: seq<Link>, root: int, d1: set<int>, d2: set<int>)
    requires IsDescendantSet(links, root, d1) && IsDescendantSet(links, root, d2)
    ensures d1 == d2
  {
  }

  /** Whatever the order of the links, the descendants are the same. */
  lemma {:induction false} DescendantsIgnoreLinkOrder(links1: seq<Link>, links2: seq<Link>, root: int, d: set<int>)
    requires multiset(links1) == multiset(links2)
    requires IsDescendantSet(links1, root, d)
    ensures IsDescendantSet(links2, root, d)
  {
    forall x
      ensures ChildrenIn(links1, x) == ChildrenIn(links2, x)
    {
      assert forall l :: l in links1 <==> l in multiset(links1);
      assert forall l :: l in links2 <==> l in multiset(links2);
    }
  }

  /** A root with children 2 and 3, and 4 a child of 2. */
  function TreeLinks(): seq<Link> {
    [Link(4, 2), Link(2, 1), Link(3, 1)]
  }

  /** The descendants of 1 in that tree are 2, 3 and 4. */
  lemma DescendantsOfTree(d: set<int>)
    requires IsDescendantSet(TreeLinks(), 1, d)
    ensures d == {2, 3, 4}
  {
    var links := TreeLinks();
    assert forall l :: l in links <==> l == Link(4, 2) || l == Link(2, 1) || l == Link(3, 1);
    assert ChildrenIn(links, 1) == {2, 3};
    assert ChildrenIn(links, 2) == {4};
    assert ChildrenIn(links, 3) == {};
    assert ChildrenIn(links, 4) == {};
    assert ClosedUnder(links, 1, {2, 3, 4});
    assert 2 in d;
  }

  /** Two processes that name each other as parent. */
  function CycleLinks(): seq<Link> {
    [Link(5, 6), Link(6, 5)]
  }

  /** Following the cycle from 5 gives 6 alone, and ends. */
  lemma DescendantsOfCycle(d: set<int>)
    requires IsDescendantSet(CycleLinks(), 5, d)
    ensures d == {6}
  {
    var links := CycleLinks();
    assert forall l :: l in links <==> l == Link(5, 6) || l == Link(6, 5);
    assert ChildrenIn(links, 5) == {6};
    assert ChildrenIn(links, 6) == {5};
    assert ClosedUnder(links, 5, {6});
  }

  /**
   * `queryDescendantProcesses(parentPid)`: one full listing for the links, the
   * descendant pids as text, then the pid-list query as for children.
   */
  method QueryDescendantProcesses(run: string -> seq<string>, parentPid: Int32)
    returns (procs: seq<ProcessRecord>, issued: seq<string>)
    ensures |issued| >= 1 && issued[0] == ALL_PROCESSES_COMMAND
    ensures var snapshot := ParseProcessList(run(ALL_PROCESSES_COMMAND), -1);
      exists d :: IsDescendantSet(Links(snapshot), parentPid, d)
        && (d == {} ==> procs == [] && |issued| == 1)
        && (d != {} ==> |issued| == 2
                        && IsPidListCommand(issued[1], PidTexts(d))
                        && procs == ParseProcessList(run(issued[1]), -1))
  {
    var snapshot := ProcessListFromPs(run, ALL_PROCESSES_COMMAND, -1);
    var d := Descendants(Links(snapshot), parentPid);
    var pids := PidTexts(d);
    if d != {} {
      var p :| p in d;
      PidTextsHasText(d, p);
    }
    var more;
    procs, more := QueryPidList(run, pids);
    issued := [ALL_PROCESSES_COMMAND] + more;
  }
}
