/** Reconstructing the process tree from the event log: a fold over the lines, parent/child edges
    resolved once all lines are read, and a deterministic order of the records. */
module ProcessTree {
  import opened Basics
  import opened EventLog

  /** The part of an event's `data` the reconstruction reads, by the event's kind: exec; fork,
      clone, clone3 and vfork; exit; anything else. */
  datatype Data =
    | Exec(execPath: string, cmdline: string, cwd: string)
    | Spawn(childPid: int)
    | Exit(exitCode: int)
    | OtherData

  /** One line of the log as the JSON parser presents it. */
  datatype LogLine =
    | Blank
    | Unparseable
    | Event(isProcess: bool, tgid: int, pid: int, ppid: int, comm: string, uid: nat, gid: nat, ts: nat, data: Data)

  datatype ProcessRecord = ProcessRecord(
    pid: int, tgid: int, ppid: int, comm: string, execPath: string, cmdline: string, cwd: string,
    uid: nat, gid: nat, startTs: nat, endTs: Option<nat>, exitCode: Option<int>, children: seq<int>)

  datatype Tree = Tree(rootPid: int, processes: seq<ProcessRecord>)

  type Table = map<int, ProcessRecord>

  datatype Scan = Scan(table: Table, edges: seq<(int, int)>, malformed: nat)

  /** A process event that creates or updates a record. */
  predicate Counts(l: LogLine) {
    l.Event? && l.isProcess && l.tgid != 0
  }

  function Touched(table: Table, e: LogLine): ProcessRecord
    requires e.Event?
  {
    if e.tgid in table then table[e.tgid]
    else ProcessRecord(e.pid, e.tgid, e.ppid, e.comm, "", "", "", e.uid, e.gid, e.ts, None, None, [])
  }

  function Updated(r: ProcessRecord, e: LogLine): ProcessRecord
    requires e.Event?
  {
    match e.data
    case Exec(execPath, cmdline, cwd) =>
      r.(execPath := execPath, cmdline := cmdline, cwd := cwd, comm := if r.comm == "" then e.comm else r.comm)
    case Exit(exitCode) => r.(endTs := Some(e.ts), exitCode := Some(exitCode))
    case _ => r
  }

  function ScanLine(st: Scan, l: LogLine): Scan {
    if l.Unparseable? then st.(malformed := st.malformed + 1)
    else if !Counts(l) then st
    else
      Scan(st.table[l.tgid := Updated(Touched(st.table, l), l)],
           if l.data.Spawn? && l.data.childPid != 0 && l.data.childPid != l.tgid
           then st.edges + [(l.tgid, l.data.childPid)] else st.edges,
           st.malformed)
  }

  function ScanAll(lines: seq<LogLine>): Scan {
    if lines == [] then Scan(map[], [], 0)
    else ScanLine(ScanAll(lines[..|lines| - 1]), lines[|lines| - 1])
  }

  function ResolveEdge(table: Table, edge: (int, int)): Table {
    var (parent, child) := edge;
    if parent == child || parent !in table || child !in table || child in table[parent].children then table
    else table[parent := table[parent].(children := table[parent].children + [child])]
  }

  function Resolve(table: Table, edges: seq<(int, int)>): Table {
    if edges == [] then table
    else ResolveEdge(Resolve(table, edges[..|edges| - 1]), edges[|edges| - 1])
  }

  /** The finished records, by tgid. */
  function Finished(lines: seq<LogLine>): Table {
    Resolve(ScanAll(lines).table, ScanAll(lines).edges)
  }

  predicate Before(a: ProcessRecord, b: ProcessRecord) {
    a.startTs < b.startTs || (a.startTs == b.startTs && a.tgid < b.tgid)
  }

  /** The output order: by start time, then tgid. */
  ghost predicate Ascending(s: seq<ProcessRecord>) {
    forall i, j :: 0 <= i < j < |s| ==>
      s[i].startTs < s[j].startTs || (s[i].startTs == s[j].startTs && s[i].tgid < s[j].tgid)
  }

  method ResolveEdges(scanned: Table, edges: seq<(int, int)>) returns (table: Table)
    ensures table == Resolve(scanned, edges)
  {
    table := scanned;
    for i := 0 to |edges|
      invariant table == Resolve(scanned, edges[..i])
    {
      assert edges[..i + 1][..i] == edges[..i];
      var (parent, child) := edges[i];
      if parent == child {
        continue;
      }
      if parent !in table {
        continue;
      }
      if child !in table {
        continue;
      }
      var kids := table[parent].children;
      if child !in kids {
        kids := kids + [child];
        table := table[parent := table[parent].(children := kids)];
      }
    }
    assert edges[..|edges|] == edges;
  }

  ghost predicate Keyed(table: Table) {
    forall t :: t in table ==> table[t].tgid == t
  }

  function InsertRecord(s: seq<ProcessRecord>, r: ProcessRecord): seq<ProcessRecord> {
    if s == [] || Before(r, s[0]) then [r] + s else [s[0]] + InsertRecord(s[1..], r)
  }

  lemma AscendingFront(h: ProcessRecord, rest: seq<ProcessRecord>)
    ensures Ascending([h] + rest) <==> Ascending(rest) && forall x :: x in rest ==> Before(h, x)
  {
    var s := [h] + rest;
    if Ascending(s) {
      forall x | x in rest ensures Before(h, x) {
        var k :| 0 <= k < |rest| && rest[k] == x;
        assert s[k + 1] == x && s[0] == h;
      }
      forall i, j | 0 <= i < j < |rest| ensures Before(rest[i], rest[j]) {
        assert s[i + 1] == rest[i] && s[j + 1] == rest[j];
      }
    } else if Ascending(rest) && forall x :: x in rest ==> Before(h, x) {
      forall i, j | 0 <= i < j < |s| ensures Before(s[i], s[j]) {
        assert s[j] == rest[j - 1] && rest[j - 1] in rest;
        assert i > 0 ==> s[i] == rest[i - 1];
      }
    }
  }

  lemma {:induction false} InsertRecordSorted(s: seq<ProcessRecord>, r: ProcessRecord)
    requires Ascending(s) && forall x :: x in s ==> x.tgid != r.tgid
    ensures Ascending(InsertRecord(s, r))
    ensures forall x :: x in InsertRecord(s, r) <==> x in s || x == r
  {
    if s != [] {
      assert s == [s[0]] + s[1..];
      assert s[0] in s && forall x :: x in s <==> x == s[0] || x in s[1..];
      AscendingFront(s[0], s[1..]);
      if Before(r, s[0]) {
        AscendingFront(r, s);
      } else {
        InsertRecordSorted(s[1..], r);
        AscendingFront(s[0], InsertRecord(s[1..], r));
      }
    }
  }

  /** Walk the table in any order, keeping the records sorted. */
  method SortedRecords(table: Table) returns (records: seq<ProcessRecord>)
    requires Keyed(table)
    ensures forall r :: r in records <==> r.tgid in table && table[r.tgid] == r
    ensures Ascending(records)
  {
    records := [];
    var left: set<int> := table.Keys;
    while left != {}
      invariant left <= table.Keys
      invariant forall r :: r in records <==> r.tgid in table && r.tgid !in left && table[r.tgid] == r
      invariant Ascending(records)
      decreases |left|
    {
      NonEmptyHasMember(left);
      var t :| t in left;
      InsertRecordSorted(records, table[t]);
      records := InsertRecord(records, table[t]);
      left := left - {t};
    }
  }

  lemma {:induction false} ScanKeyed(lines: seq<LogLine>)
    ensures Keyed(ScanAll(lines).table)
    ensures forall t :: t in ScanAll(lines).table ==> ScanAll(lines).table[t].children == []
  {
    if lines != [] {
      ScanKeyed(lines[..|lines| - 1]);
    }
  }

  lemma {:induction false} ResolveKeeps(table: Table, edges: seq<(int, int)>)
    ensures Resolve(table, edges).Keys == table.Keys
    ensures forall t :: t in table ==> Resolve(table, edges)[t].(children := table[t].children) == table[t]
  {
    if edges != [] {
      ResolveKeeps(table, edges[..|edges| - 1]);
    }
  }

  lemma FinishedKeyed(lines: seq<LogLine>)
    ensures Keyed(Finished(lines))
  {
    ScanKeyed(lines);
    var st := ScanAll(lines);
    ResolveKeeps(st.table, st.edges);
    forall t | t in Finished(lines) ensures Finished(lines)[t].tgid == t {
      assert t in Finished(lines).Keys;
      assert st.table[t].tgid == t;
    }
  }

  /** The reconstruction.  The result does not depend on the order in which the hash map is walked:
      the records and their order are determined (see OrderIsUnique). */
  method ReconstructTree(lines: seq<LogLine>, rootPid: int) returns (tree: Tree, malformed: nat)
    ensures tree.rootPid == rootPid && malformed == ScanAll(lines).malformed
    ensures forall r :: r in tree.processes <==> r.tgid in Finished(lines) && Finished(lines)[r.tgid] == r
    ensures Ascending(tree.processes)
  {
    var byTgid: Table := map[];
    var candidateEdges: seq<(int, int)> := [];
    malformed := 0;
    for i := 0 to |lines|
      invariant Scan(byTgid, candidateEdges, malformed) == ScanAll(lines[..i])
    {
      assert lines[..i + 1][..i] == lines[..i];
      var l := lines[i];
      if l.Blank? {
        continue;
      }
      if l.Unparseable? {
        malformed := malformed + 1;
        continue;
      }
      if !l.isProcess {
        continue;
      }
      if l.tgid == 0 {
        continue;
      }
      if l.tgid !in byTgid {
        byTgid := byTgid[l.tgid := ProcessRecord(l.pid, l.tgid, l.ppid, l.comm, "", "", "", l.uid, l.gid, l.ts, None, None, [])];
      }
      var rec := byTgid[l.tgid];
      match l.data {
        case Exec(execPath, cmdline, cwd) =>
          rec := rec.(execPath := execPath, cmdline := cmdline, cwd := cwd);
          if rec.comm == "" {
            rec := rec.(comm := l.comm);
          }
        case Spawn(childPid) =>
          if childPid != 0 && childPid != l.tgid {
            candidateEdges := candidateEdges + [(l.tgid, childPid)];
          }
        case Exit(exitCode) =>
          rec := rec.(endTs := Some(l.ts), exitCode := Some(exitCode));
        case OtherData =>
      }
      byTgid := byTgid[l.tgid := rec];
    }
    assert lines[..|lines|] == lines;
    byTgid := ResolveEdges(byTgid, candidateEdges);
    FinishedKeyed(lines);
    var processes := SortedRecords(byTgid);
    tree := Tree(rootPid, processes);
  }

  // ------------------------------------------------------------------------------ which records

  lemma {:induction false} ScanKeys(lines: seq<LogLine>, t: int)
    ensures t in ScanAll(lines).table <==> exists l :: l in lines && Counts(l) && l.tgid == t
  {
    if lines == [] {
    } else {
      var n := |lines| - 1;
      ScanKeys(lines[..n], t);
      assert forall l :: l in lines <==> l in lines[..n] || l == lines[n];
    }
  }

  /** There is one record for each nonzero tgid with a process event, and no other. */
  lemma RecordPerTgid(lines: seq<LogLine>, t: int)
    ensures t in Finished(lines) <==> t != 0 && exists l :: l in lines && l.Event? && l.isProcess && l.tgid == t
  {
    ScanKeys(lines, t);
    ResolveKeeps(ScanAll(lines).table, ScanAll(lines).edges);
    assert t in Finished(lines) <==> t in Finished(lines).Keys;
  }

  // ------------------------------------------------------------------------------ what they say

  predicate Own(l: LogLine, t: int) {
    t != 0 && l.Event? && l.isProcess && l.tgid == t
  }

  /** The first event of process `t`; -1 if there is none. */
  function FirstOwn(lines: seq<LogLine>, t: int): (r: int)
    ensures -1 <= r < |lines|
    ensures r >= 0 ==> Own(lines[r], t)
    ensures forall i :: 0 <= i < |lines| && (r < 0 || i < r) ==> !Own(lines[i], t)
  {
    if lines == [] then -1
    else
      var n := |lines| - 1;
      var r := FirstOwn(lines[..n], t);
      if r >= 0 then r else if Own(lines[n], t) then n else -1
  }

  /** The last exit of process `t`; -1 if there is none. */
  function LastExit(lines: seq<LogLine>, t: int): (r: int)
    ensures -1 <= r < |lines|
    ensures r >= 0 ==> Own(lines[r], t) && lines[r].data.Exit?
    ensures forall i :: r < i < |lines| ==> !(Own(lines[i], t) && lines[i].data.Exit?)
  {
    if lines == [] then -1
    else
      var n := |lines| - 1;
      if Own(lines[n], t) && lines[n].data.Exit? then n else LastExit(lines[..n], t)
  }

  /** The last exec of process `t`; -1 if there is none. */
  function LastExec(lines: seq<LogLine>, t: int): (r: int)
    ensures -1 <= r < |lines|
    ensures r >= 0 ==> Own(lines[r], t) && lines[r].data.Exec?
    ensures forall i :: r < i < |lines| ==> !(Own(lines[i], t) && lines[i].data.Exec?)
  {
    if lines == [] then -1
    else
      var n := |lines| - 1;
      if Own(lines[n], t) && lines[n].data.Exec? then n else LastExec(lines[..n], t)
  }

  /** An event of process `t` that can name it: its first event or an exec, with a nonempty comm. */
  predicate Names(lines: seq<LogLine>, t: int, i: nat)
    requires i < |lines|
  {
    Own(lines[i], t) && lines[i].comm != "" && (lines[i].data.Exec? || i == FirstOwn(lines, t))
  }

  /** The first event that names process `t`; -1 if there is none. */
  function FirstNaming(lines: seq<LogLine>, t: int): (r: int)
    ensures -1 <= r < |lines|
    ensures r >= 0 ==> Names(lines, t, r)
    ensures forall i :: 0 <= i < |lines| && (r < 0 || i < r) ==> !Names(lines, t, i)
  {
    if lines == [] then -1
    else
      var n := |lines| - 1;
      var r := FirstNaming(lines[..n], t);
      assert forall i :: 0 <= i < n ==> (Names(lines, t, i) <==> Names(lines[..n], t, i));
      if r >= 0 then r else if Names(lines, t, n) then n else -1
  }

  /** A record's identity and start time come from the process's first event, its end from its last
      exit, its program from its last exec; without an exit or an exec those fields stay empty.  Its
      comm is the first nonempty one among that first event and the execs. */
  ghost predicate Says(r: ProcessRecord, lines: seq<LogLine>, t: int) {
    var first, exit, exec := FirstOwn(lines, t), LastExit(lines, t), LastExec(lines, t);
    && first >= 0 && r.tgid == t
    && (r.pid, r.ppid, r.uid, r.gid, r.startTs)
       == (lines[first].pid, lines[first].ppid, lines[first].uid, lines[first].gid, lines[first].ts)
    && (r.endTs, r.exitCode) == (if exit < 0 then (None, None) else (Some(lines[exit].ts), Some(lines[exit].data.exitCode)))
    && (r.execPath, r.cmdline, r.cwd)
       == (if exec < 0 then ("", "", "") else (lines[exec].data.execPath, lines[exec].data.cmdline, lines[exec].data.cwd))
    && r.comm == (if FirstNaming(lines, t) < 0 then "" else lines[FirstNaming(lines, t)].comm)
  }

  lemma SaysStep(r: ProcessRecord, lines: seq<LogLine>, t: int)
    requires lines != [] && Says(r, lines[..|lines| - 1], t)
    ensures var l := lines[|lines| - 1]; Says(if Own(l, t) then Updated(r, l) else r, lines, t)
  {
  }

  lemma NoEarlierEvent(lines: seq<LogLine>, t: int)
    requires forall l :: l in lines ==> !Own(l, t)
    ensures FirstOwn(lines, t) == LastExit(lines, t) == LastExec(lines, t) == FirstNaming(lines, t) == -1
  {
    assert forall i :: 0 <= i < |lines| ==> lines[i] in lines;
  }

  lemma {:induction false} ScannedSays(lines: seq<LogLine>, t: int)
    requires t in ScanAll(lines).table
    ensures Says(ScanAll(lines).table[t], lines, t)
  {
    var n := |lines| - 1;
    if t in ScanAll(lines[..n]).table {
      ScannedSays(lines[..n], t);
      SaysStep(ScanAll(lines[..n]).table[t], lines, t);
    } else {
      ScanKeys(lines[..n], t);
      NoEarlierEvent(lines[..n], t);
    }
  }

  lemma RecordSays(lines: seq<LogLine>, t: int)
    requires t in Finished(lines)
    ensures Says(Finished(lines)[t], lines, t)
  {
    ResolveKeeps(ScanAll(lines).table, ScanAll(lines).edges);
    assert t in Finished(lines).Keys;
    ScannedSays(lines, t);
  }

  // --------------------------------------------------------------------------------- the edges

  /** Some fork, clone, clone3 or vfork event of `p` names `c`. */
  ghost predicate Spawned(lines: seq<LogLine>, p: int, c: int) {
    p != 0 && exists l :: l in lines && l.Event? && l.isProcess && l.tgid == p && l.data == Spawn(c)
  }

  lemma {:induction false} ScanEdges(lines: seq<LogLine>, p: int, c: int)
    ensures (p, c) in ScanAll(lines).edges <==> Spawned(lines, p, c) && c != 0 && c != p
  {
    if lines == [] {
    } else {
      var n := |lines| - 1;
      ScanEdges(lines[..n], p, c);
      assert forall l :: l in lines <==> l in lines[..n] || l == lines[n];
    }
  }

  predicate NoDuplicates(s: seq<int>) {
    forall i, j :: 0 <= i < j < |s| ==> s[i] != s[j]
  }

  lemma {:induction false} ResolveChildren(table: Table, edges: seq<(int, int)>, p: int, c: int)
    requires p in table && table[p].children == []
    ensures p in Resolve(table, edges)
    ensures c in Resolve(table, edges)[p].children <==> (p, c) in edges && p != c && c in table
    ensures NoDuplicates(Resolve(table, edges)[p].children)
  {
    ResolveKeeps(table, edges);
    assert p in Resolve(table, edges).Keys;
    if edges == [] {
    } else {
      var n := |edges| - 1;
      ResolveChildren(table, edges[..n], p, c);
      ResolveKeeps(table, edges[..n]);
      var before := Resolve(table, edges[..n]);
      assert forall t :: t in before <==> t in before.Keys;
      assert edges == edges[..n] + [edges[n]];
      assert (p, c) in edges <==> (p, c) in edges[..n] || (p, c) == edges[n];
    }
  }

  /** `c` is a child of `p` iff a fork or clone event of `p` names it, it is neither zero nor `p`,
      and it was itself observed as a process; children lists hold no duplicates. */
  lemma ChildrenAreSpawned(lines: seq<LogLine>, p: int, c: int)
    requires p in Finished(lines)
    ensures c in Finished(lines)[p].children <==> Spawned(lines, p, c) && c != 0 && c != p && c in Finished(lines)
    ensures NoDuplicates(Finished(lines)[p].children)
  {
    var st := ScanAll(lines);
    ResolveKeeps(st.table, st.edges);
    assert p in Finished(lines).Keys && (c in Finished(lines) <==> c in Finished(lines).Keys);
    ScanKeyed(lines);
    ScanEdges(lines, p, c);
    ResolveChildren(st.table, st.edges, p, c);
  }

  /** Permuting the log changes neither which processes are recorded nor who is whose child. */
  lemma PermutationIrrelevant(a: seq<LogLine>, b: seq<LogLine>, p: int, c: int)
    requires multiset(a) == multiset(b)
    ensures p in Finished(a) <==> p in Finished(b)
    ensures p in Finished(a) ==> (c in Finished(a)[p].children <==> c in Finished(b)[p].children)
  {
    forall l ensures l in a <==> l in b {
      assert l in a <==> l in multiset(a);
      assert l in b <==> l in multiset(b);
    }
    RecordPerTgid(a, p);
    RecordPerTgid(b, p);
    RecordPerTgid(a, c);
    RecordPerTgid(b, c);
    if p in Finished(a) {
      ChildrenAreSpawned(a, p, c);
      ChildrenAreSpawned(b, p, c);
    }
  }

  /** Only the process's own events, in their order, shape its record. */
  function OwnLines(lines: seq<LogLine>, t: int): seq<LogLine> {
    if lines == [] then []
    else
      var n := |lines| - 1;
      OwnLines(lines[..n], t) + (if Counts(lines[n]) && lines[n].tgid == t then [lines[n]] else [])
  }

  lemma {:induction false} InterleavingIrrelevant(lines: seq<LogLine>, t: int)
    ensures t in ScanAll(lines).table <==> t in ScanAll(OwnLines(lines, t)).table
    ensures t in ScanAll(lines).table ==> ScanAll(lines).table[t] == ScanAll(OwnLines(lines, t)).table[t]
  {
    if lines == [] {
    } else {
      var n := |lines| - 1;
      InterleavingIrrelevant(lines[..n], t);
      var own := OwnLines(lines[..n], t);
      if Counts(lines[n]) && lines[n].tgid == t {
        assert (own + [lines[n]])[..|own|] == own;
      } else {
        assert own + [] == own;
      }
    }
  }

  // --------------------------------------------------------------------------------- the order

  lemma HeadMember(a: seq<ProcessRecord>)
    ensures a != [] ==> a[0] in a
  {
  }

  lemma TailMember(a: seq<ProcessRecord>, r: ProcessRecord)
    requires Ascending(a) && a != []
    ensures r in a[1..] <==> r in a && r != a[0]
  {
    if r in a[1..] {
      var k :| 0 <= k < |a[1..]| && a[1..][k] == r;
      assert Before(a[0], a[k + 1]);
    }
  }

  lemma HeadsAgree(a: seq<ProcessRecord>, b: seq<ProcessRecord>)
    requires Ascending(a) && Ascending(b) && a != [] && b != []
    requires a[0] in b && b[0] in a
    ensures a[0] == b[0]
  {
    var i :| 0 <= i < |b| && b[i] == a[0];
    var j :| 0 <= j < |a| && a[j] == b[0];
  }

  /** Two ascending sequences of the same records are equal, so the output is determined. */
  lemma {:induction false} OrderIsUnique(a: seq<ProcessRecord>, b: seq<ProcessRecord>)
    requires Ascending(a) && Ascending(b)
    requires forall r :: r in a <==> r in b
    ensures a == b
  {
    HeadMember(a);
    HeadMember(b);
    if a != [] {
      assert b != [];
      HeadsAgree(a, b);
      forall r ensures r in a[1..] <==> r in b[1..] {
        TailMember(a, r);
        TailMember(b, r);
      }
      OrderIsUnique(a[1..], b[1..]);
      assert a == [a[0]] + a[1..] && b == [b[0]] + b[1..];
    }
  }

  // ------------------------------------------------------------- counts, and the order of children

  function Unparseables(lines: seq<LogLine>): set<int> {
    set i | 0 <= i < |lines| && lines[i].Unparseable?
  }

  /** The malformed count is the number of lines that do not parse, wherever they stand. */
  lemma {:induction false} MalformedCounted(lines: seq<LogLine>)
    ensures ScanAll(lines).malformed == |Unparseables(lines)|
  {
    if lines != [] {
      var n := |lines| - 1;
      MalformedCounted(lines[..n]);
      assert Unparseables(lines) == Unparseables(lines[..n]) + (if lines[n].Unparseable? then {n} else {});
    }
  }

  lemma {:induction false} EdgesGrow(lines: seq<LogLine>, k: nat)
    requires k <= |lines|
    ensures ScanAll(lines[..k]).edges <= ScanAll(lines).edges
  {
    if k == |lines| {
      assert lines[..k] == lines;
    } else {
      var n := |lines| - 1;
      EdgesGrow(lines[..n], k);
      assert lines[..n][..k] == lines[..k];
    }
  }

  lemma {:induction false} ChildrenGrow(table: Table, edges: seq<(int, int)>, k: nat, p: int)
    requires p in table && k <= |edges|
    ensures p in Resolve(table, edges[..k]) && p in Resolve(table, edges)
    ensures Resolve(table, edges[..k])[p].children <= Resolve(table, edges)[p].children
  {
    ResolveKeeps(table, edges[..k]);
    ResolveKeeps(table, edges);
    assert p in Resolve(table, edges[..k]).Keys && p in Resolve(table, edges).Keys;
    if k == |edges| {
      assert edges[..k] == edges;
    } else {
      var n := |edges| - 1;
      ChildrenGrow(table, edges[..n], k, p);
      assert edges[..n][..k] == edges[..k];
    }
  }

  lemma EdgesInOrder(table: Table, edges: seq<(int, int)>, k: nat, p: int, i: nat, j: nat)
    requires p in table && table[p].children == [] && k <= |edges|
    requires p in Resolve(table, edges) && i < j < |Resolve(table, edges)[p].children|
    requires (p, Resolve(table, edges)[p].children[j]) in edges[..k]
    ensures (p, Resolve(table, edges)[p].children[i]) in edges[..k]
  {
    ChildrenGrow(table, edges, k, p);
    var early, kids := Resolve(table, edges[..k])[p].children, Resolve(table, edges)[p].children;
    assert kids[j] in kids;
    ResolveChildren(table, edges, p, kids[j]);
    ResolveChildren(table, edges[..k], p, kids[j]);
    var m :| 0 <= m < |early| && early[m] == kids[j];
    assert kids[m] == kids[j];
    assert kids[i] == early[i] && early[i] in early;
    ResolveChildren(table, edges[..k], p, kids[i]);
  }

  /** Children stand in the order in which the log first names them: every beginning of the log that
      names the later of two children names the earlier one too. */
  lemma ChildrenInOrder(lines: seq<LogLine>, p: int, i: nat, j: nat, k: nat)
    requires p in Finished(lines) && i < j < |Finished(lines)[p].children| && k <= |lines|
    ensures Spawned(lines[..k], p, Finished(lines)[p].children[j]) ==> Spawned(lines[..k], p, Finished(lines)[p].children[i])
  {
    var kids := Finished(lines)[p].children;
    if Spawned(lines[..k], p, kids[j]) {
      var st, early := ScanAll(lines), ScanAll(lines[..k]).edges;
      ResolveKeeps(st.table, st.edges);
      assert p in Finished(lines).Keys;
      ScanKeyed(lines);
      EdgesGrow(lines, k);
      assert st.edges[..|early|] == early;
      assert kids[j] in kids;
      ChildrenAreSpawned(lines, p, kids[j]);
      ScanEdges(lines[..k], p, kids[j]);
      EdgesInOrder(st.table, st.edges, |early|, p, i, j);
      ScanEdges(lines[..k], p, kids[i]);
    }
  }
}
