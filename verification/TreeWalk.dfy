/** Walking a process tree that may be corrupt: the printer with its cycle and depth guards, the
    line-budgeted printer of the summary, and the search for orphans. */
module TreeWalk {
  import opened Basics

  /** One recorded process. */
  datatype Node = Node(ppid: int, children: seq<int>)

  type Graph = map<int, Node>

  /** An output line; NodeLine stands for the line that describes a recorded process. */
  datatype Line = NodeLine(pid: int, cycle: bool) | MissingLine(pid: int) | MaxDepthLine | EllipsisLine

  const MAX_DEPTH: nat := 512

  // ------------------------------------------------------------------------------- print_node

  function WalkAll(g: Graph, pids: seq<int>, visited: set<int>, depth: nat): seq<Line>
    requires depth < MAX_DEPTH
    decreases MAX_DEPTH - depth, 1 + |pids|
  {
    if pids == [] then []
    else WalkAll(g, pids[..|pids| - 1], visited, depth) + Walk(g, pids[|pids| - 1], visited, depth)
  }

  function Walk(g: Graph, pid: int, visited: set<int>, depth: nat): seq<Line>
    requires depth < MAX_DEPTH
    decreases MAX_DEPTH - depth, 0
  {
    if pid !in g then [MissingLine(pid)]
    else if pid in visited then [NodeLine(pid, true)]
    else
      [NodeLine(pid, false)]
      + if depth + 1 >= MAX_DEPTH then (if g[pid].children != [] then [MaxDepthLine] else [])
        else WalkAll(g, g[pid].children, visited + {pid}, depth + 1)
  }

  predicate Distinct(s: seq<int>) {
    forall i, j :: 0 <= i < j < |s| ==> s[i] != s[j]
  }

  function Members(s: seq<int>): set<int> {
    set x | x in s
  }

  lemma LongerChain(chain: seq<int>, pid: int)
    requires Distinct(chain) && pid !in Members(chain)
    ensures Distinct(chain + [pid]) && Members(chain + [pid]) == Members(chain) + {pid}
  {
    forall i, j | 0 <= i < j < |chain + [pid]| ensures (chain + [pid])[i] != (chain + [pid])[j] {
      assert chain[i] in Members(chain);
    }
  }

  lemma WalkExpands(g: Graph, pid: int, visited: set<int>, depth: nat, out: seq<Line>)
    requires pid in g && pid !in visited && depth + 1 < MAX_DEPTH
    ensures out + Walk(g, pid, visited, depth)
            == out + [NodeLine(pid, false)] + WalkAll(g, g[pid].children, visited + {pid}, depth + 1)
  {
  }

  lemma WalkAllExtends(g: Graph, pids: seq<int>, i: nat, visited: set<int>, depth: nat, out: seq<Line>)
    requires i < |pids| && depth < MAX_DEPTH
    ensures out + WalkAll(g, pids[..i + 1], visited, depth)
            == out + WalkAll(g, pids[..i], visited, depth) + Walk(g, pids[i], visited, depth)
  {
    assert pids[..i + 1][..i] == pids[..i];
  }

  /** The printer: its output, and the pids on the way down to the node being printed. */
  class Printer {
    var out: seq<Line>
    var visited: set<int>

    constructor ()
      ensures out == [] && visited == {}
    {
      out, visited := [], {};
    }

    /** `chain` lists the nodes being expanded: every call finds it pairwise distinct, exactly the
        visited set, and as long as the nesting depth, which stays below 512.  The visited set
        returns to its entry value. */
    method PrintNode(g: Graph, pid: int, depth: nat, ghost chain: seq<int>)
      requires depth < MAX_DEPTH && |chain| == depth && Distinct(chain)
      requires visited == Members(chain)
      modifies this
      ensures out == old(out) + Walk(g, pid, old(visited), depth)
      ensures visited == old(visited)
      decreases MAX_DEPTH - depth
    {
      if pid !in g {
        out := out + [MissingLine(pid)];
        return;
      }
      if pid in visited {
        out := out + [NodeLine(pid, true)];
        return;
      }
      ghost var before := visited;
      visited := visited + {pid};
      out := out + [NodeLine(pid, false)];
      var children := g[pid].children;
      if depth + 1 >= MAX_DEPTH {
        if children != [] {
          out := out + [MaxDepthLine];
        }
        visited := visited - {pid};
        return;
      }
      ghost var start := out;
      ghost var longer := chain + [pid];
      LongerChain(chain, pid);
      for i := 0 to |children|
        invariant visited == before + {pid}
        invariant out == start + WalkAll(g, children[..i], visited, depth + 1)
      {
        WalkAllExtends(g, children, i, visited, depth + 1, start);
        PrintNode(g, children[i], depth + 1, longer);
      }
      assert children[..|children|] == children;
      WalkExpands(g, pid, before, depth, old(out));
      visited := visited - {pid};
      assert visited == before;
    }
  }

  // ------------------------------------------------- every node within reach, exactly once

  ghost predicate IsParent(g: Graph, p: int, c: int) {
    p in g && c in g[p].children
  }

  /** No pid is listed twice as a child, and the root not at all. */
  ghost predicate Forest(g: Graph, root: int) {
    && (forall p, q, c :: IsParent(g, p, c) && IsParent(g, q, c) ==> p == q)
    && (forall p :: p in g ==> Distinct(g[p].children))
    && (forall p :: !IsParent(g, p, root))
  }

  /** `x` is reached from `n` over exactly `k` edges. */
  ghost predicate Reaches(g: Graph, n: int, x: int, k: nat)
    decreases k
  {
    if k == 0 then n == x else exists p :: IsParent(g, p, x) && Reaches(g, n, p, k - 1)
  }

  lemma {:induction false} DepthIsUnique(g: Graph, root: int, x: int, j: nat, k: nat)
    requires Forest(g, root) && Reaches(g, root, x, j) && Reaches(g, root, x, k)
    ensures j == k
    decreases k
  {
    if j > 0 && k > 0 {
      var p :| IsParent(g, p, x) && Reaches(g, root, p, j - 1);
      var q :| IsParent(g, q, x) && Reaches(g, root, q, k - 1);
      DepthIsUnique(g, root, p, j - 1, k - 1);
    }
  }

  lemma {:induction false} AncestorIsUnique(g: Graph, root: int, n: int, m: int, x: int, k: nat)
    requires Forest(g, root) && Reaches(g, n, x, k) && Reaches(g, m, x, k)
    ensures n == m
    decreases k
  {
    if k > 0 {
      var p :| IsParent(g, p, x) && Reaches(g, n, p, k - 1);
      var q :| IsParent(g, q, x) && Reaches(g, m, q, k - 1);
      AncestorIsUnique(g, root, n, m, p, k - 1);
    }
  }

  lemma {:induction false} ReachesTrans(g: Graph, a: int, b: int, c: int, j: nat, k: nat)
    requires Reaches(g, a, b, j) && Reaches(g, b, c, k)
    ensures Reaches(g, a, c, j + k)
    decreases k
  {
    if k > 0 {
      var p :| IsParent(g, p, c) && Reaches(g, b, p, k - 1);
      ReachesTrans(g, a, b, p, j, k - 1);
    }
  }

  /** A way down starts with a step to a child. */
  lemma {:induction false} FirstStep(g: Graph, n: int, x: int, k: nat)
    requires k > 0 && Reaches(g, n, x, k)
    ensures exists c :: IsParent(g, n, c) && Reaches(g, c, x, k - 1)
    decreases k
  {
    var p :| IsParent(g, p, x) && Reaches(g, n, p, k - 1);
    if k == 1 {
      assert IsParent(g, n, x) && Reaches(g, x, x, 0);
    } else {
      FirstStep(g, n, p, k - 1);
      var c :| IsParent(g, n, c) && Reaches(g, c, p, k - 2);
      assert Reaches(g, c, x, k - 1);
    }
  }

  /** `x` lies at most `room` edges below `n`. */
  ghost predicate Below(g: Graph, n: int, x: int, room: nat) {
    exists k: nat :: k <= room && Reaches(g, n, x, k)
  }

  lemma BelowByChild(g: Graph, n: int, x: int, room: nat)
    ensures Below(g, n, x, room)
            <==> n == x || (room > 0 && exists c :: IsParent(g, n, c) && Below(g, c, x, room - 1))
  {
    if n == x {
      assert Reaches(g, n, x, 0);
    }
    if Below(g, n, x, room) && n != x {
      var k: nat :| k <= room && Reaches(g, n, x, k);
      FirstStep(g, n, x, k);
      var c :| IsParent(g, n, c) && Reaches(g, c, x, k - 1);
      assert Below(g, c, x, room - 1);
    }
    if room > 0 {
      forall c | IsParent(g, n, c) && Below(g, c, x, room - 1) ensures Below(g, n, x, room) {
        var k: nat :| k <= room - 1 && Reaches(g, c, x, k);
        assert Reaches(g, n, n, 0);
        assert Reaches(g, n, c, 1);
        ReachesTrans(g, n, c, x, 1, k);
      }
    }
  }

  function Printed(lines: seq<Line>, x: int): nat {
    if lines == [] then 0
    else Printed(lines[..|lines| - 1], x) + (var l := lines[|lines| - 1]; if l.NodeLine? && l.pid == x then 1 else 0)
  }

  predicate NoCycleMarker(lines: seq<Line>) {
    forall l :: l in lines && l.NodeLine? ==> !l.cycle
  }

  lemma {:induction false} PrintedConcat(a: seq<Line>, b: seq<Line>, x: int)
    ensures Printed(a + b, x) == Printed(a, x) + Printed(b, x)
  {
    if b == [] {
      assert a + b == a;
    } else {
      var n := |b| - 1;
      PrintedConcat(a, b[..n], x);
      assert (a + b)[..|a| + n] == a + b[..n];
    }
  }

  /** Every visited pid lies strictly above depth `d`. */
  ghost predicate Above(g: Graph, root: int, visited: set<int>, d: nat) {
    forall v :: v in visited ==> exists j: nat :: j < d && Reaches(g, root, v, j)
  }

  lemma NoNodeLines(lines: seq<Line>, x: int)
    requires lines == [] || lines == [MaxDepthLine]
    ensures Printed(lines, x) == 0
  {
    if lines != [] {
      assert lines[..0] == [];
    }
  }

  lemma NotVisitedAgain(g: Graph, root: int, n: int, visited: set<int>, d: nat)
    requires Forest(g, root) && Reaches(g, root, n, d) && Above(g, root, visited, d)
    ensures n !in visited
  {
    if n in visited {
      var j: nat :| j < d && Reaches(g, root, n, j);
      DepthIsUnique(g, root, n, j, d);
    }
  }

  lemma ExpandedAbove(g: Graph, root: int, n: int, visited: set<int>, d: nat)
    requires Reaches(g, root, n, d) && Above(g, root, visited, d)
    ensures Above(g, root, visited + {n}, d + 1)
  {
    forall v | v in visited + {n} ensures exists j: nat :: j < d + 1 && Reaches(g, root, v, j) {
      if v in visited {
        var j: nat :| j < d && Reaches(g, root, v, j);
      }
    }
  }

  lemma NotBelowItself(g: Graph, root: int, n: int, d: nat, room: nat)
    requires Forest(g, root) && Reaches(g, root, n, d)
    ensures forall c :: IsParent(g, n, c) ==> !Below(g, c, n, room)
  {
    forall c | IsParent(g, n, c) ensures !Below(g, c, n, room) {
      if Below(g, c, n, room) {
        var k: nat :| k <= room && Reaches(g, c, n, k);
        assert Reaches(g, root, c, d + 1);
        ReachesTrans(g, root, c, n, d + 1, k);
        DepthIsUnique(g, root, n, d, d + 1 + k);
      }
    }
  }

  /** Some of `pids` has `x` at most `room` edges below it. */
  ghost predicate AnyBelow(g: Graph, pids: seq<int>, x: int, room: nat) {
    exists c :: c in pids && Below(g, c, x, room)
  }

  lemma AnyBelowSplits(g: Graph, pids: seq<int>, x: int, room: nat)
    requires pids != []
    ensures var m := |pids| - 1;
            AnyBelow(g, pids, x, room) <==> AnyBelow(g, pids[..m], x, room) || Below(g, pids[m], x, room)
  {
    assert forall b :: b in pids <==> b in pids[..|pids| - 1] || b == pids[|pids| - 1];
  }

  /** Siblings share no descendant. */
  lemma SiblingsDisjoint(g: Graph, root: int, a: int, b: int, d: nat, x: int, room: nat)
    requires Forest(g, root) && Reaches(g, root, a, d) && Reaches(g, root, b, d) && a != b
    ensures !(Below(g, a, x, room) && Below(g, b, x, room))
  {
    if Below(g, a, x, room) && Below(g, b, x, room) {
      var j: nat :| j <= room && Reaches(g, a, x, j);
      var k: nat :| k <= room && Reaches(g, b, x, k);
      ReachesTrans(g, root, a, x, d, j);
      ReachesTrans(g, root, b, x, d, k);
      DepthIsUnique(g, root, x, d + j, d + k);
      AncestorIsUnique(g, root, a, b, x, k);
    }
  }

  lemma LastIsApart(g: Graph, root: int, front: seq<int>, c: int, d: nat, x: int, room: nat)
    requires Forest(g, root) && c !in front && Reaches(g, root, c, d)
    requires forall b :: b in front ==> Reaches(g, root, b, d)
    ensures !(AnyBelow(g, front, x, room) && Below(g, c, x, room))
  {
    forall b | b in front ensures !(Below(g, b, x, room) && Below(g, c, x, room)) {
      SiblingsDisjoint(g, root, b, c, d, x, room);
    }
  }

  lemma {:induction false} WalkAllPrints(g: Graph, root: int, pids: seq<int>, visited: set<int>, d: nat, x: int)
    requires Forest(g, root) && d < MAX_DEPTH && Above(g, root, visited, d) && Distinct(pids) && x in g
    requires forall c :: c in pids ==> Reaches(g, root, c, d)
    ensures Printed(WalkAll(g, pids, visited, d), x)
            == if AnyBelow(g, pids, x, MAX_DEPTH - 1 - d) then 1 else 0
    ensures NoCycleMarker(WalkAll(g, pids, visited, d))
    decreases MAX_DEPTH - d, 1 + |pids|
  {
    if pids == [] {
    } else {
      var m := |pids| - 1;
      var front, c := pids[..m], pids[m];
      var room := MAX_DEPTH - 1 - d;
      WalkAllPrints(g, root, front, visited, d, x);
      WalkPrints(g, root, c, visited, d, x);
      PrintedConcat(WalkAll(g, front, visited, d), Walk(g, c, visited, d), x);
      AnyBelowSplits(g, pids, x, room);
      LastIsApart(g, root, front, c, d, x, room);
    }
  }

  lemma {:induction false} WalkPrints(g: Graph, root: int, n: int, visited: set<int>, d: nat, x: int)
    requires Forest(g, root) && d < MAX_DEPTH && Reaches(g, root, n, d) && Above(g, root, visited, d) && x in g
    ensures Printed(Walk(g, n, visited, d), x) == if Below(g, n, x, MAX_DEPTH - 1 - d) then 1 else 0
    ensures NoCycleMarker(Walk(g, n, visited, d))
    decreases MAX_DEPTH - d, 0
  {
    BelowByChild(g, n, x, MAX_DEPTH - 1 - d);
    var lines := Walk(g, n, visited, d);
    if n !in g {
      assert lines[..0] == [];
    } else {
      NotVisitedAgain(g, root, n, visited, d);
      var head, tail := [NodeLine(n, false)], lines[1..];
      assert head[..0] == [];
      PrintedConcat(head, tail, x);
      assert lines == head + tail;
      if d + 1 >= MAX_DEPTH {
        NoNodeLines(tail, x);
      } else {
        ExpandedAbove(g, root, n, visited, d);
        forall c | c in g[n].children ensures Reaches(g, root, c, d + 1) {
          assert IsParent(g, n, c);
        }
        WalkAllPrints(g, root, g[n].children, visited + {n}, d + 1, x);
        assert tail == WalkAll(g, g[n].children, visited + {n}, d + 1);
        NotBelowItself(g, root, n, d, MAX_DEPTH - 2 - d);
        assert forall c :: IsParent(g, n, c) <==> c in g[n].children;
        assert AnyBelow(g, g[n].children, x, MAX_DEPTH - 2 - d)
               <==> exists c :: IsParent(g, n, c) && Below(g, c, x, MAX_DEPTH - 2 - d);
      }
    }
  }

  /** On a forest each recorded node within 511 edges of the root is printed exactly once, any
      other not at all, and no cycle marker is printed. */
  lemma EachNodeOnce(g: Graph, root: int, x: int)
    requires Forest(g, root) && x in g
    ensures Printed(Walk(g, root, {}, 0), x) == if Below(g, root, x, 511) then 1 else 0
    ensures NoCycleMarker(Walk(g, root, {}, 0))
  {
    WalkPrints(g, root, root, {}, 0, x);
  }

  // ------------------------------------------------------------------------- budgeted print_tree

  function PrintAll(g: Graph, pids: seq<int>, budget: int): (r: (seq<Line>, int))
    ensures r.1 <= budget && (budget >= 0 ==> r.1 >= 0)
    decreases if budget > 0 then budget else 0, 1 + |pids|
  {
    if pids == [] then ([], budget)
    else if budget <= 0 then ([EllipsisLine], budget)
    else
      var (first, left) := Print(g, pids[0], budget);
      var (rest, left') := PrintAll(g, pids[1..], left);
      (first + rest, left')
  }

  /** The lines printed and the budget left. */
  function Print(g: Graph, pid: int, budget: int): (r: (seq<Line>, int))
    ensures r.1 <= budget && (budget >= 0 ==> r.1 >= 0)
    decreases if budget > 0 then budget else 0, 0
  {
    if budget <= 0 || pid !in g then ([], budget)
    else
      var (below, left) := PrintAll(g, g[pid].children, budget - 1);
      ([NodeLine(pid, false)] + below, left)
  }

  method PrintTree(g: Graph, pid: int, budget: int) returns (lines: seq<Line>, left: int)
    ensures (lines, left) == Print(g, pid, budget)
    decreases if budget > 0 then budget else 0
  {
    lines, left := [], budget;
    if left <= 0 {
      return;
    }
    if pid !in g {
      return;
    }
    left := left - 1;
    lines := lines + [NodeLine(pid, false)];
    var children := g[pid].children;
    assert children[0..] == children && lines == [NodeLine(pid, false)];
    var i := 0;
    while i < |children|
      invariant 0 <= i <= |children| && left < budget
      invariant var (rest, end) := PrintAll(g, children[i..], left);
                Print(g, pid, budget) == (lines + rest, end)
    {
      if left <= 0 {
        lines := lines + [EllipsisLine];
        return;
      }
      var below;
      ghost var before := lines;
      below, left := PrintTree(g, children[i], left);
      lines := lines + below;
      assert children[i..][1..] == children[i + 1..];
      assert forall rest: seq<Line> :: before + (below + rest) == lines + rest;
      i := i + 1;
    }
    assert lines + [] == lines;
  }

  function NodeOf(line: Line): seq<int> {
    if line.NodeLine? then [line.pid] else []
  }

  function NodesOf(lines: seq<Line>): seq<int> {
    if lines == [] then [] else NodeOf(lines[0]) + NodesOf(lines[1..])
  }

  lemma HeadOfConcat(a: seq<Line>, b: seq<Line>)
    requires a != []
    ensures NodesOf(a + b) == NodeOf(a[0]) + NodesOf(a[1..] + b)
  {
    assert (a + b)[1..] == a[1..] + b;
  }

  lemma HeadRegroups(line: Line, x: seq<int>, y: seq<int>)
    ensures NodeOf(line) + (x + y) == NodeOf(line) + x + y
  {
  }

  lemma {:induction false} NodesConcat(a: seq<Line>, b: seq<Line>)
    ensures NodesOf(a + b) == NodesOf(a) + NodesOf(b)
  {
    if a == [] {
      assert a + b == b;
    } else {
      NodesConcat(a[1..], b);
      HeadOfConcat(a, b);
      HeadRegroups(a[0], NodesOf(a[1..]), NodesOf(b));
    }
  }

  lemma {:induction false} BudgetSpentAll(g: Graph, pids: seq<int>, budget: int)
    ensures |NodesOf(PrintAll(g, pids, budget).0)| == budget - PrintAll(g, pids, budget).1
    decreases if budget > 0 then budget else 0, 1 + |pids|
  {
    if pids == [] {
    } else if budget <= 0 {
      assert NodesOf([EllipsisLine]) == [] + NodesOf([]);
    } else {
      var (first, left) := Print(g, pids[0], budget);
      BudgetSpent(g, pids[0], budget);
      BudgetSpentAll(g, pids[1..], left);
      NodesConcat(first, PrintAll(g, pids[1..], left).0);
    }
  }

  /** On any graph, exactly the spent budget is printed as node lines. */
  lemma {:induction false} BudgetSpent(g: Graph, pid: int, budget: int)
    ensures |NodesOf(Print(g, pid, budget).0)| == budget - Print(g, pid, budget).1
    decreases if budget > 0 then budget else 0, 0
  {
    if budget > 0 && pid in g {
      var below := PrintAll(g, g[pid].children, budget - 1).0;
      BudgetSpentAll(g, g[pid].children, budget - 1);
      NodesConcat([NodeLine(pid, false)], below);
      assert NodesOf([NodeLine(pid, false)]) == [pid] + NodesOf([]);
    }
  }

  /** At most the budget of node lines is printed, on any graph, cyclic ones included. */
  lemma PrintTreeWithinBudget(g: Graph, pid: int, budget: nat)
    ensures |NodesOf(Print(g, pid, budget).0)| <= budget
  {
    BudgetSpent(g, pid, budget);
  }

  // ------------------------------------------------------------------------------------ orphans

  const MAX_HOPS: nat := 1000

  /** The k-th pid of the ppid chain; None once the chain has stopped at an unknown pid, at a ppid
      of zero or at a self-parent. */
  function Hop(g: Graph, start: int, k: nat): Option<int> {
    if k == 0 then Some(start)
    else
      match Hop(g, start, k - 1)
      case None => None
      case Some(cur) => if cur !in g || g[cur].ppid == 0 || g[cur].ppid == cur then None else Some(g[cur].ppid)
  }

  /** The ppid chain from `start` reaches the root. */
  ghost predicate ChainReaches(g: Graph, root: int, start: int) {
    exists k: nat :: Hop(g, start, k) == Some(root)
  }

  /** The ppid chain from `start` reaches the root within the walk. */
  ghost predicate Near(g: Graph, root: int, start: int) {
    exists k: nat :: k < 1000 && Hop(g, start, k) == Some(root)
  }

  lemma {:induction false} HopStops(g: Graph, start: int, j: nat, k: nat)
    requires j <= k && Hop(g, start, j) == None
    ensures Hop(g, start, k) == None
  {
    if j < k {
      HopStops(g, start, j, k - 1);
    }
  }

  method IsReachable(g: Graph, root: int, start: int) returns (reachable: bool)
    ensures reachable <==> Near(g, root, start)
  {
    var cur := start;
    var hop := 0;
    while hop < MAX_HOPS
      invariant 0 <= hop <= MAX_HOPS
      invariant hop < MAX_HOPS ==> Hop(g, start, hop) == Some(cur)
      invariant forall k: nat :: k < hop ==> Hop(g, start, k) != Some(root)
    {
      if cur == root {
        return true;
      }
      if cur !in g || g[cur].ppid == 0 || g[cur].ppid == cur {
        forall k: nat | hop < k ensures Hop(g, start, k) == None {
          HopStops(g, start, hop + 1, k);
        }
        return false;
      }
      cur := g[cur].ppid;
      hop := hop + 1;
    }
    reachable := false;
  }

  lemma {:induction false} HopShift(g: Graph, start: int, i: nat, j: nat, m: nat)
    requires Hop(g, start, i) == Hop(g, start, j)
    ensures Hop(g, start, i + m) == Hop(g, start, j + m)
  {
    if m > 0 {
      HopShift(g, start, i, j, m - 1);
    }
  }

  /** `k` is the first hop at which the chain is at the root. */
  ghost predicate FirstArrival(g: Graph, root: int, start: int, k: nat) {
    Hop(g, start, k) == Some(root) && forall i: nat :: i < k ==> Hop(g, start, i) != Some(root)
  }

  lemma {:induction false} FirstArrivalExists(g: Graph, root: int, start: int, k: nat)
    requires Hop(g, start, k) == Some(root)
    ensures exists j: nat :: j <= k && FirstArrival(g, root, start, j)
  {
    if i: nat :| i < k && Hop(g, start, i) == Some(root) {
      FirstArrivalExists(g, root, start, i);
    } else {
      assert FirstArrival(g, root, start, k);
    }
  }

  /** Before it arrives, the chain never visits a pid twice. */
  lemma NoRepeat(g: Graph, root: int, start: int, k: nat, i: nat, j: nat)
    requires FirstArrival(g, root, start, k) && i < j < k
    ensures Hop(g, start, i) != Hop(g, start, j)
  {
    if Hop(g, start, i) == Hop(g, start, j) {
      HopShift(g, start, i, j, k - j);
    }
  }

  ghost predicate VisitedBy(g: Graph, start: int, n: nat, x: int) {
    exists i: nat :: i < n && Hop(g, start, i) == Some(x)
  }

  /** The pids of the first `n` hops: `n` different recorded pids, none of them the root. */
  lemma {:induction false} DistinctHops(g: Graph, root: int, start: int, k: nat, n: nat) returns (s: set<int>)
    requires FirstArrival(g, root, start, k) && n <= k
    ensures |s| == n && s <= g.Keys - {root}
    ensures forall x :: x in s ==> VisitedBy(g, start, n, x)
  {
    if n == 0 {
      s := {};
    } else {
      s := DistinctHops(g, root, start, k, n - 1);
      if Hop(g, start, n - 1) == None {
        HopStops(g, start, n - 1, k);
      }
      var cur := Hop(g, start, n - 1).value;
      if cur in s {
        assert VisitedBy(g, start, n - 1, cur);
        var i: nat :| i < n - 1 && Hop(g, start, i) == Some(cur);
        NoRepeat(g, root, start, k, i, n - 1);
      }
      if Hop(g, start, n) == None {
        HopStops(g, start, n, k);
      }
      assert cur in g.Keys - {root};
      ghost var before := s;
      s := s + {cur};
      forall x | x in s ensures VisitedBy(g, start, n, x) {
        if x in before {
          assert VisitedBy(g, start, n - 1, x);
          var i: nat :| i < n - 1 && Hop(g, start, i) == Some(x);
        } else {
          assert Hop(g, start, n - 1) == Some(x);
        }
      }
    }
  }

  lemma {:induction false} SubsetSize(a: set<int>, b: set<int>)
    requires a <= b
    ensures |a| <= |b|
  {
    NonEmptyHasMember(a);
    if a != {} {
      var x :| x in a;
      SubsetSize(a - {x}, b - {x});
    }
  }

  /** Pigeonhole: with at most 999 records besides the root, 1000 hops decide reachability. */
  lemma ThousandHopsSuffice(g: Graph, root: int, start: int)
    requires |g.Keys - {root}| < 1000
    ensures ChainReaches(g, root, start) <==> Near(g, root, start)
  {
    if ChainReaches(g, root, start) {
      var k: nat :| Hop(g, start, k) == Some(root);
      FirstArrivalExists(g, root, start, k);
      var j: nat :| j <= k && FirstArrival(g, root, start, j);
      var s := DistinctHops(g, root, start, j, j);
      SubsetSize(s, g.Keys - {root});
      assert j < 1000 && Hop(g, start, j) == Some(root);
    }
  }

  datatype Rec = Rec(tgid: int, node: Node)

  function Index(records: seq<Rec>): Graph {
    if records == [] then map[]
    else var r := records[|records| - 1]; Index(records[..|records| - 1])[r.tgid := r.node]
  }

  ghost predicate IsOrphan(r: Rec, g: Graph, root: int) {
    r.tgid != root && !Near(g, root, r.tgid)
  }

  /** The recorded processes other than the root from which the walk does not reach it, in order. */
  ghost function Orphans(records: seq<Rec>, g: Graph, root: int): seq<int> {
    if records == [] then []
    else
      var n := |records| - 1;
      Orphans(records[..n], g, root)
      + (if IsOrphan(records[n], g, root) then [records[n].tgid] else [])
  }

  method FindOrphans(records: seq<Rec>, root: int) returns (orphans: seq<int>)
    ensures orphans == Orphans(records, Index(records), root)
  {
    var byTgid: Graph := map[];
    for i := 0 to |records|
      invariant byTgid == Index(records[..i])
    {
      assert records[..i + 1][..i] == records[..i];
      byTgid := byTgid[records[i].tgid := records[i].node];
    }
    assert records[..|records|] == records;
    orphans := [];
    for i := 0 to |records|
      invariant orphans == Orphans(records[..i], byTgid, root)
    {
      assert records[..i + 1][..i] == records[..i];
      var t := records[i].tgid;
      if t == root {
        continue;
      }
      var reachable := IsReachable(byTgid, root, t);
      if !reachable {
        orphans := orphans + [t];
      }
    }
  }

  /** With at most 999 records besides the root, the orphans are exactly the recorded processes
      other than the root whose ppid chain never reaches it. */
  lemma {:induction false} OrphansAreUnreachable(records: seq<Rec>, g: Graph, root: int, t: int)
    requires |g.Keys - {root}| < 1000
    ensures t in Orphans(records, g, root)
            <==> t != root && (exists r :: r in records && r.tgid == t) && !ChainReaches(g, root, t)
  {
    if records == [] {
    } else {
      var n := |records| - 1;
      OrphansAreUnreachable(records[..n], g, root, t);
      ThousandHopsSuffice(g, root, t);
      assert forall r :: r in records <==> r in records[..n] || r == records[n];
    }
  }

  /** On any records: a process whose chain does reach the root is still called an orphan if and only
      if the chain first arrives there at hop 1000 or later. */
  lemma MissedIff(g: Graph, root: int, start: int)
    ensures ChainReaches(g, root, start) && !Near(g, root, start)
            <==> exists k: nat :: k >= 1000 && FirstArrival(g, root, start, k)
  {
    if ChainReaches(g, root, start) {
      var k: nat :| Hop(g, start, k) == Some(root);
      FirstArrivalExists(g, root, start, k);
    }
  }

  /** A straight chain of `n` processes: 1 is the child of 2, 2 of 3, and so on. */
  function Straight(n: nat): Graph {
    if n == 0 then map[] else Straight(n - 1)[n := Node(n + 1, [])]
  }

  lemma {:induction false} StraightNodes(n: nat, i: int)
    ensures i in Straight(n) <==> 1 <= i <= n
    ensures 1 <= i <= n ==> Straight(n)[i].ppid == i + 1
  {
    if n > 0 {
      StraightNodes(n - 1, i);
    }
  }

  lemma {:induction false} StraightHops(n: nat, k: nat)
    requires k <= n
    ensures Hop(Straight(n), 1, k) == Some(k + 1)
  {
    if k > 0 {
      StraightHops(n, k - 1);
      StraightNodes(n, k);
    }
  }

  /** The bound is tight: with 1000 other records a reachable process can be called an orphan. */
  lemma ThousandHopsCanMiss()
    ensures var g := Straight(1000);
            && ChainReaches(g, 1001, 1)
            && !Near(g, 1001, 1)
  {
    StraightHops(1000, 1000);
    forall k: nat | k < 1000 ensures Hop(Straight(1000), 1, k) != Some(1001) {
      StraightHops(1000, k);
    }
  }

  // -------------------------------------------------------- the orphans, told without the walk

  predicate NextIsParent(g: Graph, chain: seq<int>, i: nat)
    requires i + 1 < |chain|
  {
    chain[i] in g && g[chain[i]].ppid == chain[i + 1] && chain[i + 1] != 0 && chain[i + 1] != chain[i]
  }

  /** A ppid chain: every pid but the last is recorded, and its ppid, neither zero nor itself, is next. */
  predicate IsChain(g: Graph, chain: seq<int>) {
    chain != [] && forall i :: 0 <= i < |chain| - 1 ==> NextIsParent(g, chain, i)
  }

  lemma {:induction false} HopOfChain(g: Graph, chain: seq<int>)
    requires IsChain(g, chain)
    ensures Hop(g, chain[0], |chain| - 1) == Some(chain[|chain| - 1])
  {
    var n := |chain| - 1;
    if n > 0 {
      var front := chain[..n];
      forall i | 0 <= i < n - 1 ensures NextIsParent(g, front, i) {
        assert NextIsParent(g, chain, i);
      }
      HopOfChain(g, front);
      assert NextIsParent(g, chain, n - 1);
    }
  }

  lemma {:induction false} ChainOfHop(g: Graph, start: int, k: nat) returns (chain: seq<int>)
    requires Hop(g, start, k).Some?
    ensures IsChain(g, chain) && |chain| == k + 1 && chain[0] == start && Some(chain[k]) == Hop(g, start, k)
  {
    if k == 0 {
      chain := [start];
    } else {
      var front := ChainOfHop(g, start, k - 1);
      chain := front + [Hop(g, start, k).value];
      forall i | 0 <= i < k ensures NextIsParent(g, chain, i) {
        if i < k - 1 {
          assert NextIsParent(g, front, i);
        }
      }
    }
  }

  predicate ChainTo(g: Graph, start: int, root: int, chain: seq<int>) {
    IsChain(g, chain) && chain[0] == start && chain[|chain| - 1] == root
  }

  /** A process is taken for connected exactly when a ppid chain of at most 1000 pids, itself and the
      root included, leads from it to the root. */
  lemma NearIff(g: Graph, root: int, start: int)
    ensures Near(g, root, start) <==> exists chain :: ChainTo(g, start, root, chain) && |chain| <= 1000
    ensures ChainReaches(g, root, start) <==> exists chain :: ChainTo(g, start, root, chain)
  {
    if k: nat :| Hop(g, start, k) == Some(root) {
      var chain := ChainOfHop(g, start, k);
      assert ChainTo(g, start, root, chain);
    }
    if k: nat :| k < 1000 && Hop(g, start, k) == Some(root) {
      var chain := ChainOfHop(g, start, k);
      assert ChainTo(g, start, root, chain);
    }
    forall chain | ChainTo(g, start, root, chain)
      ensures Hop(g, start, |chain| - 1) == Some(root)
    {
      HopOfChain(g, chain);
    }
  }

  /** Of records with the same tgid the last one counts. */
  lemma {:induction false} IndexSays(records: seq<Rec>, t: int)
    ensures t !in Index(records) ==> forall i :: 0 <= i < |records| ==> records[i].tgid != t
    ensures t in Index(records) ==> exists i :: 0 <= i < |records| && records[i] == Rec(t, Index(records)[t])
                                               && forall j :: i < j < |records| ==> records[j].tgid != t
  {
    if records != [] {
      var n := |records| - 1;
      IndexSays(records[..n], t);
      if records[n].tgid == t {
        assert records[n] == Rec(t, Index(records)[t]);
      } else if t in Index(records) {
        var i :| 0 <= i < n && records[i] == Rec(t, Index(records[..n])[t]) && forall j :: i < j < n ==> records[j].tgid != t;
        assert records[i] == Rec(t, Index(records)[t]);
      }
    }
  }

  /** The places of the orphans' records, ascending. */
  ghost predicate OrphanPlaces(records: seq<Rec>, g: Graph, root: int, places: seq<nat>) {
    && (forall a, b :: 0 <= a < b < |places| ==> places[a] < places[b])
    && (forall i :: i in places ==> i < |records|)
    && (forall i :: 0 <= i < |records| ==> (i in places <==> IsOrphan(records[i], g, root)))
  }

  lemma PlacesGrow(records: seq<Rec>, g: Graph, root: int, front: seq<nat>)
    requires records != [] && OrphanPlaces(records[..|records| - 1], g, root, front)
    ensures var n := |records| - 1;
            OrphanPlaces(records, g, root, front + if IsOrphan(records[n], g, root) then [n] else [])
  {
    var n := |records| - 1;
    var places := front + if IsOrphan(records[n], g, root) then [n] else [];
    forall i | 0 <= i < |records| ensures i in places <==> IsOrphan(records[i], g, root) {
      assert i in places <==> i in front || (i == n && IsOrphan(records[n], g, root));
      assert i < n ==> records[..n][i] == records[i];
    }
    assert forall a :: 0 <= a < |front| ==> front[a] in front && front[a] < n;
  }

  /** The orphans come in the order of the records, each as often as it is recorded. */
  lemma {:induction false} OrphansInOrder(records: seq<Rec>, g: Graph, root: int) returns (places: seq<nat>)
    ensures OrphanPlaces(records, g, root, places) && |places| == |Orphans(records, g, root)|
    ensures forall a :: 0 <= a < |places| ==> places[a] < |records| && Orphans(records, g, root)[a] == records[places[a]].tgid
  {
    places := [];
    if records != [] {
      var n := |records| - 1;
      var front := OrphansInOrder(records[..n], g, root);
      places := front + if IsOrphan(records[n], g, root) then [n] else [];
      PlacesGrow(records, g, root, front);
    }
  }
}
