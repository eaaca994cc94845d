/** What the two printers of TreeWalk print on any graph, corrupt ones included, told without following
    their recursion: by the ways down from the root. */
module TreeWays {
  import opened Basics
  import opened TreeWalk

  // ------------------------------------------------------------------- the tree, way by way

  /** The node at the end of a way down from the root: `way` says which child to take at each node. */
  function NodeAt(g: Graph, root: int, way: seq<nat>): int {
    if way == [] then root
    else
      var n := |way| - 1;
      var p := NodeAt(g, root, way[..n]);
      if p in g && way[n] < |g[p].children| then g[p].children[way[n]] else p
  }

  /** Step `k` of the way leaves a recorded node to one of its children. */
  predicate GoesOn(g: Graph, root: int, way: seq<nat>, k: nat)
    requires k < |way|
  {
    var p := NodeAt(g, root, way[..k]);
    p in g && way[k] < |g[p].children|
  }

  /** No step leaves a node that an earlier step had left. */
  ghost predicate Acyclic(g: Graph, root: int, way: seq<nat>) {
    forall i, k :: 0 <= i < k < |way| ==> NodeAt(g, root, way[..i]) != NodeAt(g, root, way[..k])
  }

  ghost predicate Open(g: Graph, root: int, way: seq<nat>) {
    (forall k :: 0 <= k < |way| ==> GoesOn(g, root, way, k)) && Acyclic(g, root, way)
  }

  /** The ways that get a line: those of at most 511 steps, and one of 512 to a first child. */
  ghost predicate Shown(g: Graph, root: int, way: seq<nat>) {
    Open(g, root, way) && (|way| <= 511 || (|way| == 512 && way[511] == 0))
  }

  /** The line at the end of a way: a recorded node, marked when the way has come to it before; an
      unrecorded one; or, 512 steps down, the notice of the depth limit. */
  ghost function LineAt(g: Graph, root: int, way: seq<nat>): Line {
    var x := NodeAt(g, root, way);
    if |way| == 512 then MaxDepthLine
    else if x !in g then MissingLine(x)
    else NodeLine(x, exists i :: 0 <= i < |way| && NodeAt(g, root, way[..i]) == x)
  }

  /** The order of the ways: a beginning first, and otherwise by the first step that differs. */
  ghost predicate Less(a: seq<nat>, b: seq<nat>) {
    exists k :: 0 <= k <= |a| && k < |b| && a[..k] == b[..k] && (k == |a| || a[k] < b[k])
  }

  ghost predicate InOrder(ways: seq<seq<nat>>) {
    forall i, j :: 0 <= i < j < |ways| ==> Less(ways[i], ways[j])
  }

  lemma InOrderConcat(a: seq<seq<nat>>, b: seq<seq<nat>>)
    requires InOrder(a) && InOrder(b) && forall x, y :: x in a && y in b ==> Less(x, y)
    ensures InOrder(a + b)
  {
    forall i, j | 0 <= i < j < |a + b| ensures Less((a + b)[i], (a + b)[j]) {
      if i < |a| <= j {
        assert a[i] in a && b[j - |a|] in b;
      }
    }
  }

  /** `way` goes on from `base` by a child numbered `lo` or more, but less than `hi`. */
  predicate From(way: seq<nat>, base: seq<nat>, lo: nat, hi: nat) {
    |base| < |way| && base == way[..|base|] && lo <= way[|base|] < hi
  }

  lemma BaseIsLess(base: seq<nat>, way: seq<nat>)
    requires base < way
    ensures Less(base, way)
  {
    assert base[..|base|] == way[..|base|];
  }

  lemma SiblingIsLess(base: seq<nat>, a: seq<nat>, b: seq<nat>, c: nat, d: nat)
    requires From(a, base, 0, c) && From(b, base, c, d)
    ensures Less(a, b)
  {
    var k := |base|;
    assert a[..k] == b[..k] && a[k] < b[k];
  }

  lemma ChildWay(g: Graph, root: int, base: seq<nat>, c: nat)
    requires NodeAt(g, root, base) in g && c < |g[NodeAt(g, root, base)].children|
    ensures NodeAt(g, root, base + [c]) == g[NodeAt(g, root, base)].children[c]
    ensures GoesOn(g, root, base + [c], |base|)
    ensures forall i :: 0 <= i <= |base| ==> (base + [c])[..i] == base[..i]
  {
    assert (base + [c])[..|base|] == base;
  }

  lemma OpenChild(g: Graph, root: int, base: seq<nat>, c: nat)
    requires Open(g, root, base) && NodeAt(g, root, base) in g && c < |g[NodeAt(g, root, base)].children|
    requires forall i :: 0 <= i < |base| ==> NodeAt(g, root, base[..i]) != NodeAt(g, root, base)
    ensures Open(g, root, base + [c])
  {
    var way := base + [c];
    ChildWay(g, root, base, c);
    assert base[..|base|] == base;
    forall k | 0 <= k < |way| ensures GoesOn(g, root, way, k) {
      if k < |base| {
        assert GoesOn(g, root, base, k) && way[k] == base[k] && way[..k] == base[..k];
      }
    }
    forall i, k | 0 <= i < k < |way| ensures NodeAt(g, root, way[..i]) != NodeAt(g, root, way[..k]) {
      assert way[..i] == base[..i] && way[..k] == base[..k];
    }
  }

  /** What a longer open way says about where it started. */
  lemma OpenBeyond(g: Graph, root: int, base: seq<nat>, way: seq<nat>)
    requires base < way && Open(g, root, way)
    ensures var x := NodeAt(g, root, base);
            x in g && way[|base|] < |g[x].children| && forall i :: 0 <= i < |base| ==> NodeAt(g, root, base[..i]) != x
  {
    assert way[..|base|] == base && GoesOn(g, root, way, |base|);
    assert forall i :: 0 <= i < |base| ==> way[..i] == base[..i];
  }

  ghost predicate VisitedIs(g: Graph, root: int, base: seq<nat>, visited: set<int>) {
    forall v :: v in visited <==> exists i :: 0 <= i < |base| && NodeAt(g, root, base[..i]) == v
  }

  lemma VisitedChild(g: Graph, root: int, base: seq<nat>, visited: set<int>, c: nat)
    requires VisitedIs(g, root, base, visited)
    ensures VisitedIs(g, root, base + [c], visited + {NodeAt(g, root, base)})
  {
    var way := base + [c];
    assert way[..|base|] == base;
    assert forall i :: 0 <= i < |base| ==> way[..i] == base[..i];
    forall v | v in visited ensures exists i :: 0 <= i < |way| && NodeAt(g, root, way[..i]) == v {
      var i :| 0 <= i < |base| && NodeAt(g, root, base[..i]) == v;
      assert NodeAt(g, root, way[..i]) == v;
    }
  }

  /** `lines` are those of `ways`, which are shown and in order. */
  ghost predicate Tells(g: Graph, root: int, ways: seq<seq<nat>>, lines: seq<Line>) {
    && |ways| == |lines| && InOrder(ways)
    && forall i :: 0 <= i < |ways| ==> Shown(g, root, ways[i]) && lines[i] == LineAt(g, root, ways[i])
  }

  lemma TellsConcat(g: Graph, root: int, a: seq<seq<nat>>, la: seq<Line>, b: seq<seq<nat>>, lb: seq<Line>)
    requires Tells(g, root, a, la) && Tells(g, root, b, lb) && forall x, y :: x in a && y in b ==> Less(x, y)
    ensures Tells(g, root, a + b, la + lb)
  {
    InOrderConcat(a, b);
  }

  lemma LineOfNode(g: Graph, root: int, base: seq<nat>, visited: set<int>)
    requires Open(g, root, base) && |base| < 512 && VisitedIs(g, root, base, visited)
    ensures var x := NodeAt(g, root, base);
            Tells(g, root, [base], [if x !in g then MissingLine(x) else NodeLine(x, x in visited)])
  {
  }

  /** At a node where the walk turns back there is nothing below to show. */
  lemma TurnsBack(g: Graph, root: int, base: seq<nat>, visited: set<int>, way: seq<nat>)
    requires VisitedIs(g, root, base, visited) && base < way && Open(g, root, way)
    ensures NodeAt(g, root, base) in g && NodeAt(g, root, base) !in visited
  {
    OpenBeyond(g, root, base, way);
  }

  /** At the depth limit the notice is all there is below. */
  lemma LimitWays(g: Graph, root: int, base: seq<nat>, visited: set<int>) returns (ways: seq<seq<nat>>)
    requires Open(g, root, base) && |base| == 511 && VisitedIs(g, root, base, visited)
    requires NodeAt(g, root, base) in g && NodeAt(g, root, base) !in visited
    ensures Tells(g, root, ways, if g[NodeAt(g, root, base)].children != [] then [MaxDepthLine] else [])
    ensures forall w :: w in ways <==> base < w && Shown(g, root, w)
  {
    var x := NodeAt(g, root, base);
    ways := [];
    if g[x].children != [] {
      ways := [base + [0]];
      OpenChild(g, root, base, 0);
    }
    forall w | base < w && Shown(g, root, w) ensures w in ways {
      OpenBeyond(g, root, base, w);
      assert w == base + [0];
    }
  }

  /** A node's own way in front of the ways below it. */
  lemma Headed(g: Graph, root: int, base: seq<nat>, more: seq<seq<nat>>, head: Line, below: seq<Line>)
    returns (ways: seq<seq<nat>>)
    requires Tells(g, root, [base], [head]) && Tells(g, root, more, below)
    requires forall w :: w in more <==> base < w && Shown(g, root, w)
    ensures Tells(g, root, ways, [head] + below)
    ensures forall w :: w in ways <==> base <= w && Shown(g, root, w)
  {
    forall w | w in more ensures Less(base, w) {
      BaseIsLess(base, w);
    }
    ways := [base] + more;
    TellsConcat(g, root, [base], [head], more, below);
    assert Shown(g, root, [base][0]);
    forall w: seq<nat> | base <= w && Shown(g, root, w) ensures w in ways {
      if w == base {
        assert ways[0] == base;
      } else {
        assert w in more;
      }
    }
  }

  lemma Numbered(way: seq<nat>, base: seq<nat>, c: nat)
    ensures base + [c] <= way <==> From(way, base, c, c + 1)
  {
    if base + [c] <= way {
      assert way[..|base|] == (base + [c])[..|base|] == base && way[|base|] == (base + [c])[|base|];
    }
    if From(way, base, c, c + 1) {
      assert way[..|base| + 1] == base + [c];
    }
  }

  /** The ways through the first `c` children, then those through the next one. */
  lemma Joined(g: Graph, root: int, base: seq<nat>, c: nat, front: seq<seq<nat>>, lines: seq<Line>,
               last: seq<seq<nat>>, below: seq<Line>)
    returns (ways: seq<seq<nat>>)
    requires Tells(g, root, front, lines) && Tells(g, root, last, below)
    requires forall w :: w in front <==> From(w, base, 0, c) && Shown(g, root, w)
    requires forall w :: w in last <==> base + [c] <= w && Shown(g, root, w)
    ensures Tells(g, root, ways, lines + below)
    ensures forall w :: w in ways <==> From(w, base, 0, c + 1) && Shown(g, root, w)
  {
    forall v, w | v in front && w in last ensures Less(v, w) {
      Numbered(w, base, c);
      SiblingIsLess(base, v, w, c, c + 1);
    }
    ways := front + last;
    TellsConcat(g, root, front, lines, last, below);
    forall w: seq<nat> | Shown(g, root, w) ensures w in ways <==> From(w, base, 0, c + 1) {
      Numbered(w, base, c);
      assert w in ways <==> w in front || w in last;
    }
    forall w | w in ways ensures Shown(g, root, w) {
      assert w in front || w in last;
    }
  }

  lemma {:induction false} WalkAllWays(g: Graph, root: int, base: seq<nat>, visited: set<int>, count: nat)
    returns (ways: seq<seq<nat>>)
    requires Open(g, root, base) && |base| + 1 < MAX_DEPTH && VisitedIs(g, root, base, visited)
    requires NodeAt(g, root, base) in g && NodeAt(g, root, base) !in visited
    requires count <= |g[NodeAt(g, root, base)].children|
    ensures var x := NodeAt(g, root, base);
            Tells(g, root, ways, WalkAll(g, g[x].children[..count], visited + {x}, |base| + 1))
    ensures forall w :: w in ways <==> From(w, base, 0, count) && Shown(g, root, w)
    decreases MAX_DEPTH - |base|, 0, count
  {
    ways := [];
    if count > 0 {
      var x, c := NodeAt(g, root, base), base + [count - 1];
      var kids := g[x].children;
      var front := WalkAllWays(g, root, base, visited, count - 1);
      ChildWay(g, root, base, count - 1);
      OpenChild(g, root, base, count - 1);
      VisitedChild(g, root, base, visited, count - 1);
      var last := WalkWays(g, root, c, visited + {x});
      assert WalkAll(g, kids[..count], visited + {x}, |base| + 1)
             == WalkAll(g, kids[..count - 1], visited + {x}, |base| + 1) + Walk(g, kids[count - 1], visited + {x}, |base| + 1) by {
        assert kids[..count][..count - 1] == kids[..count - 1];
      }
      ways := Joined(g, root, base, count - 1, front, WalkAll(g, kids[..count - 1], visited + {x}, |base| + 1),
                     last, Walk(g, kids[count - 1], visited + {x}, |base| + 1));
    }
  }

  lemma {:induction false} WalkWays(g: Graph, root: int, base: seq<nat>, visited: set<int>) returns (ways: seq<seq<nat>>)
    requires Open(g, root, base) && |base| < MAX_DEPTH && VisitedIs(g, root, base, visited)
    ensures Tells(g, root, ways, Walk(g, NodeAt(g, root, base), visited, |base|))
    ensures forall w :: w in ways <==> base <= w && Shown(g, root, w)
    decreases MAX_DEPTH - |base|, 1, 0
  {
    var x := NodeAt(g, root, base);
    var head := if x !in g then MissingLine(x) else NodeLine(x, x in visited);
    var more: seq<seq<nat>> := [];
    ghost var below: seq<Line> := [];
    LineOfNode(g, root, base, visited);
    if x in g && x !in visited {
      if |base| + 1 >= MAX_DEPTH {
        more := LimitWays(g, root, base, visited);
        below := if g[x].children != [] then [MaxDepthLine] else [];
      } else {
        more := WalkAllWays(g, root, base, visited, |g[x].children|);
        assert g[x].children[..|g[x].children|] == g[x].children;
        below := WalkAll(g, g[x].children, visited + {x}, |base| + 1);
      }
    }
    assert Walk(g, x, visited, |base|) == [head] + below;
    forall w: seq<nat> | base < w && Shown(g, root, w) ensures w in more {
      TurnsBack(g, root, base, visited, w);
      OpenBeyond(g, root, base, w);
    }
    forall w | w in more ensures base < w {
      assert base == w[..|base|];
    }
    ways := Headed(g, root, base, more, head, below);
  }

  /** The printed tree on any graph, corrupt ones included: one line for each way that is shown, in
      the order of the ways, so that a node comes before what is below it and the subtree of an
      earlier child before that of a later one. */
  lemma WalkByWays(g: Graph, root: int) returns (ways: seq<seq<nat>>)
    ensures Tells(g, root, ways, Walk(g, root, {}, 0))
    ensures forall w :: w in ways <==> Shown(g, root, w)
  {
    ways := WalkWays(g, root, [], {});
  }

  // ------------------------------------------------------------ the budgeted printer, way by way

  /** The way leads through recorded nodes up to its last step. */
  ghost predicate Passes(g: Graph, root: int, way: seq<nat>) {
    forall k :: 0 <= k < |way| ==> GoesOn(g, root, way, k)
  }

  ghost predicate Recorded(g: Graph, root: int, way: seq<nat>) {
    Passes(g, root, way) && NodeAt(g, root, way) in g
  }

  /** The nodes on the way, from the one after `k` steps on, that have a child after the one taken; the
      last node counts if it has a child at all. */
  function Pending(g: Graph, root: int, way: seq<nat>, k: nat): nat
    requires k <= |way|
    decreases |way| - k
  {
    var p := NodeAt(g, root, way[..k]);
    var kids := if p in g then |g[p].children| else 0;
    if k == |way| then (if kids > 0 then 1 else 0)
    else (if way[k] + 1 < kids then 1 else 0) + Pending(g, root, way, k + 1)
  }

  /** A line for each of `ways`, in order, and then `dots` ellipses. */
  ghost predicate PrintsWays(g: Graph, root: int, ways: seq<seq<nat>>, lines: seq<Line>, dots: nat) {
    && InOrder(ways) && |lines| == |ways| + dots
    && (forall i :: 0 <= i < |ways| ==> lines[i] == NodeLine(NodeAt(g, root, ways[i]), false))
    && (forall i :: |ways| <= i < |lines| ==> lines[i] == EllipsisLine)
  }

  lemma PrintsConcat(g: Graph, root: int, a: seq<seq<nat>>, la: seq<Line>, b: seq<seq<nat>>, lb: seq<Line>, dots: nat)
    requires PrintsWays(g, root, a, la, 0) && PrintsWays(g, root, b, lb, dots)
    requires forall x, y :: x in a && y in b ==> Less(x, y)
    ensures PrintsWays(g, root, a + b, la + lb, dots)
  {
    InOrderConcat(a, b);
  }

  lemma PassesChild(g: Graph, root: int, base: seq<nat>, c: nat)
    requires Passes(g, root, base) && NodeAt(g, root, base) in g && c < |g[NodeAt(g, root, base)].children|
    ensures Passes(g, root, base + [c])
  {
    var way := base + [c];
    ChildWay(g, root, base, c);
    forall k | 0 <= k < |way| ensures GoesOn(g, root, way, k) {
      if k < |base| {
        assert GoesOn(g, root, base, k) && way[k] == base[k] && way[..k] == base[..k];
      }
    }
  }

  lemma PassesBeyond(g: Graph, root: int, base: seq<nat>, way: seq<nat>)
    requires base < way && Passes(g, root, way)
    ensures NodeAt(g, root, base) in g && way[|base|] < |g[NodeAt(g, root, base)].children|
  {
    assert way[..|base|] == base && GoesOn(g, root, way, |base|);
  }

  lemma BeyondIsNotLess(base: seq<nat>, way: seq<nat>)
    requires base <= way
    ensures !Less(way, base)
  {
  }

  lemma LessWithin(base: seq<nat>, v: seq<nat>, w: seq<nat>, lo: nat, hi: nat)
    requires From(v, base, lo, hi) && From(w, base, lo, hi) && Less(v, w)
    ensures v[|base|] <= w[|base|]
  {
    var k :| 0 <= k <= |v| && k < |w| && v[..k] == w[..k] && (k == |v| || v[k] < w[k]);
    if k > |base| {
      assert v[|base|] == v[..k][|base|] && w[|base|] == w[..k][|base|];
    }
  }

  /** The printed ways below `base` are the first recorded ones there: with each printed way, every
      recorded one before it is printed; with budget left, all of them are. */
  ghost predicate First(g: Graph, root: int, base: seq<nat>, ways: seq<seq<nat>>, left: int) {
    && (forall w :: w in ways ==> base <= w && Recorded(g, root, w))
    && (forall v, w :: w in ways && base <= v && Recorded(g, root, v) && Less(v, w) ==> v in ways)
    && (left > 0 ==> forall v :: base <= v && Recorded(g, root, v) ==> v in ways)
  }

  /** The same below `base` by its children from number `lo` on. */
  ghost predicate FirstFrom(g: Graph, root: int, base: seq<nat>, lo: nat, hi: nat, ways: seq<seq<nat>>, left: int) {
    && (forall w :: w in ways ==> From(w, base, lo, hi) && Recorded(g, root, w))
    && (forall v, w :: w in ways && From(v, base, lo, hi) && Recorded(g, root, v) && Less(v, w) ==> v in ways)
    && (left > 0 ==> forall v :: From(v, base, lo, hi) && Recorded(g, root, v) ==> v in ways)
  }

  /** The ellipses below the node after `k` steps of the last printed way: none with budget left. */
  function Dots(g: Graph, root: int, ways: seq<seq<nat>>, k: nat, left: int): nat {
    if left > 0 || ways == [] || |ways[|ways| - 1]| < k then 0 else Pending(g, root, ways[|ways| - 1], k)
  }

  lemma FirstJoined(g: Graph, root: int, base: seq<nat>, c: nat, hi: nat, first: seq<seq<nat>>, left: int,
                    rest: seq<seq<nat>>, left': int)
    requires c < hi && First(g, root, base + [c], first, left) && FirstFrom(g, root, base, c + 1, hi, rest, left')
    requires left' <= left && (left <= 0 ==> rest == [])
    ensures FirstFrom(g, root, base, c, hi, first + rest, left')
    ensures forall v, w :: v in first && w in rest ==> Less(v, w)
  {
    var ways := first + rest;
    forall w | w in ways ensures From(w, base, c, hi) && Recorded(g, root, w) {
      Numbered(w, base, c);
      assert w in first || w in rest;
    }
    forall v: seq<nat> | From(v, base, c, hi) && Recorded(g, root, v)
      ensures base + [c] <= v || From(v, base, c + 1, hi)
    {
      Numbered(v, base, c);
    }
    forall v: seq<nat>, w | w in ways && From(v, base, c, hi) && Recorded(g, root, v) && Less(v, w) ensures v in ways {
      Numbered(v, base, c);
      Numbered(w, base, c);
      LessWithin(base, v, w, c, hi);
      assert w in first || w in rest;
      assert v in first || v in rest;
    }
    forall v, w | v in first && w in rest ensures Less(v, w) {
      Numbered(v, base, c);
      assert From(v, base, 0, c + 1) && From(w, base, c + 1, hi);
      SiblingIsLess(base, v, w, c + 1, hi);
    }
  }

  lemma LastDots(g: Graph, root: int, base: seq<nat>, ways: seq<seq<nat>>, c: nat)
    requires ways != [] && From(ways[|ways| - 1], base, c, c + 1) && NodeAt(g, root, base) in g
    ensures Dots(g, root, ways, |base|, 0)
            == Dots(g, root, ways, |base| + 1, 0) + if c + 1 < |g[NodeAt(g, root, base)].children| then 1 else 0
  {
  }

  lemma MoreDots(g: Graph, root: int, ways: seq<seq<nat>>, lines: seq<Line>, dots: nat, one: seq<Line>)
    requires PrintsWays(g, root, ways, lines, dots) && (one == [] || one == [EllipsisLine])
    ensures PrintsWays(g, root, ways, lines + one, dots + |one|)
  {
  }

  /** What is printed through children `c` and the later ones, put together. */
  lemma PrintJoined(g: Graph, root: int, base: seq<nat>, c: nat, budget: nat, first: seq<seq<nat>>, rest: seq<seq<nat>>)
    requires NodeAt(g, root, base) in g && c < |g[NodeAt(g, root, base)].children| && budget > 0
    requires forall v, w :: v in first && w in rest ==> Less(v, w)
    requires forall w :: w in first ==> From(w, base, c, c + 1)
    requires var kids := g[NodeAt(g, root, base)].children;
             var (a, left) := Print(g, kids[c], budget);
             && PrintsWays(g, root, first, a, Dots(g, root, first, |base| + 1, left)) && |first| == budget - left
             && left >= 0 && var (b, left') := PrintAll(g, kids[c + 1..], left);
                && |rest| == left - left'
                && (left == 0 ==> rest == [])
                && (left > 0 ==> PrintsWays(g, root, rest, b, Dots(g, root, rest, |base|, left')))
    ensures var kids := g[NodeAt(g, root, base)].children;
            var (lines, left') := PrintAll(g, kids[c..], budget);
            PrintsWays(g, root, first + rest, lines, Dots(g, root, first + rest, |base|, left'))
  {
    var kids := g[NodeAt(g, root, base)].children;
    var (a, left) := Print(g, kids[c], budget);
    var (b, left') := PrintAll(g, kids[c + 1..], left);
    assert kids[c..][1..] == kids[c + 1..];
    if left == 0 {
      assert first + rest == first;
      assert first[|first| - 1] in first;
      LastDots(g, root, base, first, c);
      MoreDots(g, root, first, a, Dots(g, root, first, |base| + 1, left), b);
    } else {
      PrintsConcat(g, root, first, a, rest, b, Dots(g, root, rest, |base|, left'));
    }
  }

  lemma HeadFirst(g: Graph, root: int, base: seq<nat>, more: seq<seq<nat>>, left: int)
    requires Recorded(g, root, base)
    requires FirstFrom(g, root, base, 0, |g[NodeAt(g, root, base)].children|, more, left)
    ensures First(g, root, base, [base] + more, left)
  {
    var ways := [base] + more;
    assert ways[0] == base;
    forall v: seq<nat> | base < v && Recorded(g, root, v) ensures From(v, base, 0, |g[NodeAt(g, root, base)].children|) {
      PassesBeyond(g, root, base, v);
    }
    forall w | w in ways ensures base <= w && Recorded(g, root, w) {
      assert w == base || w in more;
    }
    forall v: seq<nat>, w | w in ways && base <= v && Recorded(g, root, v) && Less(v, w) ensures v in ways {
      BeyondIsNotLess(base, v);
      if v != base {
        assert w in more && v in more;
      }
    }
    forall v: seq<nat> | left > 0 && base <= v && Recorded(g, root, v) ensures v in ways {
      if v != base {
        assert v in more;
      }
    }
  }

  lemma PrintHeaded(g: Graph, root: int, base: seq<nat>, budget: nat, more: seq<seq<nat>>) returns (ways: seq<seq<nat>>)
    requires Passes(g, root, base) && NodeAt(g, root, base) in g && budget > 0
    requires var kids := g[NodeAt(g, root, base)].children;
             var (below, left) := PrintAll(g, kids, budget - 1);
             && FirstFrom(g, root, base, 0, |kids|, more, left) && |more| == budget - 1 - left
             && (budget == 1 ==> more == [])
             && (budget > 1 ==> PrintsWays(g, root, more, below, Dots(g, root, more, |base|, left)))
    ensures var (lines, left) := Print(g, NodeAt(g, root, base), budget);
            && First(g, root, base, ways, left) && |ways| == budget - left
            && PrintsWays(g, root, ways, lines, Dots(g, root, ways, |base|, left))
  {
    var kids := g[NodeAt(g, root, base)].children;
    var (below, left) := PrintAll(g, kids, budget - 1);
    ways := [base] + more;
    HeadFirst(g, root, base, more, left);
    var head := [NodeLine(NodeAt(g, root, base), false)];
    if budget == 1 {
      assert ways == [base] && base[..|base|] == base;
      MoreDots(g, root, ways, head, 0, below);
    } else {
      forall w | w in more ensures Less(base, w) {
        BaseIsLess(base, w);
      }
      PrintsConcat(g, root, [base], head, more, below, Dots(g, root, more, |base|, left));
    }
  }

  lemma {:induction false} PrintAllWays(g: Graph, root: int, base: seq<nat>, c: nat, budget: nat) returns (ways: seq<seq<nat>>)
    requires Passes(g, root, base) && NodeAt(g, root, base) in g && c <= |g[NodeAt(g, root, base)].children|
    ensures var kids := g[NodeAt(g, root, base)].children;
            var (lines, left) := PrintAll(g, kids[c..], budget);
            && FirstFrom(g, root, base, c, |kids|, ways, left) && |ways| == budget - left
            && (budget == 0 ==> ways == [])
            && (budget > 0 ==> PrintsWays(g, root, ways, lines, Dots(g, root, ways, |base|, left)))
    decreases budget, 1 + |g[NodeAt(g, root, base)].children| - c
  {
    var kids := g[NodeAt(g, root, base)].children;
    ways := [];
    if c < |kids| && budget > 0 {
      var left := Print(g, kids[c], budget).1;
      assert kids[c..][1..] == kids[c + 1..];
      ChildWay(g, root, base, c);
      PassesChild(g, root, base, c);
      var first := PrintWays(g, root, base + [c], budget);
      var rest := PrintAllWays(g, root, base, c + 1, left);
      var left' := PrintAll(g, kids[c + 1..], left).1;
      FirstJoined(g, root, base, c, |kids|, first, left, rest, left');
      forall w | w in first ensures From(w, base, c, c + 1) {
        Numbered(w, base, c);
      }
      PrintJoined(g, root, base, c, budget, first, rest);
      ways := first + rest;
    }
  }

  lemma {:induction false} PrintWays(g: Graph, root: int, base: seq<nat>, budget: nat) returns (ways: seq<seq<nat>>)
    requires Passes(g, root, base)
    ensures var (lines, left) := Print(g, NodeAt(g, root, base), budget);
            && First(g, root, base, ways, left) && |ways| == budget - left
            && PrintsWays(g, root, ways, lines, Dots(g, root, ways, |base|, left))
    decreases budget, 0
  {
    var x := NodeAt(g, root, base);
    ways := [];
    if x !in g {
      forall w: seq<nat> | base <= w && Recorded(g, root, w) ensures false {
        if w != base {
          PassesBeyond(g, root, base, w);
        }
      }
    } else if budget > 0 {
      var more := PrintAllWays(g, root, base, 0, budget - 1);
      assert g[x].children[0..] == g[x].children;
      ways := PrintHeaded(g, root, base, budget, more);
    }
  }

  /** What the budget buys, on any graph, cyclic ones included: the first recorded ways, in their
      order, as many as there is budget, and all of them if some is left; then one ellipsis for each
      node on the last way printed that still has children to come. */
  lemma PrintByWays(g: Graph, root: int, budget: nat) returns (ways: seq<seq<nat>>)
    ensures var (lines, left) := Print(g, root, budget);
            && |ways| == budget - left && First(g, root, [], ways, left)
            && PrintsWays(g, root, ways, lines, Dots(g, root, ways, 0, left))
  {
    ways := PrintWays(g, root, [], budget);
  }
}
