/** The partition tree of bsp.js as a value, and the specification of what `split`, one pass
    of the driver loop and the whole run do to it. The imperative model in module Bsp is
    proved to produce exactly these values. */
module Partition {
  import opened Geometry

  /** A `Tree` node (bsp.js:15-23): its id, its rectangle and its children in order.
      The cosmetic `color` is not modelled. */
  datatype Node = Node(id: nat, rect: Rect, children: seq<Node>)

  /** What a run has consumed of its two outside sources: the value of the `nextId` counter
      (bsp.js:7-13) and the number of coins drawn so far. */
  datatype Gen = Gen(nextId: nat, drawn: nat)

  /** The outcomes of successive `Math.random() < 0.5` draws: the k-th draw of the run is
      `coins(k)`. */
  type Coins = nat -> bool

  /** A leaf below this area is not split by a pass (bsp.js:92). */
  const MinSplitArea: real := 10000.0

  /** Number of passes of the driver loop (bsp.js:86). */
  const PassCount: nat := 4

  /** `Tree.prototype.isLeaf` (bsp.js:69-71). */
  predicate IsLeaf(t: Node) {
    t.children == []
  }

  /** Between `g` and `g2` some number of splits happened: each drew exactly one coin and
      took exactly two ids. */
  predicate Consumed(g: Gen, g2: Gen) {
    g.drawn <= g2.drawn && g2.nextId == g.nextId + 2 * (g2.drawn - g.drawn)
  }

  /** `Tree.prototype.split` (bsp.js:29-59): draw a coin, choose the axis, and append the
      two halves, created in that order, as new leaves. */
  function Split(t: Node, g: Gen, coins: Coins): (Node, Gen) {
    var (a, b) := Halves(t.rect, SplitsHorizontally(t.rect, coins(g.drawn)));
    (t.(children := t.children + [Node(g.nextId, a, []), Node(g.nextId + 1, b, [])]),
     Gen(g.nextId + 2, g.drawn + 1))
  }

  /** One pass of the driver loop (bsp.js:87-97): `iterateTree` over `t` with the callback
      that splits a leaf unless its area is below `MinSplitArea`. The leaves are visited
      depth-first in child order; a leaf split in this pass is not visited again. */
  function PassNode(t: Node, g: Gen, coins: Coins): (r: (Node, Gen))
    ensures r.0.id == t.id && r.0.rect == t.rect
    ensures !IsLeaf(t) ==> |r.0.children| == |t.children|
    ensures Consumed(g, r.1)
    decreases t
  {
    if IsLeaf(t) then
      if Area(t.rect) < MinSplitArea then (t, g) else Split(t, g, coins)
    else
      var (cs, g2) := PassSeq(t.children, g, coins);
      (t.(children := cs), g2)
  }

  /** The `forEach` of `iterateTree` (bsp.js:80-82): the pass over each child in turn. */
  function PassSeq(cs: seq<Node>, g: Gen, coins: Coins): (r: (seq<Node>, Gen))
    ensures |r.0| == |cs|
    ensures forall i :: 0 <= i < |cs| ==> r.0[i].id == cs[i].id && r.0[i].rect == cs[i].rect
    ensures Consumed(g, r.1)
    decreases cs
  {
    if cs == [] then ([], g)
    else
      var (front, g1) := PassSeq(cs[..|cs| - 1], g, coins);
      var (last, g2) := PassNode(cs[|cs| - 1], g1, coins);
      (front + [last], g2)
  }

  /** The first `n` passes of the driver loop. */
  function Passes(t: Node, g: Gen, coins: Coins, n: nat): (Node, Gen) {
    if n == 0 then (t, g)
    else
      var (t1, g1) := Passes(t, g, coins, n - 1);
      PassNode(t1, g1, coins)
  }

  /** The whole run (bsp.js:73-98): the root takes id 0 and the canvas rectangle, is split
      once unconditionally, then `PassCount` passes follow. */
  function Generate(width: real, height: real, coins: Coins): (Node, Gen) {
    var (root, g) := Split(Root(width, height), Gen(1, 0), coins);
    Passes(root, g, coins, PassCount)
  }

  /** The nodes `iterateTree` (bsp.js:76-84) hands to its callback, in order. */
  function Leaves(t: Node): (ls: seq<Node>)
    ensures |ls| > 0
    ensures forall l :: l in ls ==> IsLeaf(l)
    decreases t
  {
    if IsLeaf(t) then [t] else LeavesSeq(t.children)
  }

  function LeavesSeq(cs: seq<Node>): (ls: seq<Node>)
    ensures |ls| >= |cs|
    ensures forall l :: l in ls ==> IsLeaf(l)
    decreases cs
  {
    if cs == [] then [] else LeavesSeq(cs[..|cs| - 1]) + Leaves(cs[|cs| - 1])
  }

  // ---------------------------------------------------------------------------------
  // Shape: every node has zero or two children, and two children halve their parent.
  // ---------------------------------------------------------------------------------

  /** The partition invariant: a node is a leaf or has exactly two children that are the
      halves of its rectangle along one axis, and so on below. */
  predicate WellFormed(t: Node)
    decreases t
  {
    IsLeaf(t) ||
    (|t.children| == 2 &&
     IsHalving(t.rect, t.children[0].rect, t.children[1].rect) &&
     WellFormed(t.children[0]) && WellFormed(t.children[1]))
  }

  /** Splitting a leaf gives it exactly two children: leaves with the next two ids whose
      rectangles halve the parent's. The node's own id and rectangle do not change. */
  lemma SplitLeaf(t: Node, g: Gen, coins: Coins)
    requires IsLeaf(t)
    ensures var (s, g2) := Split(t, g, coins);
      s.id == t.id && s.rect == t.rect && |s.children| == 2 &&
      s.children[0].id == g.nextId && s.children[1].id == g.nextId + 1 &&
      IsLeaf(s.children[0]) && IsLeaf(s.children[1]) &&
      IsHalving(t.rect, s.children[0].rect, s.children[1].rect) &&
      WellFormed(s) && Consumed(g, g2) && g2.drawn == g.drawn + 1
  {
    var (s, _) := Split(t, g, coins);
    assert WellFormed(s.children[0]) && WellFormed(s.children[1]);
  }

  /** `split` only appends: the children the node already had stay, in place. */
  lemma SplitOnlyAppends(t: Node, g: Gen, coins: Coins)
    ensures var (s, _) := Split(t, g, coins);
      s.id == t.id && s.rect == t.rect &&
      |s.children| == |t.children| + 2 && s.children[..|t.children|] == t.children
  {
  }

  /** `PassSeq` of a sequence with one more node at the end. */
  lemma PassSeqSnoc(cs: seq<Node>, c: Node, g: Gen, coins: Coins)
    ensures var (front, g1) := PassSeq(cs, g, coins);
      PassSeq(cs + [c], g, coins) == (front + [PassNode(c, g1, coins).0], PassNode(c, g1, coins).1)
  {
    assert (cs + [c])[..|cs|] == cs;
  }

  /** After the pass has visited the first `i` of the children `cs`, starting from `g0`,
      the children read `ms` and the run is at `g`: the visited ones are passed, the others
      untouched. */
  ghost predicate PassedPrefix(ms: seq<Node>, cs: seq<Node>, i: nat, g0: Gen, g: Gen, coins: Coins)
  {
    i <= |cs| &&
    var (front, g1) := PassSeq(cs[..i], g0, coins);
    ms == front + cs[i..] && g == g1
  }

  /** The pass over no children changes nothing. */
  lemma PassedNothing(cs: seq<Node>, g0: Gen, coins: Coins)
    ensures PassedPrefix(cs, cs, 0, g0, g0, coins)
  {
    assert cs[..0] == [];
  }

  /** The next child still reads as it did before the pass. */
  lemma PassedNextUntouched(ms: seq<Node>, cs: seq<Node>, i: nat, g0: Gen, g: Gen, coins: Coins)
    requires PassedPrefix(ms, cs, i, g0, g, coins) && i < |cs|
    ensures |ms| == |cs| && ms[i] == cs[i]
  {
  }

  /** Passing child `i` extends the visited prefix by one. */
  lemma PassedStep(ms: seq<Node>, cs: seq<Node>, i: nat, g0: Gen, g: Gen, coins: Coins)
    requires PassedPrefix(ms, cs, i, g0, g, coins) && i < |cs|
    ensures |ms| == |cs|
    ensures PassedPrefix(ms[i := PassNode(cs[i], g, coins).0], cs, i + 1, g0,
                         PassNode(cs[i], g, coins).1, coins)
  {
    assert cs[..i + 1] == cs[..i] + [cs[i]];
    PassSeqSnoc(cs[..i], cs[i], g0, coins);
    var front := PassSeq(cs[..i], g0, coins).0;
    var d := PassNode(cs[i], g, coins).0;
    assert (front + cs[i..])[i := d] == (front + [d]) + cs[i + 1..];
  }

  /** Once every child is visited, the children and the run are those of `PassNode`. */
  lemma PassedAll(t: Node, ms: seq<Node>, g0: Gen, g: Gen, coins: Coins)
    requires !IsLeaf(t) && PassedPrefix(ms, t.children, |t.children|, g0, g, coins)
    ensures PassNode(t, g0, coins) == (t.(children := ms), g)
  {
    var cs := t.children;
    assert cs[..|cs|] == cs;
    assert cs[|cs|..] == [];
    var (front, g1) := PassSeq(cs, g0, coins);
    assert ms == front + [] == front;
  }

  lemma PassSeqPair(c0: Node, c1: Node, g: Gen, coins: Coins)
    ensures var (d0, g1) := PassNode(c0, g, coins);
      var (d1, g2) := PassNode(c1, g1, coins);
      PassSeq([c0, c1], g, coins) == ([d0, d1], g2)
  {
    var (d0, g1) := PassNode(c0, g, coins);
    assert PassSeq([], g, coins) == ([], g);
    PassSeqSnoc([], c0, g, coins);
    assert [] + [c0] == [c0];
    assert [] + [d0] == [d0];
    assert PassSeq([c0], g, coins) == ([d0], g1);
    PassSeqSnoc([c0], c1, g, coins);
    assert [c0] + [c1] == [c0, c1];
    assert [d0] + [PassNode(c1, g1, coins).0] == [d0, PassNode(c1, g1, coins).0];
  }

  /** A pass keeps the partition invariant. */
  lemma {:induction false} PassKeepsWellFormed(t: Node, g: Gen, coins: Coins)
    requires WellFormed(t)
    ensures WellFormed(PassNode(t, g, coins).0)
    decreases t
  {
    if IsLeaf(t) {
      if Area(t.rect) >= MinSplitArea {
        SplitLeaf(t, g, coins);
      }
    } else {
      var c0, c1 := t.children[0], t.children[1];
      assert t.children == [c0, c1];
      PassSeqPair(c0, c1, g, coins);
      var (d0, g1) := PassNode(c0, g, coins);
      PassKeepsWellFormed(c0, g, coins);
      PassKeepsWellFormed(c1, g1, coins);
    }
  }

  lemma {:induction false} PassesKeepWellFormed(t: Node, g: Gen, coins: Coins, n: nat)
    requires WellFormed(t)
    ensures WellFormed(Passes(t, g, coins, n).0)
    ensures Consumed(g, Passes(t, g, coins, n).1)
  {
    if n > 0 {
      PassesKeepWellFormed(t, g, coins, n - 1);
      var (t1, g1) := Passes(t, g, coins, n - 1);
      PassKeepsWellFormed(t1, g1, coins);
    }
  }

  // ---------------------------------------------------------------------------------
  // Leaves: area conservation and exact tiling.
  // ---------------------------------------------------------------------------------

  lemma LeavesOfPair(t: Node)
    requires |t.children| == 2
    ensures Leaves(t) == Leaves(t.children[0]) + Leaves(t.children[1])
  {
    var cs := t.children;
    assert cs[..1] == [cs[0]];
    assert LeavesSeq([cs[0]]) == Leaves(cs[0]) by {
      assert [cs[0]][..0] == [];
    }
  }

  /** Sum of the areas of a sequence of nodes. */
  function AreaSum(ls: seq<Node>): real {
    if ls == [] then 0.0 else AreaSum(ls[..|ls| - 1]) + Area(ls[|ls| - 1].rect)
  }

  lemma {:induction false} AreaSumConcat(a: seq<Node>, b: seq<Node>)
    ensures AreaSum(a + b) == AreaSum(a) + AreaSum(b)
    decreases |b|
  {
    if b != [] {
      var n := |b| - 1;
      assert (a + b)[..|a + b| - 1] == a + b[..n];
      AreaSumConcat(a, b[..n]);
    } else {
      assert a + b == a;
    }
  }

  /** The leaves' areas add up to the root's area. */
  lemma {:induction false} AreaConserved(t: Node)
    requires WellFormed(t)
    ensures AreaSum(Leaves(t)) == Area(t.rect)
    decreases t
  {
    if IsLeaf(t) {
      assert [t][..0] == [];
    } else {
      var c0, c1 := t.children[0], t.children[1];
      LeavesOfPair(t);
      AreaSumConcat(Leaves(c0), Leaves(c1));
      AreaConserved(c0);
      AreaConserved(c1);
      HalvesArea(t.rect, true);
      HalvesArea(t.rect, false);
    }
  }

  /** Number of nodes in `ls` whose rectangle contains the point (px, py). */
  function Covering(ls: seq<Node>, px: real, py: real): nat {
    if ls == [] then 0
    else Covering(ls[..|ls| - 1], px, py) + (if Contains(ls[|ls| - 1].rect, px, py) then 1 else 0)
  }

  lemma {:induction false} CoveringConcat(a: seq<Node>, b: seq<Node>, px: real, py: real)
    ensures Covering(a + b, px, py) == Covering(a, px, py) + Covering(b, px, py)
    decreases |b|
  {
    if b != [] {
      var n := |b| - 1;
      assert (a + b)[..|a + b| - 1] == a + b[..n];
      CoveringConcat(a, b[..n], px, py);
    } else {
      assert a + b == a;
    }
  }

  /** The leaves tile the root exactly: a point of the root lies in exactly one leaf, a
      point outside it in none. */
  lemma {:induction false} LeavesTile(t: Node, px: real, py: real)
    requires WellFormed(t)
    ensures Covering(Leaves(t), px, py) == if Contains(t.rect, px, py) then 1 else 0
    decreases t
  {
    if IsLeaf(t) {
      assert [t][..0] == [];
    } else {
      var c0, c1 := t.children[0], t.children[1];
      LeavesOfPair(t);
      CoveringConcat(Leaves(c0), Leaves(c1), px, py);
      LeavesTile(c0, px, py);
      LeavesTile(c1, px, py);
      HalvesTile(t.rect, true, px, py);
      HalvesTile(t.rect, false, px, py);
    }
  }

  // ---------------------------------------------------------------------------------
  // What a pass does to the leaves, against a reference stated on the leaf sequence.
  // ---------------------------------------------------------------------------------

  /** Reference for one pass, stated on the leaves alone: walk them in order and replace
      each one whose area is at least `MinSplitArea` by the two halves its split creates. */
  function Expand(ls: seq<Node>, g: Gen, coins: Coins): (seq<Node>, Gen)
  {
    if ls == [] then ([], g)
    else
      var (front, g1) := Expand(ls[..|ls| - 1], g, coins);
      var l := ls[|ls| - 1];
      if Area(l.rect) < MinSplitArea then (front + [l], g1)
      else
        var (s, g2) := Split(l, g1, coins);
        (front + s.children, g2)
  }

  lemma {:induction false} ExpandConcat(a: seq<Node>, b: seq<Node>, g: Gen, coins: Coins)
    ensures var (ea, g1) := Expand(a, g, coins);
      var (eb, g2) := Expand(b, g1, coins);
      Expand(a + b, g, coins) == (ea + eb, g2)
    decreases |b|
  {
    var (ea, g1) := Expand(a, g, coins);
    if b == [] {
      assert a + b == a;
      assert ea + [] == ea;
    } else {
      var n := |b| - 1;
      assert (a + b)[..|a + b| - 1] == a + b[..n];
      assert (a + b)[|a + b| - 1] == b[n];
      ExpandConcat(a, b[..n], g, coins);
      var (eb, g3) := Expand(b[..n], g1, coins);
      var l := b[n];
      if Area(l.rect) < MinSplitArea {
        assert (ea + eb) + [l] == ea + (eb + [l]);
      } else {
        var (s, _) := Split(l, g3, coins);
        assert (ea + eb) + s.children == ea + (eb + s.children);
      }
    }
  }

  lemma LeavesSeqSnoc(cs: seq<Node>, c: Node)
    ensures LeavesSeq(cs + [c]) == LeavesSeq(cs) + Leaves(c)
  {
    assert (cs + [c])[..|cs|] == cs;
  }

  lemma ExpandSingle(l: Node, g: Gen, coins: Coins)
    ensures Expand([l], g, coins) ==
      if Area(l.rect) < MinSplitArea then ([l], g)
      else (Split(l, g, coins).0.children, Split(l, g, coins).1)
  {
    assert [l][..0] == [];
    assert Expand([], g, coins) == ([], g);
    assert [] + [l] == [l];
    assert [] + Split(l, g, coins).0.children == Split(l, g, coins).0.children;
  }

  lemma PassLeafLeaves(t: Node, g: Gen, coins: Coins)
    requires IsLeaf(t)
    ensures Leaves(PassNode(t, g, coins).0) == Expand(Leaves(t), g, coins).0
    ensures PassNode(t, g, coins).1 == Expand(Leaves(t), g, coins).1
  {
    assert Leaves(t) == [t];
    ExpandSingle(t, g, coins);
    if Area(t.rect) >= MinSplitArea {
      var (s, g2) := Split(t, g, coins);
      var a, b := s.children[0], s.children[1];
      assert s.children == [a, b];
      LeavesOfPair(s);
      assert Leaves(a) == [a] && Leaves(b) == [b];
    }
  }

  /** A pass acts on the leaf sequence exactly as the reference does: the leaves that
      `iterateTree` reports afterwards are the old ones with every leaf of area at least
      `MinSplitArea` replaced, in place, by its two halves, and the ids and coins consumed
      agree. */
  lemma {:induction false} PassLeaves(t: Node, g: Gen, coins: Coins)
    ensures Leaves(PassNode(t, g, coins).0) == Expand(Leaves(t), g, coins).0
    ensures PassNode(t, g, coins).1 == Expand(Leaves(t), g, coins).1
    decreases t
  {
    if IsLeaf(t) {
      PassLeafLeaves(t, g, coins);
    } else {
      PassSeqLeaves(t.children, g, coins);
      var (cs, g2) := PassSeq(t.children, g, coins);
      assert PassNode(t, g, coins) == (t.(children := cs), g2);
      assert Leaves(t.(children := cs)) == LeavesSeq(cs);
    }
  }

  lemma {:induction false} PassSeqLeaves(cs: seq<Node>, g: Gen, coins: Coins)
    ensures LeavesSeq(PassSeq(cs, g, coins).0) == Expand(LeavesSeq(cs), g, coins).0
    ensures PassSeq(cs, g, coins).1 == Expand(LeavesSeq(cs), g, coins).1
    decreases cs
  {
    if cs == [] {
      assert Expand([], g, coins) == ([], g);
    } else {
      var n := |cs| - 1;
      var front, c := cs[..n], cs[n];
      PassSeqLeaves(front, g, coins);
      var (pf, g1) := PassSeq(front, g, coins);
      PassLeaves(c, g1, coins);
      var (pc, g2) := PassNode(c, g1, coins);
      assert PassSeq(cs, g, coins) == (pf + [pc], g2);
      LeavesSeqSnoc(pf, pc);
      assert LeavesSeq(cs) == LeavesSeq(front) + Leaves(c);
      ExpandConcat(LeavesSeq(front), Leaves(c), g, coins);
    }
  }

  /** A leaf below the threshold survives the reference expansion. */
  lemma {:induction false} ExpandKeepsSmall(ls: seq<Node>, g: Gen, coins: Coins, l: Node)
    requires l in ls && Area(l.rect) < MinSplitArea
    ensures l in Expand(ls, g, coins).0
    decreases |ls|
  {
    var n := |ls| - 1;
    var (front, g1) := Expand(ls[..n], g, coins);
    if ls[n] == l {
      assert Expand(ls, g, coins).0 == front + [l];
    } else {
      assert l in ls[..n] by {
        var k :| 0 <= k < |ls| && ls[k] == l;
        assert k < n;
        assert ls[..n][k] == l;
      }
      ExpandKeepsSmall(ls[..n], g, coins, l);
      var e := Expand(ls, g, coins).0;
      assert e[..|front|] == front;
      var k :| 0 <= k < |front| && front[k] == l;
      assert e[k] == l;
    }
  }

  /** A leaf of area below 10000 is never split: it is still a leaf after any number of
      further passes (bsp.js:92-95). */
  lemma {:induction false} SmallLeafStaysLeaf(t: Node, g: Gen, coins: Coins, n: nat, l: Node)
    requires l in Leaves(t) && Area(l.rect) < MinSplitArea
    ensures l in Leaves(Passes(t, g, coins, n).0)
  {
    if n > 0 {
      SmallLeafStaysLeaf(t, g, coins, n - 1, l);
      var (t1, g1) := Passes(t, g, coins, n - 1);
      PassLeaves(t1, g1, coins);
      ExpandKeepsSmall(Leaves(t1), g1, coins, l);
    }
  }

  /** How many of `ls` are at or above the split threshold. */
  function BigCount(ls: seq<Node>): nat {
    if ls == [] then 0
    else BigCount(ls[..|ls| - 1]) + (if Area(ls[|ls| - 1].rect) < MinSplitArea then 0 else 1)
  }

  /** The reference splits each big leaf exactly once: it draws one coin per big leaf and
      adds one leaf for each. */
  lemma {:induction false} ExpandCounts(ls: seq<Node>, g: Gen, coins: Coins)
    requires forall l :: l in ls ==> IsLeaf(l)
    ensures |Expand(ls, g, coins).0| == |ls| + BigCount(ls)
    ensures Expand(ls, g, coins).1 == Gen(g.nextId + 2 * BigCount(ls), g.drawn + BigCount(ls))
    decreases |ls|
  {
    if ls != [] {
      var n := |ls| - 1;
      assert forall l :: l in ls[..n] ==> l in ls;
      ExpandCounts(ls[..n], g, coins);
      assert ls[n] in ls;
    }
  }

  /** A pass splits exactly the leaves whose area is at least 10000, each once: one coin and
      two ids per such leaf, and the leaf count grows by their number (bsp.js:86-98). */
  lemma PassCounts(t: Node, g: Gen, coins: Coins)
    ensures var (t2, g2) := PassNode(t, g, coins);
      var big := BigCount(Leaves(t));
      |Leaves(t2)| == |Leaves(t)| + big &&
      g2 == Gen(g.nextId + 2 * big, g.drawn + big)
  {
    var ls := Leaves(t);
    var r := PassNode(t, g, coins);
    PassLeaves(t, g, coins);
    ExpandCounts(ls, g, coins);
    assert |Leaves(r.0)| == |Expand(ls, g, coins).0| == |ls| + BigCount(ls);
  }

  /** Every node of `ls` is below the split threshold. */
  predicate AllSmall(ls: seq<Node>) {
    forall l :: l in ls ==> Area(l.rect) < MinSplitArea
  }

  lemma AllSmallConcat(a: seq<Node>, b: seq<Node>)
    requires AllSmall(a + b)
    ensures AllSmall(a) && AllSmall(b)
  {
    assert forall l :: l in a ==> l in a + b;
    assert forall l :: l in b ==> l in a + b;
  }

  /** Once every leaf is below the threshold a pass changes nothing and consumes nothing. */
  lemma {:induction false} PassIdle(t: Node, g: Gen, coins: Coins)
    requires AllSmall(Leaves(t))
    ensures PassNode(t, g, coins) == (t, g)
    decreases t
  {
    if !IsLeaf(t) {
      PassSeqIdle(t.children, g, coins);
    }
  }

  lemma {:induction false} PassSeqIdle(cs: seq<Node>, g: Gen, coins: Coins)
    requires AllSmall(LeavesSeq(cs))
    ensures PassSeq(cs, g, coins) == (cs, g)
    decreases cs
  {
    if cs != [] {
      var n := |cs| - 1;
      var front, last := cs[..n], cs[n];
      assert LeavesSeq(cs) == LeavesSeq(front) + Leaves(last);
      AllSmallConcat(LeavesSeq(front), Leaves(last));
      PassSeqIdle(front, g, coins);
      PassIdle(last, g, coins);
      PassSeqSnoc(front, last, g, coins);
      assert front + [last] == cs;
    }
  }

  /** More passes do not change a tree whose leaves are all below the threshold. */
  lemma {:induction false} PassesIdle(t: Node, g: Gen, coins: Coins, n: nat)
    requires AllSmall(Leaves(t))
    ensures Passes(t, g, coins, n) == (t, g)
  {
    if n > 0 {
      PassesIdle(t, g, coins, n - 1);
      PassIdle(t, g, coins);
    }
  }

  // ---------------------------------------------------------------------------------
  // Ids: handed out by the `nextId` counter, hence unique and increasing downwards.
  // ---------------------------------------------------------------------------------

  /** The ids of all nodes of `t`, with multiplicity. */
  function MIds(t: Node): multiset<nat>
    decreases t
  {
    multiset{t.id} + MIdsSeq(t.children)
  }

  function MIdsSeq(cs: seq<Node>): multiset<nat>
    decreases cs
  {
    if cs == [] then multiset{} else MIdsSeq(cs[..|cs| - 1]) + MIds(cs[|cs| - 1])
  }

  /** The counter values lo, lo + 1, ..., hi - 1, each once. */
  function IdRange(lo: nat, hi: nat): multiset<nat>
    decreases hi
  {
    if hi <= lo then multiset{} else IdRange(lo, hi - 1) + multiset{hi - 1}
  }

  lemma {:induction false} IdRangeCount(lo: nat, hi: nat, x: nat)
    ensures IdRange(lo, hi)[x] == if lo <= x < hi then 1 else 0
    decreases hi
  {
    if hi > lo {
      IdRangeCount(lo, hi - 1, x);
    }
  }

  lemma {:induction false} IdRangeConcat(a: nat, b: nat, c: nat)
    requires a <= b <= c
    ensures IdRange(a, b) + IdRange(b, c) == IdRange(a, c)
    decreases c
  {
    if b < c {
      IdRangeConcat(a, b, c - 1);
    }
  }

  /** Two successive stretches of counter values make one. */
  lemma AddRanges(m0: multiset<nat>, m1: multiset<nat>, m2: multiset<nat>, a: nat, b: nat, c: nat)
    requires a <= b <= c
    requires m1 == m0 + IdRange(a, b) && m2 == m1 + IdRange(b, c)
    ensures m2 == m0 + IdRange(a, c)
  {
    IdRangeConcat(a, b, c);
  }

  lemma MIdsSeqSnoc(cs: seq<Node>, c: Node)
    ensures MIdsSeq(cs + [c]) == MIdsSeq(cs) + MIds(c)
  {
    assert (cs + [c])[..|cs|] == cs;
  }

  lemma MIdsLeaf(t: Node)
    requires IsLeaf(t)
    ensures MIds(t) == multiset{t.id}
  {
  }

  /** A split adds exactly the two counter values it takes. */
  lemma SplitIds(t: Node, g: Gen, coins: Coins)
    ensures MIds(Split(t, g, coins).0) == MIds(t) + IdRange(g.nextId, g.nextId + 2)
  {
    var (s, _) := Split(t, g, coins);
    var a, b := s.children[|t.children|], s.children[|t.children| + 1];
    assert s.children == (t.children + [a]) + [b];
    MIdsSeqSnoc(t.children + [a], b);
    MIdsSeqSnoc(t.children, a);
    MIdsLeaf(a);
    MIdsLeaf(b);
    assert IdRange(g.nextId, g.nextId + 1) == multiset{g.nextId};
  }

  /** A pass adds to the tree exactly the ids the counter hands out during the pass. */
  lemma {:induction false} PassIds(t: Node, g: Gen, coins: Coins)
    ensures MIds(PassNode(t, g, coins).0) == MIds(t) + IdRange(g.nextId, PassNode(t, g, coins).1.nextId)
    decreases t
  {
    if IsLeaf(t) {
      PassLeafIds(t, g, coins);
    } else {
      PassSeqIds(t.children, g, coins);
      var (cs, g2) := PassSeq(t.children, g, coins);
      assert PassNode(t, g, coins) == (t.(children := cs), g2);
      assert MIds(t.(children := cs)) == multiset{t.id} + MIdsSeq(cs);
    }
  }

  lemma PassLeafIds(t: Node, g: Gen, coins: Coins)
    requires IsLeaf(t)
    ensures MIds(PassNode(t, g, coins).0) == MIds(t) + IdRange(g.nextId, PassNode(t, g, coins).1.nextId)
  {
    if Area(t.rect) >= MinSplitArea {
      SplitIds(t, g, coins);
    } else {
      assert IdRange(g.nextId, g.nextId) == multiset{};
    }
  }

  lemma {:induction false} PassSeqIds(cs: seq<Node>, g: Gen, coins: Coins)
    ensures MIdsSeq(PassSeq(cs, g, coins).0) == MIdsSeq(cs) + IdRange(g.nextId, PassSeq(cs, g, coins).1.nextId)
    decreases cs
  {
    if cs == [] {
      assert IdRange(g.nextId, g.nextId) == multiset{};
    } else {
      var n := |cs| - 1;
      var front, c := cs[..n], cs[n];
      PassSeqIds(front, g, coins);
      var (pf, g1) := PassSeq(front, g, coins);
      PassIds(c, g1, coins);
      var (pc, g2) := PassNode(c, g1, coins);
      assert PassSeq(cs, g, coins) == (pf + [pc], g2);
      MIdsSeqSnoc(pf, pc);
      IdRangeConcat(g.nextId, g1.nextId, g2.nextId);
    }
  }

  lemma {:induction false} PassesIds(t: Node, g: Gen, coins: Coins, n: nat)
    ensures MIds(Passes(t, g, coins, n).0) == MIds(t) + IdRange(g.nextId, Passes(t, g, coins, n).1.nextId)
    ensures Consumed(g, Passes(t, g, coins, n).1)
  {
    if n == 0 {
      assert IdRange(g.nextId, g.nextId) == multiset{};
    } else {
      PassesIds(t, g, coins, n - 1);
      var (t1, g1) := Passes(t, g, coins, n - 1);
      PassIds(t1, g1, coins);
      var (t2, g2) := PassNode(t1, g1, coins);
      assert Passes(t, g, coins, n) == (t2, g2);
      AddRanges(MIds(t), MIds(t1), MIds(t2), g.nextId, g1.nextId, g2.nextId);
    }
  }

  /** Every id of `t` is an earlier counter value than `next`. */
  predicate IdsBelow(t: Node, next: nat) {
    forall x :: x in MIds(t) ==> x < next
  }

  /** Every id of `t` is a later counter value than `first`. */
  predicate IdsAbove(t: Node, first: nat) {
    forall x :: x in MIds(t) ==> first < x
  }

  /** Every node was created before all the nodes below it: its id is smaller than theirs. */
  predicate IdsIncrease(t: Node)
    decreases t
  {
    forall i :: 0 <= i < |t.children| ==> IdsAbove(t.children[i], t.id) && IdsIncrease(t.children[i])
  }

  lemma {:induction false} MIdsSeqMember(cs: seq<Node>, i: nat, x: nat)
    requires i < |cs| && x in MIds(cs[i])
    ensures x in MIdsSeq(cs)
    decreases |cs|
  {
    var n := |cs| - 1;
    if i < n {
      assert cs[..n][i] == cs[i];
      MIdsSeqMember(cs[..n], i, x);
    }
  }

  lemma ChildIdsBelow(t: Node, i: nat, next: nat)
    requires i < |t.children| && IdsBelow(t, next)
    ensures IdsBelow(t.children[i], next)
  {
    forall x | x in MIds(t.children[i])
      ensures x < next
    {
      MIdsSeqMember(t.children, i, x);
      assert x in MIds(t);
    }
  }

  /** Adding the fresh counter values lo .. hi - 1 to a subtree keeps its ids between
      `first` and the new counter value. */
  lemma GrowIds(c: Node, d: Node, first: nat, lo: nat, hi: nat)
    requires first < lo <= hi
    requires MIds(d) == MIds(c) + IdRange(lo, hi)
    requires IdsAbove(c, first) && IdsBelow(c, lo)
    ensures IdsAbove(d, first) && IdsBelow(d, hi)
  {
    forall x | x in MIds(d)
      ensures first < x < hi
    {
      IdRangeCount(lo, hi, x);
    }
  }

  lemma {:induction false} PassKeepsIdsIncrease(t: Node, g: Gen, coins: Coins)
    requires IdsIncrease(t) && IdsBelow(t, g.nextId)
    ensures IdsIncrease(PassNode(t, g, coins).0)
    decreases t
  {
    if IsLeaf(t) {
      if Area(t.rect) >= MinSplitArea {
        var (s, _) := Split(t, g, coins);
        MIdsLeaf(s.children[0]);
        MIdsLeaf(s.children[1]);
        assert t.id in MIds(t);
      }
    } else {
      forall i | 0 <= i < |t.children|
        ensures IdsBelow(t.children[i], g.nextId)
      {
        ChildIdsBelow(t, i, g.nextId);
      }
      assert t.id in MIds(t);
      assert ChildrenIdsIn(t.children, t.id, g.nextId);
      PassSeqKeepsIdsIncrease(t.children, g, coins, t.id);
      var (cs, g2) := PassSeq(t.children, g, coins);
      assert PassNode(t, g, coins).0 == t.(children := cs);
      assert ChildrenIdsIn(cs, t.id, g2.nextId);
    }
  }

  /** Each of `ds` has ids between `parent` and `next` (exclusive) that increase downwards. */
  predicate ChildrenIdsIn(ds: seq<Node>, parent: nat, next: nat) {
    forall i :: 0 <= i < |ds| ==> IdsAbove(ds[i], parent) && IdsBelow(ds[i], next) && IdsIncrease(ds[i])
  }

  lemma ChildrenIdsInSnoc(ds: seq<Node>, d: Node, parent: nat, next: nat, next2: nat)
    requires next <= next2
    requires ChildrenIdsIn(ds, parent, next)
    requires IdsAbove(d, parent) && IdsBelow(d, next2) && IdsIncrease(d)
    ensures ChildrenIdsIn(ds + [d], parent, next2)
  {
    forall i | 0 <= i < |ds|
      ensures IdsBelow(ds[i], next2)
    {
      assert IdsBelow(ds[i], next);
    }
  }

  lemma {:induction false} PassSeqKeepsIdsIncrease(cs: seq<Node>, g: Gen, coins: Coins, parent: nat)
    requires parent < g.nextId
    requires ChildrenIdsIn(cs, parent, g.nextId)
    ensures ChildrenIdsIn(PassSeq(cs, g, coins).0, parent, PassSeq(cs, g, coins).1.nextId)
    decreases cs
  {
    if cs != [] {
      var n := |cs| - 1;
      var front, c := cs[..n], cs[n];
      assert ChildrenIdsIn(front, parent, g.nextId) by {
        assert forall i :: 0 <= i < n ==> front[i] == cs[i];
      }
      PassSeqKeepsIdsIncrease(front, g, coins, parent);
      var (pf, g1) := PassSeq(front, g, coins);
      assert IdsAbove(c, parent) && IdsBelow(c, g.nextId) && IdsIncrease(c);
      PassIds(c, g1, coins);
      PassKeepsIdsIncrease(c, g1, coins);
      var (pc, g2) := PassNode(c, g1, coins);
      GrowIds(c, pc, parent, g1.nextId, g2.nextId);
      ChildrenIdsInSnoc(pf, pc, parent, g1.nextId, g2.nextId);
      assert PassSeq(cs, g, coins) == (pf + [pc], g2);
    }
  }

  lemma {:induction false} PassesKeepIdsIncrease(t: Node, g: Gen, coins: Coins, n: nat)
    requires IdsIncrease(t) && IdsBelow(t, g.nextId)
    ensures IdsIncrease(Passes(t, g, coins, n).0)
    ensures IdsBelow(Passes(t, g, coins, n).0, Passes(t, g, coins, n).1.nextId)
  {
    if n > 0 {
      PassesKeepIdsIncrease(t, g, coins, n - 1);
      var (t1, g1) := Passes(t, g, coins, n - 1);
      PassKeepsIdsIncrease(t1, g1, coins);
      PassIds(t1, g1, coins);
      var (t2, g2) := PassNode(t1, g1, coins);
      forall x | x in MIds(t2)
        ensures x < g2.nextId
      {
        IdRangeCount(g1.nextId, g2.nextId, x);
      }
    }
  }

  // ---------------------------------------------------------------------------------
  // The whole run.
  // ---------------------------------------------------------------------------------

  /** The unsplit root: id 0 and the canvas rectangle (bsp.js:73). */
  function Root(width: real, height: real): Node {
    Node(0, Rect(0.0, 0.0, width, height), [])
  }

  /** The shape of what the run of bsp.js:73-98 produces: the root keeps id 0 and the canvas
      rectangle and has two children; every node has zero or two children, which halve it;
      the leaves tile the canvas exactly and their areas add up to the canvas area. */
  lemma GenerateShape(width: real, height: real, coins: Coins)
    ensures var (root, _) := Generate(width, height, coins);
      root.id == 0 && root.rect == Rect(0.0, 0.0, width, height) &&
      |root.children| == 2 &&
      WellFormed(root) &&
      AreaSum(Leaves(root)) == Area(root.rect) &&
      (forall px, py :: Covering(Leaves(root), px, py) == if Contains(root.rect, px, py) then 1 else 0)
  {
    var t0 := Root(width, height);
    SplitLeaf(t0, Gen(1, 0), coins);
    var (t1, g1) := Split(t0, Gen(1, 0), coins);
    var (root, g) := Passes(t1, g1, coins, PassCount);
    assert Generate(width, height, coins) == (root, g);
    PassesKeepWellFormed(t1, g1, coins, PassCount);
    PassesKeepInternal(t1, g1, coins, PassCount);
    AreaConserved(root);
    forall px, py
      ensures Covering(Leaves(root), px, py) == if Contains(root.rect, px, py) then 1 else 0
    {
      LeavesTile(root, px, py);
    }
  }

  /** The root's unconditional split (bsp.js:74) uses the counter values 0, 1 and 2. */
  lemma FirstSplitIds(width: real, height: real, coins: Coins)
    ensures var (t1, g1) := Split(Root(width, height), Gen(1, 0), coins);
      g1.nextId == 3 && MIds(t1) == IdRange(0, 3)
  {
    var t0 := Root(width, height);
    SplitIds(t0, Gen(1, 0), coins);
    MIdsLeaf(t0);
    assert IdRange(0, 1) == multiset{0};
    IdRangeConcat(0, 1, 3);
  }

  /** After the root's split its two children have larger ids than the root. */
  lemma FirstSplitIdsIncrease(width: real, height: real, coins: Coins)
    ensures var (t1, g1) := Split(Root(width, height), Gen(1, 0), coins);
      IdsIncrease(t1) && IdsBelow(t1, g1.nextId)
  {
    var t0 := Root(width, height);
    var (t1, g1) := Split(t0, Gen(1, 0), coins);
    SplitLeaf(t0, Gen(1, 0), coins);
    MIdsLeaf(t1.children[0]);
    MIdsLeaf(t1.children[1]);
    FirstSplitIds(width, height, coins);
    forall x | x in MIds(t1)
      ensures x < 3
    {
      IdRangeCount(0, 3, x);
    }
  }

  /** The ids of the run are exactly the counter values 0 .. nextId - 1, each used by one
      node: ids are unique. */
  lemma GenerateIdsUnique(width: real, height: real, coins: Coins)
    ensures var (root, g) := Generate(width, height, coins);
      forall x: nat :: MIds(root)[x] == if x < g.nextId then 1 else 0
  {
    FirstSplitIds(width, height, coins);
    var (t1, g1) := Split(Root(width, height), Gen(1, 0), coins);
    var (root, g) := Passes(t1, g1, coins, PassCount);
    assert Generate(width, height, coins) == (root, g);
    PassesIds(t1, g1, coins, PassCount);
    AddRanges(multiset{}, MIds(t1), MIds(root), 0, 3, g.nextId);
    forall x: nat
      ensures MIds(root)[x] == if x < g.nextId then 1 else 0
    {
      IdRangeCount(0, g.nextId, x);
    }
  }

  /** In the tree of the run every node's id is smaller than the ids of the nodes below it:
      parents are created before their children. */
  lemma GenerateIdsIncrease(width: real, height: real, coins: Coins)
    ensures IdsIncrease(Generate(width, height, coins).0)
  {
    FirstSplitIdsIncrease(width, height, coins);
    var (t1, g1) := Split(Root(width, height), Gen(1, 0), coins);
    PassesKeepIdsIncrease(t1, g1, coins, PassCount);
  }

  /** Passes never take children away: an internal node keeps its number of children and
      its id and rectangle. */
  lemma {:induction false} PassesKeepInternal(t: Node, g: Gen, coins: Coins, n: nat)
    requires !IsLeaf(t)
    ensures var (t2, _) := Passes(t, g, coins, n);
      t2.id == t.id && t2.rect == t.rect && |t2.children| == |t.children|
  {
    if n > 0 {
      PassesKeepInternal(t, g, coins, n - 1);
    }
  }
}
