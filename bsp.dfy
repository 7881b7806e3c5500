/** The objects of bsp.js as they run: the `nextId` counter, the coin source standing in for
    `Math.random`, and `Tree` nodes whose `children` arrays grow in place. Every method is
    proved to change the tree exactly as the functions of module Partition say. */
module Bsp {
  import opened Geometry
  import opened Partition

  /** The `nextId` closure (bsp.js:7-13): a counter that starts at 0 and, on each call,
      returns its value and then increments it. */
  class IdCounter {
    var n: nat

    constructor ()
      ensures n == 0
    {
      n := 0;
    }

    method Next() returns (id: nat)
      modifies this
      ensures id == old(n) && n == old(n) + 1
    {
      id := n;
      n := n + 1;
    }
  }

  /** `Math.random() < 0.5` (bsp.js:30), replaced by a supplied stream of coins that is read
      in order. */
  class CoinSource {
    const coins: Coins
    var drawn: nat

    constructor (coins: Coins)
      ensures this.coins == coins && drawn == 0
    {
      this.coins := coins;
      drawn := 0;
    }

    method Flip() returns (heads: bool)
      modifies this
      ensures heads == coins(old(drawn)) && drawn == old(drawn) + 1
    {
      heads := coins(drawn);
      drawn := drawn + 1;
    }
  }

  /** How far the run has consumed the counter and the coins. */
  function State(ids: IdCounter, random: CoinSource): Gen
    reads ids, random
  {
    Gen(ids.n, random.drawn)
  }

  /** A node of the partition (bsp.js:15-23). Its id and rectangle never change after
      construction; its `children` array only grows. */
  class Tree {
    const id: nat
    const width: real
    const height: real
    const x: real
    const y: real
    var children: seq<Tree>

    /** The nodes of this subtree. */
    ghost var Repr: set<Tree>
    /** The subtree as a value. */
    ghost var Model: Node

    ghost predicate Valid()
      reads this, Repr
      decreases Repr, 1
    {
      this in Repr &&
      Model.id == id && Model.rect == Rect(x, y, width, height) &&
      |Model.children| == |children| &&
      (forall k :: 0 <= k < |children| ==> children[k] in Repr) &&
      (forall k :: 0 <= k < |children| ==> ChildValid(k)) &&
      (forall k, l :: 0 <= k < l < |children| ==> children[k].Repr !! children[l].Repr)
    }

    /** Child `k` is a valid subtree inside this one, not containing this node, and its
        value is the `k`-th child of `Model`. */
    ghost predicate ChildValid(k: int)
      reads this, Repr
      requires 0 <= k < |children| && |Model.children| == |children|
      decreases Repr, 0
    {
      this in Repr && children[k] in Repr && children[k].Repr <= Repr &&
      this !in children[k].Repr && children[k].Valid() && Model.children[k] == children[k].Model
    }

    /** `new Tree(width, height, x, y, color)`: takes the counter's current value as its id
        and starts without children. */
    constructor (width: real, height: real, x: real, y: real, ids: IdCounter)
      modifies ids
      ensures Valid() && fresh(Repr)
      ensures Model == Node(old(ids.n), Rect(x, y, width, height), [])
      ensures ids.n == old(ids.n) + 1
    {
      var newId := ids.Next();
      id := newId;
      this.width := width;
      this.height := height;
      this.x := x;
      this.y := y;
      children := [];
      Repr := {this};
      Model := Node(newId, Rect(x, y, width, height), []);
    }

    /** `Tree.prototype.area` (bsp.js:25-27). */
    function Area(): (a: real)
      reads this, Repr
      requires Valid()
      ensures a == Geometry.Area(Model.rect)
    {
      width * height
    }

    /** `Tree.prototype.isLeaf` (bsp.js:69-71). */
    predicate IsLeaf()
      reads this, Repr
      requires Valid()
      ensures IsLeaf() <==> Partition.IsLeaf(Model)
    {
      |children| == 0
    }

    /** `Tree.prototype.addChild` (bsp.js:61-63): push `child` at the end of `children`. */
    method AddChild(child: Tree)
      requires Valid() && child.Valid() && Repr !! child.Repr
      modifies this
      ensures Valid()
      ensures children == old(children) + [child]
      ensures Repr == old(Repr) + child.Repr
      ensures Model == old(Model).(children := old(Model.children) + [child.Model])
    {
      forall k | 0 <= k < |children|
        ensures children[k] != this && children[k].Repr !! child.Repr
      {
        assert ChildValid(k);
        assert children[k].Valid();
      }
      children := children + [child];
      Repr := Repr + child.Repr;
      Model := Model.(children := Model.children + [child.Model]);
      forall k | 0 <= k < |children|
        ensures ChildValid(k)
      {
        if k < |old(children)| {
          assert old(ChildValid(k));
        }
      }
    }

    /** `Tree.prototype.addChildren` (bsp.js:65-67): `concat` builds a new array that is
        thrown away, so nothing changes. */
    method AddChildren(more: seq<Tree>)
      requires Valid()
      ensures Valid() && children == old(children) && Model == old(Model)
    {
      var discarded := children + more;
    }

    /** `Tree.prototype.split` (bsp.js:29-59): draws a coin, lets the aspect ratio override
        it, and appends the two halves of this node as new children. */
    method Split(ids: IdCounter, random: CoinSource)
      requires Valid()
      modifies this, ids, random
      ensures Valid() && fresh(Repr - old(Repr))
      ensures (Model, State(ids, random)) ==
        Partition.Split(old(Model), old(State(ids, random)), random.coins)
    {
      ghost var g0 := State(ids, random);
      var horizontalSplit := random.Flip();
      var r := Rect(x, y, width, height);
      if ForcedVertical(r) {
        horizontalSplit := false;
      } else if ForcedHorizontal(r) {
        horizontalSplit := true;
      }
      assert horizontalSplit == SplitsHorizontally(Model.rect, random.coins(g0.drawn));
      // the size of both halves and the corner of the second one
      var halfWidth, halfHeight, secondX, secondY;
      if horizontalSplit {
        var heightHalved := height / 2.0;
        halfWidth, halfHeight, secondX, secondY := width, heightHalved, x, y + heightHalved;
      } else {
        var widthHalved := width / 2.0;
        halfWidth, halfHeight, secondX, secondY := widthHalved, height, x + widthHalved, y;
      }
      assert (Rect(x, y, halfWidth, halfHeight), Rect(secondX, secondY, halfWidth, halfHeight))
        == Halves(Model.rect, horizontalSplit);
      ghost var cs0 := Model.children;
      var first := new Tree(halfWidth, halfHeight, x, y, ids);
      AddChild(first);
      var second := new Tree(halfWidth, halfHeight, secondX, secondY, ids);
      AddChild(second);
      assert Model.children == cs0 + [first.Model, second.Model];
    }

    /** One pass of the driver loop (bsp.js:87-97): `iterateTree` over this subtree with
        the callback that splits every leaf whose area is at least 10000. Children are
        visited in order; a leaf split here is not descended into. */
    method SplitLargeLeaves(ids: IdCounter, random: CoinSource)
      requires Valid()
      modifies Repr, ids, random
      ensures Valid() && fresh(Repr - old(Repr))
      ensures (Model, State(ids, random)) ==
        PassNode(old(Model), old(State(ids, random)), random.coins)
      decreases Repr, 0
    {
      if IsLeaf() {
        if Area() < MinSplitArea {
          return;
        }
        Split(ids, random);
      } else {
        ghost var cs0 := Model.children;
        ghost var g0 := State(ids, random);
        PassedNothing(cs0, g0, random.coins);
        forall j | 0 <= j < |children|
          ensures children[j].Repr < Repr
        {
          assert ChildValid(j);
        }
        var i := 0;
        while i < |children|
          invariant 0 <= i <= |children| == |cs0|
          invariant children == old(children)
          invariant Valid() && fresh(Repr - old(Repr))
          invariant Model == old(Model).(children := Model.children)
          invariant forall j :: i <= j < |children| ==>
            children[j].Repr == old(children[j].Repr) && old(children[j].Repr) < old(Repr)
          invariant PassedPrefix(Model.children, cs0, i, g0, State(ids, random), random.coins)
        {
          ghost var ms, gi := Model.children, State(ids, random);
          PassedNextUntouched(ms, cs0, i, g0, gi, random.coins);
          PassChild(i, ids, random);
          PassedStep(ms, cs0, i, g0, gi, random.coins);
          i := i + 1;
        }
        PassedAll(old(Model), Model.children, g0, State(ids, random), random.coins);
      }
    }

    /** The `forEach` step of `iterateTree` (bsp.js:80-82) for child `i`: the pass over that
        child's subtree; its siblings are left as they are. */
    method PassChild(i: nat, ids: IdCounter, random: CoinSource)
      requires Valid() && i < |children|
      modifies Repr, ids, random
      ensures Valid() && fresh(Repr - old(Repr))
      ensures children == old(children)
      ensures Model == old(Model).(children := old(Model.children)[i :=
        PassNode(old(Model.children[i]), old(State(ids, random)), random.coins).0])
      ensures State(ids, random) ==
        PassNode(old(Model.children[i]), old(State(ids, random)), random.coins).1
      ensures forall j :: 0 <= j < |children| && j != i ==> children[j].Repr == old(children[j].Repr)
      decreases children[i].Repr, 1
    {
      var c := children[i];
      assert ChildValid(i);
      assert c.Valid();
      assert c in c.Repr && c.Repr < Repr;
      forall j | 0 <= j < |children| && j != i
        ensures children[j] in children[j].Repr && children[j].Valid() && children[j].Repr !! c.Repr
      {
        assert ChildValid(j);
        assert children[j].Valid();
      }
      label Before:
      c.SplitLargeLeaves(ids, random);
      Repr := Repr + c.Repr;
      Model := Model.(children := Model.children[i := c.Model]);
      forall k | 0 <= k < |children|
        ensures ChildValid(k)
      {
        if k != i {
          assert old@Before(ChildValid(k));
          assert children[k].Valid();
        }
      }
    }
  }

  /** The driver (bsp.js:73-98): a fresh counter, the root over the whole canvas, one
      unconditional split, then `PassCount` passes. */
  method Generate(canvasWidth: nat, canvasHeight: nat, coins: Coins) returns (root: Tree)
    ensures root.Valid()
    ensures root.Model == Partition.Generate(canvasWidth as real, canvasHeight as real, coins).0
  {
    var ids := new IdCounter();
    var random := new CoinSource(coins);
    root := new Tree(canvasWidth as real, canvasHeight as real, 0.0, 0.0, ids);
    root.Split(ids, random);
    ghost var t1, g1 := root.Model, State(ids, random);
    for i := 0 to PassCount
      invariant root.Valid() && fresh(root.Repr)
      invariant (root.Model, State(ids, random)) == Passes(t1, g1, coins, i)
    {
      root.SplitLargeLeaves(ids, random);
    }
  }
}
