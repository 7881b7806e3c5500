# bsp.js — a binary space partitioner, modelled and proved in Dafny

bsp.js cuts a canvas into rectangles. A `Tree` node is a rectangle (`x, y, width, height`)
with an id taken from the `nextId` counter and a list of children. `split` halves a node
along one axis and appends the two halves as children. The axis is forced by the aspect
ratio when one side is at least `magicRatio = 1.45` times the other; otherwise a coin
(`Math.random() < 0.5`) decides. The driver creates the root over the whole canvas and
splits it once. It then runs four passes of `iterateTree`, each splitting every leaf whose
area is at least 10000.

The project has three modules:

- `Geometry` (geometry.dfy): rectangles, the aspect-ratio test without division, the axis
  choice and the two halves of a split. It proves how the halves tile the parent and share
  its area.
- `Partition` (partition.dfy): the tree as a value (`Node`), and `split`, one pass and the
  whole run as functions. The run threads a `Gen` state: the counter value and the number
  of coins drawn. The lemmas here carry the invariants:
  - every node has zero or two children, and two children halve their parent;
  - the leaves tile the canvas and their areas add up to its area;
  - a pass acts on the leaf sequence as a simple reference does;
  - small leaves are never split;
  - ids are exactly the counter values handed out, so they are unique, and they increase
    from parent to child.
- `Bsp` (bsp.dfy): the objects as the program runs them.
  - `IdCounter` is the `nextId` closure and `CoinSource` stands in for `Math.random`.
  - `Tree` is a class whose `children` sequence grows in place through `AddChild`.
  - `SplitLargeLeaves` is one pass of the driver loop and `Generate` is the driver.
  - Every method is proved to leave the objects exactly as the `Partition` functions
    say, so the lemmas about those functions hold of the objects.

As written, `addChildren` discards the result of `concat`, so it changes nothing. The model
keeps that behaviour.

## Model

| member | source | states |
|---|---|---|
| Geometry.RatioTestWithoutDivision | bsp.js:32-38 | The division-free tests agree with `w > h && w / h >= 1.45` (and the tall case) for every real width and height. A zero divisor counts as +Infinity, which passes. |
| Geometry.ForcedCasesExclusive | bsp.js:32-39 | A node is never both forced wide and forced tall, so the order of the two tests does not matter. |
| Geometry.AxisChoice | bsp.js:30-39 | A wide node is cut side by side and a tall node top/bottom, whatever the coin. The coin changes the axis exactly when neither ratio test holds. |
| Geometry.HalvesShape | bsp.js:40-58 | A horizontal cut keeps `x` and `width`, halves the height, and puts the second child at `y + height/2`. A vertical cut does the same with the axes exchanged. |
| Geometry.HalvesTile | bsp.js:40-58 | Every point of the parent lies in exactly one half; no point outside the parent lies in either. |
| Geometry.HalvesArea | bsp.js:40-58 | Each half has half the parent's area, and the two areas sum to the parent's. |
| Geometry.ForcedSplitReducesRatio | bsp.js:31-39 | When the axis is forced, both children are strictly less elongated than the parent. |
| Partition.PassNode | bsp.js:87-97 | One pass keeps a node's id and rectangle and an internal node's number of children. It uses exactly two counter values per coin drawn. |
| Partition.PassSeq | bsp.js:80-82 | The pass over a list of children keeps its length and each child's id and rectangle. It uses two counter values per coin. |
| Partition.Leaves | bsp.js:76-84 | `iterateTree` hands its callback at least one node, and only leaves. |
| Partition.SplitLeaf | bsp.js:40-63 | Splitting a leaf leaves it with exactly two leaf children. They have the next two counter values as ids and halve the parent. One coin is drawn. |
| Partition.SplitOnlyAppends | bsp.js:29-63 | `split` keeps the node's id and rectangle and its existing children in place, and appends exactly two. |
| Partition.PassKeepsWellFormed | bsp.js:86-98 | A pass keeps every node at zero or two children, with the two halving their parent. |
| Partition.PassesKeepWellFormed | bsp.js:86-98 | Any number of passes keeps that invariant, and consumes two ids per coin. |
| Partition.AreaConserved | bsp.js:76-84 | In a well-formed tree, the areas of the leaves that `iterateTree` reports sum to the root's area. |
| Partition.LeavesTile | bsp.js:76-84 | In a well-formed tree, a point of the root lies in exactly one reported leaf, and a point outside it in none. |
| Partition.PassLeaves | bsp.js:76-97 | After a pass, the leaves are the old leaves in order, with each leaf of area at least 10000 replaced in place by its two halves. Counter and coins agree with that reference. |
| Partition.SmallLeafStaysLeaf | bsp.js:92-95 | A leaf of area below 10000 is still a leaf after any number of later passes. |
| Partition.PassCounts | bsp.js:86-98 | A pass splits exactly the leaves of area at least 10000, each once. It draws one coin and two ids per such leaf, and the leaf count grows by their number. |
| Partition.PassIdle | bsp.js:92-95 | When every leaf is below 10000, a pass changes nothing and draws nothing. |
| Partition.PassesIdle | bsp.js:86-98 | Further passes leave such a tree and the run state unchanged. |
| Partition.SplitIds | bsp.js:15-16 | A split adds to the tree's ids exactly the two counter values it takes. |
| Partition.PassIds | bsp.js:87-97 | A pass adds to the tree's ids exactly the counter values handed out during the pass. |
| Partition.PassesIds | bsp.js:86-98 | The same holds over any number of passes. |
| Partition.PassKeepsIdsIncrease | bsp.js:87-97 | If ids increase from parent to child and are below the counter, they still increase after a pass. |
| Partition.PassesKeepIdsIncrease | bsp.js:86-98 | Over any number of passes, ids keep increasing downwards and stay below the counter. |
| Partition.FirstSplitIds | bsp.js:73-74 | The root and its first two children take the counter values 0, 1 and 2. |
| Partition.FirstSplitIdsIncrease | bsp.js:73-74 | After the root's split, its children's ids exceed the root's. |
| Partition.GenerateShape | bsp.js:73-98 | The run's root has id 0, the canvas rectangle and two children, and is well formed. Its leaves tile the canvas exactly and their areas sum to the canvas area. |
| Partition.GenerateIdsUnique | bsp.js:7-16 | After the run, the ids are exactly 0 .. nextId - 1, each on exactly one node. |
| Partition.GenerateIdsIncrease | bsp.js:73-98 | After the run, every node's id is smaller than the ids of all nodes below it. |
| Partition.PassesKeepInternal | bsp.js:86-98 | Passes never take children away: an internal node keeps its id, its rectangle and its number of children. |
| Bsp.IdCounter.constructor | bsp.js:7-8 | The counter starts at 0. |
| Bsp.IdCounter.Next | bsp.js:9-12 | `nextId()` returns the current counter value and increments it. |
| Bsp.CoinSource.constructor | bsp.js:30 | The coin stream is read from its first coin. |
| Bsp.CoinSource.Flip | bsp.js:30 | Each draw returns the next coin of the supplied stream and moves past it. |
| Bsp.Tree.constructor | bsp.js:15-23 | A new node takes the counter's current value as its id, has the given rectangle and no children, and bumps the counter by one. |
| Bsp.Tree.Area | bsp.js:25-27 | `area()` is the area of the node's rectangle. |
| Bsp.Tree.IsLeaf | bsp.js:69-71 | `isLeaf()` holds exactly when the node has no children. |
| Bsp.Tree.AddChild | bsp.js:61-63 | `addChild` appends the child at the end of `children` and keeps the tree valid. |
| Bsp.Tree.AddChildren | bsp.js:65-67 | `addChildren` leaves `children` and the tree unchanged. |
| Bsp.Tree.Split | bsp.js:29-59 | `split` leaves the node, the counter and the coins exactly as `Partition.Split` says. It draws one coin, chooses the axis and appends the two halves with the next two ids. |
| Bsp.Tree.SplitLargeLeaves | bsp.js:76-97 | One pass of `iterateTree` with the splitting callback leaves the subtree, counter and coins exactly as `Partition.PassNode` says. |
| Bsp.Tree.PassChild | bsp.js:80-82 | The `forEach` step passes child `i` as `Partition.PassNode` says and leaves its siblings untouched. |
| Bsp.Generate | bsp.js:73-98 | The driver builds exactly the tree `Partition.Generate` describes, so all the `Partition` lemmas about the run hold of it. |

## Left out

- Canvas acquisition and all drawing (`getContext`, `fillStyle`, `fillRect`, `font`, `fillText`, bsp.js:1-5 and 100-107) are rendering I/O. The canvas size is a parameter of `Bsp.Generate`.
- The `console.log` calls (bsp.js:10, 103) are logging side effects.
- The `color` field and the colour strings passed to children are cosmetic.
- `Math.random()` (bsp.js:30) is replaced by a supplied stream of coins, read in order. A coin is drawn on every split, as in the source, even when the ratio test overrides it.
- IEEE-754 rounding of `/ 2` and of the ratio division is not modelled: dimensions are exact reals, and the 1.45 test is a product comparison. This comparison is proved to agree with the division for every real input, including a zero divisor.
- The callback's `!node.isLeaf()` test (bsp.js:88-91) is not modelled. `iterateTree` calls the callback only on leaves, so the test never fires.
- In `Bsp.Tree.Split`, the two branches of bsp.js:40-58 compute the halves' size and the second half's corner; the two `new Tree` / `addChild` calls are written once after them. The order of creation, and hence the ids, are the same.
- `iterateTree` with an arbitrary callback is modelled through the one callback the program passes it: the leaf sequence `Partition.Leaves` and the pass `Partition.PassNode`. Callbacks with other effects are not modelled.
- Rooms, doors, connectivity and a lock/key puzzle are not implemented in bsp.js, so they are not modelled.
