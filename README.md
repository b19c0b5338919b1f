# StompyBlondie Unity tools: A* search, navigation maps and direction helpers

This project is a Dafny model of the core of the StompyBlondie Unity tools. It covers three parts:

- **`AStarSearch`** (`astar.dfy`): a generic A* search. Node values are opaque. Open and closed nodes are dictionaries keyed by value. Each step dequeues the open node of least `cost` and either completes the path to it or closes it and merges its branches. Three overridable hooks supply the costs, the branches and the end test; here they are the function fields of a `Hooks` value.
- **`Navigation`** (`navigation.dfy`): the navigation map. It is a dictionary from tile position (`Pos`) to a navigation point. Each point owns an ordered list of links, and each link carries a cost multiplier. Links are added and broken in pairs, and points are added and removed.
- **`Directions`** (`directions.dfy`): the four- and eight-way direction enums. They can be rotated clockwise or anticlockwise and turned into Euler degrees.

`Wrappers` (`wrappers.dfy`) holds the `Option` type. It stands in for `null` results and for the exception LINQ `Min`/`Max` throw on an empty key set.

Representation:

- `NavigationPoint` and `NavigationMap` are classes. Their methods change `links` and `points` in place.
- Each method is specified against a pure function on the abstract map `Model()`: `AddPointTo`, `AddLinkTo`, `RemovePointFrom` and `BreakLinkIn`. The lemmas about those functions say what each operation does. They also show that each operation keeps link targets unique (`WellFormed`) and keeps links paired (`Undirected`).
- The search engine is the class `AStar`, whose fields are the open map, the closed map and the found path.
- `ExpandNextNode` and its loop are proved against `Merge`, which offers the branches one at a time. They are also proved against an invariant (`SearchState`) that holds between steps.
- `Search` is proved to return either a well-formed path ending in an end node, or `None` with the search exhausted. When Expand links each branch to its parent, the path also repeats no value.

## Model

| member | source | states |
|---|---|---|
| Directions.Ordinal | Common/Types.cs:14-20 | the integer value of a `Direction` is one of 0..3 |
| Directions.ToDirection | Common/Types.cs:14-20 | the cast from 0..3 gives the direction with that value |
| Directions.EightOrdinal | Common/Types.cs:25-35 | the integer value of an `EightDirection` is one of 0..7 |
| Directions.ToEightDirection | Common/Types.cs:25-35 | the cast from 0..7 gives the eight-way direction with that value |
| Directions.OrdinalRoundTrip | Common/Types.cs:14-20 | casting a direction to int and back gives the same direction |
| Directions.EightOrdinalRoundTrip | Common/Types.cs:25-35 | casting an eight-way direction to int and back gives the same direction |
| Directions.CsRemainder | scripts/Utils/DirectionHelper.cs:26 | C#'s truncating `%`: equal to the mathematical remainder on non-negative operands, and strictly between -n and n |
| Directions.RotateDirection | scripts/Utils/DirectionHelper.cs:20-27 | the result is a declared direction whose value is the input's value plus one step (+1 clockwise, -1 anticlockwise) modulo 4 |
| Directions.RotateEightDirection | scripts/Utils/DirectionHelper.cs:33-40 | the same rotation modulo 8 |
| Directions.RotateSteps | scripts/Utils/DirectionHelper.cs:20-27 | clockwise is +1 and wraps Right to Down; anticlockwise is -1, and Down anticlockwise gives Right (n-1) |
| Directions.RotateEightSteps | scripts/Utils/DirectionHelper.cs:33-40 | the same for eight directions: RightDown wraps to Down and back |
| Directions.RotateInverse | scripts/Utils/DirectionHelper.cs:20-27 | a clockwise and an anticlockwise rotation undo each other, in either order |
| Directions.RotateEightInverse | scripts/Utils/DirectionHelper.cs:33-40 | the same for eight directions |
| Directions.RotateTimesOrdinal | scripts/Utils/DirectionHelper.cs:20-27 | k rotations in one sense move the value by k steps modulo 4 |
| Directions.RotateEightTimesOrdinal | scripts/Utils/DirectionHelper.cs:33-40 | k rotations move the value by k steps modulo 8 |
| Directions.FullTurn | scripts/Utils/DirectionHelper.cs:20-27 | any multiple of 4 rotations in one sense returns to the start |
| Directions.EightFullTurn | scripts/Utils/DirectionHelper.cs:33-40 | any multiple of 8 rotations in one sense returns to the start |
| Directions.DirectionToDegrees | scripts/Utils/DirectionHelper.cs:46-49 | the angle is a multiple of 90 between 180 and 450 |
| Directions.EightDirectionToDegrees | scripts/Utils/DirectionHelper.cs:55-58 | the angle is a multiple of 45 between 180 and 495 |
| Directions.DegreesStrictlyIncreasing | scripts/Utils/DirectionHelper.cs:46-49 | the angle grows strictly with the enum value (both directions of the iff), so the map is injective |
| Directions.EightDegreesStrictlyIncreasing | scripts/Utils/DirectionHelper.cs:55-58 | the same for eight directions |
| Directions.DegreesOfRotation | scripts/Utils/DirectionHelper.cs:46-49 | a clockwise rotation changes the angle by 90 modulo 360; an anticlockwise one by 270 |
| Directions.EightDegreesOfRotation | scripts/Utils/DirectionHelper.cs:55-58 | the same with 45 and 315 |
| Navigation.FindIndex | AI/TilemapNavigation.cs:25 | -1 exactly when no link targets the position; otherwise the index of the first such link |
| Navigation.WithLinkSpec | AI/TilemapNavigation.cs:23-31 | after AddLink a link to the target exists; an existing link (and its multiplier) is kept untouched; otherwise the new link is appended; unique targets are preserved |
| Navigation.WithoutLinkAt | AI/TilemapNavigation.cs:33-39 | BreakLink removes exactly the element at the first matching index and keeps the others in order |
| Navigation.WithoutLinkAbsent | AI/TilemapNavigation.cs:36-37 | with no link to the target the list is unchanged |
| Navigation.WithoutLinkSpec | AI/TilemapNavigation.cs:33-39 | with unique targets, no link to the target remains, every other link remains, nothing is added, and the length drops by one exactly when a link existed |
| Navigation.AddPointSpec | AI/TilemapNavigation.cs:91-97 | an existing position leaves the map unchanged; a new one is added with no links and nothing else changes; well-formedness and link pairing are kept |
| Navigation.AddLinkSpec | AI/TilemapNavigation.cs:103-110 | both points end up linked to each other; a point that already links to the other keeps its list unchanged (so the old multiplier stays); otherwise exactly one link to the other point, with the given multiplier, is appended (once for a self-link); no other point changes; links only grow; the key set is unchanged |
| Navigation.AddLinkIdempotent | AI/TilemapNavigation.cs:103-110 | a second AddPointLink on the same pair changes nothing, whatever multiplier it passes |
| Navigation.AddLinkUndirected | AI/TilemapNavigation.cs:99-110 | adding a pair of links to a map whose links are all paired keeps them all paired |
| Navigation.RemovePointSpec | AI/TilemapNavigation.cs:112-120 | the position is gone; no remaining point links to it; every other link survives; pairing is kept; removing an absent position from a paired map changes nothing |
| Navigation.BreakLinkSpec | AI/TilemapNavigation.cs:122-131 | neither point links to the other afterwards; all other links and points are unchanged; missing points are skipped; pairing is kept |
| Navigation.MinOver | AI/TilemapNavigation.cs:51-53 | the least value of a coordinate over the keys: attained by some key and no greater than any key's |
| Navigation.MaxOver | AI/TilemapNavigation.cs:54-56 | the greatest value of a coordinate over the keys: attained and no smaller than any key's |
| Navigation.NavigationPoint.AddLink | AI/TilemapNavigation.cs:23-31 | the point's link list becomes `WithLink` of the old list |
| Navigation.NavigationPoint.BreakLink | AI/TilemapNavigation.cs:33-39 | the point's link list becomes `WithoutLink` of the old list |
| Navigation.NavigationMap.constructor | AI/TilemapNavigation.cs:59-61 | a new map is empty and valid |
| Navigation.NavigationMap.Clone | AI/TilemapNavigation.cs:63-73 | the clone has the same abstract map, and every point in it is a new object sharing none with the original |
| Navigation.NavigationMap.Reset | AI/TilemapNavigation.cs:75-78 | the map becomes empty |
| Navigation.NavigationMap.HasPoint | AI/TilemapNavigation.cs:83-86 | true exactly when the position is a key of the map |
| Navigation.NavigationMap.AddPoint | AI/TilemapNavigation.cs:91-97 | returns true exactly when the position was absent; the new map is `AddPointTo` of the old one |
| Navigation.NavigationMap.AddLinkFrom | AI/TilemapNavigation.cs:107-108 | adding one direction of a link through the stored point changes that key's list and nothing else |
| Navigation.NavigationMap.AddPointLink | AI/TilemapNavigation.cs:103-110 | the multiplier defaults to 1; returns true exactly when both points exist; the new map is `AddLinkTo` of the old one; pairing is preserved |
| Navigation.NavigationMap.RemovePoint | AI/TilemapNavigation.cs:115-120 | the new map is `RemovePointFrom` of the old one; pairing is preserved |
| Navigation.NavigationMap.BreakLinkFrom | AI/TilemapNavigation.cs:127-130 | breaking one direction of a link through the stored point changes that key's list and nothing else |
| Navigation.NavigationMap.BreakPointLink | AI/TilemapNavigation.cs:125-131 | the new map is `BreakLinkIn` of the old one; pairing is preserved |
| Navigation.NavigationMap.Bounds | AI/TilemapNavigation.cs:50-57 | None exactly for an empty map; otherwise min is at most max on each axis, every key lies in the box, and each bound is attained by some key |
| Navigation.NavigationMap.SuperimposeNavigationMap | AI/TilemapNavigation.cs:144-149 | the unimplemented method always reports success |
| AStarSearch.DefaultCostNode | Math/AStar.cs:78-81 | the default costs: cost 0, and the predecessor's path cost, or 0 without a predecessor |
| AStarSearch.DefaultExpand | Math/AStar.cs:93-96 | the default expansion yields no branches |
| AStarSearch.DefaultIsEndNode | Math/AStar.cs:98-101 | the default end test holds exactly when the node's value is the end value |
| AStarSearch.DefaultHooksShape | Math/AStar.cs:78-101 | with the default hooks, the costed start is the start with costs 0, every branch is within any universe and linked to its parent, and the end test and expansion look only at values |
| AStarSearch.ChainShape | Math/AStar.cs:154-164 | the path to a node is non-empty, ends in the node, begins with a node that has no predecessor, and each node's predecessor is the node before it |
| AStarSearch.CompletePath | Math/AStar.cs:154-164 | the path built by prepending predecessors is exactly the chain of the end node |
| AStarSearch.LowestCost | Math/AStar.cs:122-124 | the node picked is an open node whose cost is no greater than any other open node's |
| AStarSearch.OfferSpec | Math/AStar.cs:141-150 | a branch never opens a closed value; it replaces an open entry only with a strictly lower path cost; no other key changes; afterwards an unclosed value is open at no more than the branch's path cost |
| AStarSearch.MergeSpec | Math/AStar.cs:138-151 | merging the branches keeps keys matched to values; open path costs only decrease; every entry is old or is a branch of an unclosed value; closed values are never opened; every unclosed branch ends up open |
| AStarSearch.ReachableChain | Math/AStar.cs:154-164 | when Expand links each branch to its parent, the path to a reached node starts at the costed start and each step is a branch of the node before it |
| AStarSearch.ExhaustedMeansUnreachable | Math/AStar.cs:45-53 | when the search is exhausted and the hooks look only at values, no walk along Expand from the start ever meets an end node |
| AStarSearch.InitialState | Math/AStar.cs:103-112 | after InitSearch, only the costed start is open, or nothing is open when it cannot be costed, and the search invariant holds |
| AStarSearch.ExpandStep | Math/AStar.cs:120-152 | closing a non-end best node and merging its branches preserves the search invariant (disjoint open and closed maps, branches of closed nodes covered, no closed end node, open nodes reachable, paths to open nodes fresh) and closes one more value |
| AStarSearch.FreshAfterStep | Math/AStar.cs:135-151 | when Expand links each branch to its parent, the path to every open node repeats no value and all its nodes before the last are closed, and closing the best node and merging its branches keeps this so: a node is closed before any of its branches is opened, and a closed value is never reopened |
| AStarSearch.AStar.constructor | Math/AStar.cs:37-43 | a new engine has the given hooks and empty state |
| AStarSearch.AStar.Search | Math/AStar.cs:54-65 | see "Search" below |
| AStarSearch.AStar.InitSearch | Math/AStar.cs:103-112 | the open map holds the costed start, or is empty when CostNode returns null; the invariant holds |
| AStarSearch.AStar.DoSearch | Math/AStar.cs:114-118 | it runs until the open map is empty; afterwards the search is either exhausted with the invariant kept, or a path has been found |
| AStarSearch.AStar.ExpandNextNode | Math/AStar.cs:120-152 | the dequeued node has minimal cost; an end node gives its path and an empty open map; otherwise the node is closed, the open map is `Merge` of its branches, the invariant is kept and the number of unclosed values falls |
| AStarSearch.AStar.MergeBranches | Math/AStar.cs:139-151 | the loop over the branches leaves the open map equal to `Merge` of them, with the closed map unchanged |
| AStarSearch.DefaultSearch | Math/AStar.cs:78-101 | with the default hooks, a search from a value to itself returns the one-node path of the start (costs 0), and a search between different values returns null |

`AStarSearch.AStar.Search` guarantees the following, where the "seed" is the start node after CostNode has costed it:

- Each call starts from fresh state. Afterwards the open map is empty.
- If CostNode returns null for the start, the result is `None` and nothing was closed.
- If the result is `None` and the start was costed:
  - the start is closed;
  - no closed node is an end node;
  - every branch of every closed node is closed.
- A returned path:
  - is well formed (see `ChainShape`);
  - ends in an end node;
  - is the chain of its last node.
- If Expand links each branch to its parent, a returned path also:
  - begins at the seed;
  - moves along Expand;
  - visits each value at most once (`DistinctValues`).

## Left out

- `Pos` uses exact integer coordinates. The source's `Pos` stores floats and compares them with a 0.005 tolerance, with a hash that does not respect that tolerance. Its parser (`PosTypeConverter`) and `ToString` are not modelled.
- Costs and cost multipliers are mathematical reals rather than 32-bit floats, so rounding is not modelled. Angles are integers; the source's degree values are exact in float anyway.
- `DistanceBetweenPoints` is not part of this model, because it needs a floating-point square root. `RotatePosAround` is also not modelled (floating-point trigonometry).
- `SuperimposeNavigationMap`: the source body is an unimplemented stub, so the model states only its constant `true` result and that it changes nothing.
- The empty `TilemapNavigation` class and the Unity glue (behaviours, extensions, effects manager) are not modelled.
- Struct copies of `NavigationPoint`:
  - In the source, a point is a struct that holds a reference to a shared list.
  - `points[key].AddLink(...)` therefore mutates the stored list through a copy.
  - The model makes the point a class whose `links` sequence is updated in place.
  - `Valid()` states that each key has its own point object, just as each key has its own list in the source.
- `RemovePoint` walks the keys of the map, where the source walks its values. With one point per key, the two are equivalent.
- `AStarNode` is an immutable value, so reference identity of `previous` becomes value equality.
  - The source mutates only the start node, and only before it is opened.
  - The model builds the costed start as a new value instead.
  - A cyclic `previous` chain cannot arise in the model, so `CompletePath` always terminates.
- `AStarSearch.DefaultIsEndNode` compares values. The source's `==` on `Object` compares references, so with boxed value types the default end test can fail even for equal values. The model states the value-equality behaviour.
- The source's `protected` `start` and `end` fields become an `Ends` value holding their two values. It is passed to `InitSearch`, `DoSearch` and `ExpandNextNode`, and to every hook, so that a hook may read either value as a subclass's override may. A hook does not see the costs InitSearch writes into the source's `start` node.
- AStarSearch.LowestCost: returns any least-cost open node. The source takes the first of equally cheap nodes in dictionary order (`OrderBy` is stable), and that order is unspecified.
- AStarSearch.AStar.Search requires every value Expand produces to lie in a finite set, passed as a ghost `universe` argument. The model needs this to show that `DoSearch` terminates. On an infinite search space the source may loop forever; the model does not cover that case.
- `Direction` and `EightDirection` are datatypes with only the declared members. A C# enum variable may hold any integer, for example `(Direction)7`, and `RotateDirection` and `DirectionToDegrees` then compute from that integer. Such undeclared values are not modelled.
- Optimality of the returned path (least path cost) is not stated. It depends on an admissible estimate in an overriding CostNode, which the generic engine cannot check.
