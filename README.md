# GooberEats delivery planning, modelled in Dafny

GooberEats plans a delivery robot's round trip. It loads a street map, orders a
list of deliveries, routes the robot from the depot to each delivery location
and back, and turns each route into driving instructions: proceed, turn and
deliver. This project models the five files that do that work and proves
properties of the model.

- `GeoTypes.dfy` holds the value types shared by the core: coordinates kept as
  their latitude and longitude text, directed street segments, delivery
  requests, result codes, and delivery commands. It also holds `Geometry`, a
  record of the three geometric functions the core calls (distance between
  coordinates, bearing of a segment, angle between two segments). The model
  treats them as parameters.
- `HashMap.dfy` models `ExpandableHashMap`, the separate-chaining hash table
  every other part uses. The class keeps the source's fields: the load-factor
  bound, the slot count, the bucket array, and the counters of filled buckets
  and of associations. A ghost `Contents` map is what the table represents.
  The invariant `Valid` says:
  - every entry sits in the bucket its hash selects;
  - keys are unique;
  - the buckets hold exactly `Contents`;
  - both counters agree with the buckets.

  `associate` either overwrites a value in place, or first doubles the table
  and then appends. The rehash is proved to keep the contents and the counts.
- `StreetMap.dfy` models `StreetMapImpl`. The coordinate hash is a string hash
  of the two texts, truncated to 32 bits. The street index is a map from a
  coordinate to the segments that start there, in load order. Line-by-line map
  loading is a state machine over pre-split lines. Each file segment is added
  in both directions.
- `Router.dfy` models `PointToPointRouterImpl`. It is a breadth-first search
  whose visited set is a predecessor `ExpandableHashMap`, followed by a
  backtrack that prepends segments and sums their lengths. The proofs show:
  - a successful search leaves a predecessor tree rooted at the start that
    reaches the end;
  - a search that runs dry means no walk exists (the visited set is closed
    under the index's edges);
  - the backtracked route is a chain of indexed segments between the two
    coordinates, and its length is the reported distance.
- `Optimizer.dfy` models `DeliveryOptimizerImpl`. That covers the bounded
  random draw, the guarded swap, the crow-flies tour length and the grouping
  of same-location deliveries. It also covers the simulated-annealing loop:
  shuffle, group by radius, sort the groups by distance from the depot,
  rebuild, regroup same locations, and keep the best ordering. The result is a
  permutation of the input whose tour is never longer.
- `Planner.dfy` models `DeliveryPlannerImpl`. It has the compass and turn
  names and a specification `Leg` of the commands emitted for one route. The
  whole plan is the concatenation of its legs. The properties proved are:
  - the proceed distances add up to the routes' lengths;
  - each delivered item is delivered exactly once;
  - a turn always follows a proceed;
  - on failure the plan stops at the first leg that cannot be routed, with
    the router's result.

The router's route is modelled as the code builds it. The backtracking loop
starts at the end coordinate. At each step it takes the segment that starts at
the current coordinate and ends at its predecessor, and prepends it. The
returned list is therefore ordered from start to end, but every segment in it
points backwards: `route[0].end` is the start, and the last segment starts at
the end. `Router.BackChain` states exactly this shape, and
`Router.BackChainIsWalk` proves that the reversed segments form a walk from
start to end. One might expect a route whose first segment starts at the
requested start. The code does not produce that, and the model follows the
code. The planner reads each proceed's compass point from the segment as
stored (`Planner.LegOpensWithFirstSegment`).

## Model

| member | source | states |
|---|---|---|
| GeoTypes.ReverseTwice | project4/StreetMap.cpp:78-79 | reversing the second segment built for a file line gives back the first, and the two differ whenever the line joins two different coordinates |
| GeoTypes.SumLengthNonNegative | project4/PointToPointRouter.cpp:102 | with a non-negative distance function, the summed length of any route is non-negative |
| HashMap.AppendEntry | project4/ExpandableHashMap.h:160-174 | appending a new key to the bucket its hash selects keeps the table well formed, now representing the map extended by that key |
| HashMap.OverwriteEntry | project4/ExpandableHashMap.h:91-96 | overwriting the value stored at an entry keeps the table well formed, represents the map updated at that key, and leaves the filled-bucket count unchanged |
| HashMap.ReplaceAt | project4/ExpandableHashMap.h:189-194 | because keys are unique, writing the value at the key's position equals replacing the key's value throughout its bucket |
| HashMap.CountsUpdate | project4/ExpandableHashMap.h:131-142 | replacing one bucket changes the association count by the change in that bucket's length, and the filled count by the change in its emptiness |
| HashMap.RehashKeepsContents | project4/ExpandableHashMap.h:115-144 | re-inserting every entry, bucket by bucket, into an empty table of any size gives a well-formed table of the same map, with one entry per key |
| HashMap.RehashBucket | project4/ExpandableHashMap.h:126-143 | the inner rehash loop leaves the new table equal to inserting the bucket's entries in order, and counts the new entries and newly filled buckets |
| HashMap.RehashTable | project4/ExpandableHashMap.h:111-144 | the rehash loop builds a fresh table of the new size that holds the same map, with association and filled-bucket counts that match it |
| HashMap.LoadAfterInsert | project4/ExpandableHashMap.h:106-111 | with a load-factor bound of at least 1/16, a table of at least 8 buckets whose load was within the bound is still within it after one new key and at most one doubling |
| HashMap.LoadCanExceedSmallFactor | project4/ExpandableHashMap.h:106-111 | for every bound below 1/16, the first insertion into a fresh table doubles it to 16 buckets and still leaves the load above the bound |
| HashMap.ExpandableHashMap.constructor | project4/ExpandableHashMap.h:40-55 | the bound is the requested factor if it lies in (0, 1], else 0.5; 8 slots; empty contents; both counters zero, so the load is within the bound |
| HashMap.ExpandableHashMap.Reset | project4/ExpandableHashMap.h:69-78 | afterwards the map is empty with 8 slots and zero counters, so the load is within the bound |
| HashMap.ExpandableHashMap.Size | project4/ExpandableHashMap.h:81-84 | returns the number of keys in the map |
| HashMap.ExpandableHashMap.Lookup | project4/ExpandableHashMap.h:180-195 | the bucket index is the hash modulo the slot count; the position is -1 exactly when the key is absent, and otherwise holds the key and its value |
| HashMap.ExpandableHashMap.Find | project4/ExpandableHashMap.h:178-196 | returns the key's value when the key is present, and nothing otherwise |
| HashMap.ExpandableHashMap.Grow | project4/ExpandableHashMap.h:109-157 | doubles the slot count into a fresh array; contents and association count are unchanged |
| HashMap.ExpandableHashMap.OverwriteAt | project4/ExpandableHashMap.h:91-96 | the value at a found entry is replaced in place; the map is updated at that key and no counter changes |
| HashMap.ExpandableHashMap.GrowIfNeeded | project4/ExpandableHashMap.h:106-157 | doubles the slots exactly when (size + 1) / slots exceeds the bound; contents are unchanged; with a bound of at least 1/16 and the load within it, one more entry fits within the bound |
| HashMap.ExpandableHashMap.AppendNew | project4/ExpandableHashMap.h:160-174 | a new key is appended to the end of its bucket; the map gains the key and the association count rises by one |
| HashMap.ExpandableHashMap.Associate | project4/ExpandableHashMap.h:87-175 | the map afterwards is the old map updated at the key; an existing key changes nothing else; a new key adds one association, after doubling the slots exactly when the load after insertion would exceed the bound; with a bound of at least 1/16 a load within the bound stays within it |
| StreetMap.CoordHash | project4/StreetMap.cpp:11-14 | the hash fits in 32 bits |
| StreetMap.CoordHashSeesOnlyText | project4/StreetMap.cpp:11-14 | two coordinates whose texts concatenate to the same string hash alike |
| StreetMap.AddSegmentLists | project4/StreetMap.cpp:78-97 | adding a file segment appends the forward segment to its start's list and the reversed one to its end's list, and adds both endpoints as keys |
| StreetMap.AddSegmentKeepsInvariant | project4/StreetMap.cpp:78-97 | after an addition every listed segment still starts at its key, and every segment's reverse is still listed at its end |
| StreetMap.AddAllAppends | project4/StreetMap.cpp:50-104 | loading a sequence of segments appends, to each coordinate's list, the segments of that sequence that leave it, in order |
| StreetMap.AddAllKeepsInvariant | project4/StreetMap.cpp:50-104 | loading any sequence of segments keeps the index invariant |
| StreetMap.RunFromConcat | project4/StreetMap.cpp:50-104 | reading two runs of lines in turn gives the state and segments of reading them at once |
| StreetMap.StreetRecord | project4/StreetMap.cpp:54-103 | a street with at least one segment line yields exactly its segments and leaves the reader expecting a name |
| StreetMap.StreetPrefix | project4/StreetMap.cpp:54-103 | after the name, the count and j segment lines of a street, the reader holds the count n - j and has produced the first j segments |
| StreetMap.LoadWellFormedFile | project4/StreetMap.cpp:36-106 | a file made of street records, each with at least one segment, loads exactly their segments in order |
| StreetMap.CountBelowOneSwallowsRest | project4/StreetMap.cpp:61-102 | once a count of zero or less is being consumed, every later line is read as a segment line and the count never returns to zero |
| StreetMap.StreetMap.constructor | project4/StreetMap.cpp:28-30 | a new street map has an empty index and hashes coordinates with the 32-bit coordinate hash |
| StreetMap.StreetMap.Append | project4/StreetMap.cpp:81-88 | one read-modify-write: the key's list (or the empty list) is fetched, the segment is appended, and the list is stored back |
| StreetMap.StreetMap.AddStreetSegment | project4/StreetMap.cpp:71-97 | the index afterwards is the old index with the forward and reversed segments appended |
| StreetMap.StreetMap.Load | project4/StreetMap.cpp:36-106 | reports whether the file opened; if it did, the index gains every segment the lines describe, in both directions, and otherwise is unchanged |
| StreetMap.StreetMap.GetSegmentsThatStartWith | project4/StreetMap.cpp:108-115 | succeeds exactly when the coordinate is indexed, and then returns its list, every segment of which starts there; otherwise the caller's list is left as it was |
| Router.BackChainPush | project4/PointToPointRouter.cpp:94-102 | prepending the segment from the current coordinate to its predecessor extends the backward chain, and adds its length to the total |
| Router.BackChainIsWalk | project4/PointToPointRouter.cpp:89-107 | the reversed segments of a backward chain form a walk of indexed segments from the start to the end |
| Router.WalkStaysInClosedSet | project4/PointToPointRouter.cpp:82-83 | a walk from inside a set that is closed under the index's edges never leaves it |
| Router.ExpandKeepsTree | project4/PointToPointRouter.cpp:69-78 | recording the current coordinate as predecessor of its newly seen neighbours keeps a rooted predecessor tree whose every link is an indexed segment |
| Router.SearchStep | project4/PointToPointRouter.cpp:61-80 | one iteration of the search keeps the search invariant, and shrinks the set of unseen indexed coordinates whenever it enqueues anything |
| Router.ExpansionExpands | project4/PointToPointRouter.cpp:69-78 | the expansion records exactly the segment ends not seen before, each once, in segment order, with the current coordinate as predecessor |
| Router.Discover | project4/PointToPointRouter.cpp:72-77 | a segment end is recorded, with the current coordinate as predecessor, exactly when it was not recorded before |
| Router.Expand | project4/PointToPointRouter.cpp:69-78 | the inner loop's effect on the predecessor map and the queue equals the expansion of the current coordinate |
| Router.FirstEndingAt | project4/PointToPointRouter.cpp:95-99 | the index of the first segment that ends at the target |
| Router.PointToPointRouter.constructor | project4/PointToPointRouter.cpp:24-27 | the router keeps the street map it is given |
| Router.PointToPointRouter.Visit | project4/PointToPointRouter.cpp:63-79 | dequeuing and expanding a coordinate keeps the search invariant and makes progress |
| Router.PointToPointRouter.Search | project4/PointToPointRouter.cpp:55-83 | if the end is reached, the predecessor map is a tree rooted at the start that records the end; otherwise no walk from start to end exists |
| Router.PointToPointRouter.Explore | project4/PointToPointRouter.cpp:57-83 | the breadth-first loop itself, with the same two outcomes |
| Router.PointToPointRouter.StepBack | project4/PointToPointRouter.cpp:94-106 | one backtracking step takes the first segment on the current coordinate's list that ends at its predecessor, and moves the predecessor up the tree |
| Router.PointToPointRouter.Backtrack | project4/PointToPointRouter.cpp:88-107 | backtracking yields a non-empty backward chain from start to end, each segment the first on its start's list that reaches its end, and the total is its summed length |
| Router.PointToPointRouter.GeneratePointToPointRoute | project4/PointToPointRouter.cpp:33-110 | equal endpoints: success, an empty route and distance 0. An endpoint missing from the index gives bad coordinate. No route means no walk exists. On success the route is a backward chain whose reversal is a walk, each segment the first on its list between its two ends, and whose length is the distance. On failure the route is empty and the distance untouched |
| Router.SearchStarts | project4/PointToPointRouter.cpp:55-59 | the start alone in the queue satisfies the search invariant |
| Router.ReachedIsRecorded | project4/PointToPointRouter.cpp:66-67 | dequeuing the end means the predecessor tree records it |
| Router.ClosedWhenDone | project4/PointToPointRouter.cpp:82-83 | an empty queue without having met the end means no walk from start to end |
| Optimizer.RandInt | project4/DeliveryOptimizer.cpp:33-45 | the draw lies between the two bounds, in either order, and consumes one draw |
| Optimizer.RandIntCoversRange | project4/DeliveryOptimizer.cpp:33-45 | every value between the bounds is drawn by some source of randomness |
| Optimizer.Swap | project4/DeliveryOptimizer.cpp:94-101 | out-of-range indices change nothing; otherwise the two entries trade places and the rest is unchanged; always a permutation |
| Optimizer.TourFromNonNegative | project4/DeliveryOptimizer.cpp:103-117 | a crow-flies tour is never negative |
| Optimizer.CrowDistanceOfOne | project4/DeliveryOptimizer.cpp:103-117 | the tour of one delivery is out to it and back |
| Optimizer.CalcCurrCrowDistance | project4/DeliveryOptimizer.cpp:103-117 | the loop computes the depot-to-first, stop-to-stop, last-to-depot tour length |
| Optimizer.GroupStep | project4/DeliveryOptimizer.cpp:84-91 | after the inner pass for position i, the first i + 1 entries group their locations together |
| Optimizer.PutSameLocDeliveriesTogether | project4/DeliveryOptimizer.cpp:82-92 | the result is a permutation in which deliveries to the same location are adjacent |
| Optimizer.FlattenPermutation | project4/DeliveryOptimizer.cpp:226-228 | rearranging groups rearranges their concatenation |
| Optimizer.JoinNewest | project4/DeliveryOptimizer.cpp:188-195 | a delivery at the group centre opens a new group of its own; any other is appended to the newest group; the other groups are unchanged and all stay within radius |
| Optimizer.GatherAround | project4/DeliveryOptimizer.cpp:182-200 | one sweep around the first delivery moves every delivery within radius into groups about it and leaves only those beyond it |
| Optimizer.FormGroups | project4/DeliveryOptimizer.cpp:180-201 | grouping empties the delivery list, and every group opens at its centre and lies within radius of it; the groups hold a permutation of the deliveries |
| Optimizer.MemberListsOfSwap | project4/DeliveryOptimizer.cpp:119-126 | swapping groups swaps their member lists |
| Optimizer.SetAvgPoints | project4/DeliveryOptimizer.cpp:205-206 | each group gets the average point of its own members, and the members are kept |
| Optimizer.NearestFrom | project4/DeliveryOptimizer.cpp:211-221 | the first group from position i on whose centre is nearest the depot |
| Optimizer.SelectionStep | project4/DeliveryOptimizer.cpp:209-223 | swapping the nearest remaining group into place extends the sorted prefix |
| Optimizer.SortGroups | project4/DeliveryOptimizer.cpp:209-223 | the groups are permuted into non-decreasing distance of their centres from the depot |
| Optimizer.Rebuild | project4/DeliveryOptimizer.cpp:226-228 | the deliveries are appended group by group in the groups' order |
| Optimizer.TruncateToInt | project4/DeliveryOptimizer.cpp:174 | conversion to int truncates toward zero |
| Optimizer.OptimizeDeliveryOrder | project4/DeliveryOptimizer.cpp:128-248 | an empty list is left alone. Otherwise the result is a permutation, the old distance is the input's tour, and the new distance is the result's tour and never longer. A single delivery is returned unchanged |
| Optimizer.Shuffle | project4/DeliveryOptimizer.cpp:157-158 | the shuffle is a permutation and consumes one draw per delivery |
| Planner.DirName | project4/DeliveryPlanner.cpp:21-32 | the name is always one of the eight compass points |
| Planner.DirNameOctant | project4/DeliveryPlanner.cpp:21-32 | each compass point owns the 45 degrees centred on its multiple of 45, east also owning 337.5 to 360 |
| Planner.DirNameOpposite | project4/DeliveryPlanner.cpp:21-32 | reversing a bearing in the first half-turn names the opposite compass point |
| Planner.TurnDirRanges | project4/DeliveryPlanner.cpp:34-39 | left exactly on [1, 180), right exactly on [180, 359], no turn exactly below 1 or above 359 |
| Planner.TurnDirMirror | project4/DeliveryPlanner.cpp:34-39 | a left turn's mirror angle is a right turn |
| Planner.TurnCommand | project4/DeliveryPlanner.cpp:138-149 | at most one command, a turn onto the new segment's street |
| Planner.LegLastStep | project4/DeliveryPlanner.cpp:107-130 | the last segment joins the running street, closes it with one proceed over its full distance, then delivers unless the leg returns to the depot |
| Planner.LegChangeStep | project4/DeliveryPlanner.cpp:132-156 | a new street name closes the running street with a proceed over its distance, maybe a turn, and starts the new street with the current segment |
| Planner.LegCoversRoute | project4/DeliveryPlanner.cpp:93-157 | on a route of named streets the leg's proceed distances add up to the route's length |
| Planner.LegDelivers | project4/DeliveryPlanner.cpp:116-121 | a leg delivers its item exactly once, or nothing on the return to the depot |
| Planner.LegEndsWithDelivery | project4/DeliveryPlanner.cpp:116-121 | a delivery leg ends with its deliver command |
| Planner.LegTurnsFollowProceeds | project4/DeliveryPlanner.cpp:134-149 | within a leg every turn comes straight after a proceed, and no leg opens with a turn |
| Planner.LegOpensWithRunningStreet | project4/DeliveryPlanner.cpp:99-112 | once a street is running, the next command is a proceed along it, named by the bearing it started with |
| Planner.LegOpensWithFirstSegment | project4/DeliveryPlanner.cpp:99-105 | a leg opens with a proceed along the first segment's street, in the compass direction of that segment as stored |
| Planner.LastSegmentJoinsRunningStreet | project4/DeliveryPlanner.cpp:107-113 | a two-segment leg over two streets makes a single proceed along the first street over both lengths, and no turn |
| Planner.ProjectPermutation | project4/DeliveryPlanner.cpp:68-72 | rearranging deliveries rearranges their items |
| Planner.PermutationKeepsDistinct | project4/DeliveryPlanner.cpp:68-72 | reordering keeps the stops at distinct locations away from the depot |
| Planner.DistinctStopsMove | project4/DeliveryPlanner.cpp:76-85 | with the return to the depot appended, every leg runs between different coordinates |
| Planner.LegsFollowSnoc | project4/DeliveryPlanner.cpp:79-89 | a route chained from the current start to the next stop extends the routed legs |
| Planner.PlanSnoc | project4/DeliveryPlanner.cpp:79-161 | routing one more leg appends that leg's commands to the plan |
| Planner.PlanDelivers | project4/DeliveryPlanner.cpp:79-161 | the plan delivers the items of the stops reached, in order, except the return to the depot |
| Planner.PlanDeliversEveryItem | project4/DeliveryPlanner.cpp:68-161 | a complete plan delivers every requested item exactly as often as it was requested |
| Planner.PlanCoversRoutes | project4/DeliveryPlanner.cpp:79-161 | on named streets the plan's proceed distances add up to the total length of its routes |
| Planner.PlanTurnsFollowProceeds | project4/DeliveryPlanner.cpp:79-161 | throughout the plan every turn comes straight after a proceed |
| Planner.DeliveryPlanner.constructor | project4/DeliveryPlanner.cpp:41-44 | the planner keeps the street map it is given |
| Planner.DeliveryPlanner.EmitLeg | project4/DeliveryPlanner.cpp:93-157 | the segment loop appends exactly the leg's commands, and adds exactly their proceed distances to the total |
| Planner.DeliveryPlanner.PlanLeg | project4/DeliveryPlanner.cpp:82-157 | a routed leg appends its commands; no route means no walk; a bad coordinate means the stop is not indexed; a failure changes nothing |
| Planner.DeliveryPlanner.PlanLegs | project4/DeliveryPlanner.cpp:79-161 | the commands are the plan of the routed legs, each route chaining its leg's endpoints. Success means every leg was routed; a failure names the first unroutable leg with the router's reason |
| Planner.DeliveryPlanner.GenerateDeliveryPlan | project4/DeliveryPlanner.cpp:51-163 | an unindexed depot gives bad coordinate and changes nothing. Otherwise the stops are a reordering of the deliveries plus the return to the depot. The commands and distance appended are those of the legs routed, and the result is success exactly when all were routed |

## Left out

- Reading files, `cerr` messages, destructors and memory management are not modelled. `StreetMap.StreetMap.Load` takes a flag saying whether the file opened, and the lines already split into their text, the number read from them and four whitespace-separated tokens.
- The distance, bearing and angle functions of the geographic helpers are parameters (`Geometry`). Floating point is modelled by exact reals, so rounding, overflow and NaN are not captured.
- `std::hash<string>` is a parameter of `StreetMap.CoordHash`; only its truncation to `unsigned int` is modelled.
- The random engine is the `Random` oracle. The cooling schedule (10000 down to 0.0001 by a factor 0.99) is the constant round count `Optimizer.CoolingRounds`, 1833.
- `setAvgPoint` averages parsed degrees, rounds them to seven decimals and prints them back as text. It is modelled by an `averagePoint` parameter, because parsing and printing floating point are out of scope.
- `Optimizer.OptimizeDeliveryOrder`: on an empty list the source leaves the two distances as the caller passed them. The planner passes uninitialised variables, modelled as 0.0.
- `Optimizer.CalcCurrCrowDistance` requires a non-empty list. On an empty list the source measures from a default-constructed coordinate, and the optimizer never calls it that way.
- `Planner.DeliveryPlanner.GenerateDeliveryPlan` requires at least one delivery, distinct delivery locations, and no delivery at the depot. A leg from a coordinate to itself gets an empty route, and the source then reads its first segment, which is undefined behaviour. The order of the legs is chosen by the optimizer inside the method, so the condition has to be stated on the input. It excludes every input for which some order the optimizer may return contains such a leg (an empty list always does).
- `Planner.DeliveryPlanner.GenerateDeliveryPlan` says nothing about inputs that this condition excludes although the order actually returned has no such leg. For example, the optimizer adopts only strictly shorter tours, so a stop at the depot can stay between two other stops.
- `Router.PointToPointRouter.GeneratePointToPointRoute` does not state that the route has the fewest segments of any route. Breadth-first order gives that property, but it is not proved; the model proves the route's shape, its length and the no-route case.
- `Planner.PlanCoversRoutes` and `Planner.LegCoversRoute` state the distance identity only for routes whose segments all have non-empty names. An unnamed first segment's length is carried, not dropped, but it is counted only if a named street follows.
- `Planner.DeliveryPlanner.PlanLegs` states that each route chains its leg backwards (`Router.BackChain`). It does not restate that the reversal is a walk; `Router.BackChainIsWalk` gives that.
- The planner's `currStreetName` is declared outside the leg loop in the source. Every leg leaves it empty, so the model keeps it per leg (`NoStreet`).
- `Planner.TurnCommand` is the source's test of `getTurnDir` followed by the turn command. `Planner.DeliveryPlanner.EmitLeg` appends it as a list of zero or one commands.
- Loops and branches of one source function are split into helper methods (`Explore`, `Visit`, `StepBack`, `Backtrack`, `PlanLeg`, `PlanLegs`, `EmitLeg`, `Grow`, `GrowIfNeeded`, `OverwriteAt`, `AppendNew`, `RehashBucket`, `RehashTable`, `GatherAround`, `JoinNewest`, `FormGroups`, `SortGroups`, `Rebuild`, `Shuffle`) so that each carries its own contract.
- The non-`const` `find` overload, and the wrapper classes `StreetMap`, `PointToPointRouter`, `DeliveryOptimizer` and `DeliveryPlanner` that only forward to their implementations, are not modelled separately.
- The linked lists of the buckets and of the route are sequences. Nodes, heap links and aliasing are not modelled.
