/** The point-to-point router: a breadth-first search over the street index
    that records, for every coordinate it discovers, the coordinate it was
    discovered from, and then walks those records back from the destination. */
module Router {
  import opened GeoTypes
  import opened HashMap
  import opened StreetMap

  // ---------------------------------------------------------------------------
  // Walks and the route's backward chains
  // ---------------------------------------------------------------------------

  /** `p` is a walk from `a` to `b` along stored segments, each leaving from
      where the previous one arrived. */
  ghost predicate IsWalk(idx: Index, p: seq<StreetSegment>, a: GeoCoord, b: GeoCoord)
    decreases |p|
  {
    if p == [] then a == b
    else p[0].start == a && a in idx && p[0] in idx[a] && IsWalk(idx, p[1..], p[0].end, b)
  }

  /** The shape of a route as the router builds it by pushing segments onto its
      front: the first segment ends at `a`, each later one ends where the one
      before it starts, the last one starts at `b`, and every segment is on the
      list of its own start. */
  ghost predicate BackChain(idx: Index, route: seq<StreetSegment>, a: GeoCoord, b: GeoCoord)
    decreases |route|
  {
    if route == [] then a == b
    else
      && route[0].end == a
      && route[0].start in idx && route[0] in idx[route[0].start]
      && BackChain(idx, route[1..], route[0].start, b)
  }

  /** `seg` is the first segment on its start's list that ends where it ends:
      the one the backtrack picks when parallel segments join two points. */
  ghost predicate FirstLink(idx: Index, seg: StreetSegment) {
    && seg.start in idx
    && exists i :: 0 <= i < |idx[seg.start]| && idx[seg.start][i] == seg
                   && forall j :: 0 <= j < i ==> idx[seg.start][j].end != seg.end
  }

  /** Every segment of the route is the first link between its two ends. */
  ghost predicate FirstLinks(idx: Index, route: seq<StreetSegment>) {
    forall k :: 0 <= k < |route| ==> FirstLink(idx, route[k])
  }

  /** Pushing a stored segment that starts where a backward chain ends on the
      `a` side gives a backward chain from the segment's end, one segment
      longer. */
  lemma BackChainPush(geo: Geometry, idx: Index, route: seq<StreetSegment>, seg: StreetSegment, b: GeoCoord)
    requires seg.start in idx && seg in idx[seg.start] && BackChain(idx, route, seg.start, b)
    ensures BackChain(idx, [seg] + route, seg.end, b)
    ensures geo.SumLength([seg] + route) == geo.Length(seg) + geo.SumLength(route)
  {
    assert ([seg] + route)[1..] == route;
  }

  /** Every segment of a route turned around, in the same order. */
  function Flip(route: seq<StreetSegment>): (r: seq<StreetSegment>)
    ensures |r| == |route|
    ensures forall i :: 0 <= i < |r| ==> r[i] == Reverse(route[i])
  {
    if route == [] then [] else [Reverse(route[0])] + Flip(route[1..])
  }

  /** On a symmetric index, a backward chain from `a` to `b` turned around is
      a walk one can drive from `a` to `b`. */
  lemma {:induction false} BackChainIsWalk(idx: Index, route: seq<StreetSegment>, a: GeoCoord, b: GeoCoord)
    requires IndexInvariant(idx) && BackChain(idx, route, a, b)
    ensures IsWalk(idx, Flip(route), a, b)
    decreases |route|
  {
    if route != [] {
      var s := route[0];
      var k :| 0 <= k < |idx[s.start]| && idx[s.start][k] == s;
      assert Reverse(s) in idx[s.end];
      BackChainIsWalk(idx, route[1..], s.start, b);
      assert Flip(route)[1..] == Flip(route[1..]);
    }
  }

  /** A set of coordinates that every stored segment leaving it leads back into. */
  ghost predicate Closed(idx: Index, S: set<GeoCoord>) {
    forall c, k :: c in S && c in idx && 0 <= k < |idx[c]| ==> idx[c][k].end in S
  }

  /** No walk leaves a closed set. */
  lemma {:induction false} WalkStaysInClosedSet(idx: Index, S: set<GeoCoord>, p: seq<StreetSegment>, a: GeoCoord, b: GeoCoord)
    requires Closed(idx, S) && a in S && IsWalk(idx, p, a, b)
    ensures b in S
    decreases |p|
  {
    if p != [] {
      var k :| 0 <= k < |idx[a]| && idx[a][k] == p[0];
      WalkStaysInClosedSet(idx, S, p[1..], p[0].end, b);
    }
  }

  // ---------------------------------------------------------------------------
  // The search's bookkeeping
  // ---------------------------------------------------------------------------

  /** `x`'s list holds a segment back to `p`. */
  ghost predicate Linked(idx: Index, x: GeoCoord, p: GeoCoord) {
    x in idx && exists s :: s in idx[x] && s.end == p
  }

  /** The predecessor records `P` form a tree rooted at `start`: every recorded
      coordinate other than `start` has a strictly smaller rank than the
      coordinate it was discovered from, and can get back to it by a stored segment. */
  ghost predicate PredTree(idx: Index, P: map<GeoCoord, GeoCoord>, rank: map<GeoCoord, nat>, start: GeoCoord) {
    && start in rank
    && (forall x :: x in rank ==> x == start || x in P)
    && (forall x :: x in P ==> x in rank)
    && (forall x :: x in P && x != start ==> P[x] in rank && rank[P[x]] < rank[x])
    && (forall x :: x in P ==> Linked(idx, x, P[x]))
  }

  /** The search state between two dequeues. Every discovered coordinate has
      been expanded or is waiting in the queue; every expanded coordinate has
      all its neighbours recorded; the destination has not been expanded. */
  ghost predicate SearchState(idx: Index, start: GeoCoord, end: GeoCoord, P: map<GeoCoord, GeoCoord>,
                              rank: map<GeoCoord, nat>, queue: seq<GeoCoord>, expanded: set<GeoCoord>)
  {
    && PredTree(idx, P, rank, start)
    && start in idx && P.Keys <= idx.Keys
    && (forall q :: q in queue ==> q in rank)
    && (forall x :: x in rank ==> x in expanded || x in queue)
    && expanded <= rank.Keys
    && (forall c, k :: c in expanded && c in idx && 0 <= k < |idx[c]| ==> idx[c][k].end in P)
    && end !in expanded
  }

  /** The coordinates the segments of `segs` lead to. */
  function EndsOf(segs: seq<StreetSegment>): set<GeoCoord> {
    set k | 0 <= k < |segs| :: segs[k].end
  }

  lemma EndsOfSnoc(segs: seq<StreetSegment>, i: nat)
    requires i < |segs|
    ensures EndsOf(segs[..i + 1]) == EndsOf(segs[..i]) + {segs[i].end}
  {
    assert forall k :: 0 <= k < i ==> segs[..i + 1][k] == segs[..i][k];
  }

  /** On a symmetric index, whatever a segment leaving `c` leads to has a
      segment back to `c`. */
  lemma EndsAreLinked(idx: Index, c: GeoCoord, x: GeoCoord)
    requires IndexInvariant(idx) && c in idx && x in EndsOf(idx[c])
    ensures x in idx && Linked(idx, x, c)
  {
    var k :| 0 <= k < |idx[c]| && idx[c][k].end == x;
    assert Reverse(idx[c][k]) in idx[x];
  }

  /** The coordinates listed in `s`. */
  function Members(s: seq<GeoCoord>): set<GeoCoord> {
    set y | y in s
  }

  /** The ranks after expanding `curr`: every newly recorded coordinate that
      had no rank gets one more than `curr`. */
  function Reranked(rank: map<GeoCoord, nat>, curr: GeoCoord, added: seq<GeoCoord>): map<GeoCoord, nat>
    requires curr in rank
  {
    map x | x in rank.Keys + Members(added) :: if x in rank then rank[x] else rank[curr] + 1
  }

  /** Expanding `curr` keeps the predecessor records a tree: each newly recorded
      coordinate ends a segment leaving `curr`, so its list leads back to
      `curr`, and its rank is one more than `curr`'s. */
  lemma ExpandKeepsTree(idx: Index, start: GeoCoord, P: map<GeoCoord, GeoCoord>, P': map<GeoCoord, GeoCoord>,
                        rank: map<GeoCoord, nat>, curr: GeoCoord, added: seq<GeoCoord>)
    requires IndexInvariant(idx) && curr in idx && curr in rank
    requires PredTree(idx, P, rank, start) && P.Keys <= idx.Keys
    requires P'.Keys == P.Keys + Members(added)
    requires forall x :: x in P ==> P'[x] == P[x]
    requires forall x :: x in added ==> x !in P && P'[x] == curr && x in EndsOf(idx[curr])
    ensures PredTree(idx, P', Reranked(rank, curr, added), start) && P'.Keys <= idx.Keys
  {
    var rank' := Reranked(rank, curr, added);
    forall x | x in added
      ensures x in idx && Linked(idx, x, curr)
    {
      EndsAreLinked(idx, curr, x);
    }
    forall x | x in P' && x != start
      ensures P'[x] in rank' && rank'[P'[x]] < rank'[x]
    {
      if x in P {
        assert P'[x] == P[x];
      } else {
        assert x in added && x !in rank;
      }
    }
    forall x | x in P'
      ensures Linked(idx, x, P'[x])
    {
      if x in P {
        assert P'[x] == P[x];
      }
    }
  }

  /** One round of the outer loop of the search: dequeuing `curr` (not the
      destination), expanding it and enqueuing what it discovered keeps the
      search state, and either records a new coordinate or shortens the queue. */
  lemma SearchStep(idx: Index, start: GeoCoord, end: GeoCoord, P: map<GeoCoord, GeoCoord>, P': map<GeoCoord, GeoCoord>,
                   rank: map<GeoCoord, nat>, Q: seq<GeoCoord>, expanded: set<GeoCoord>,
                   curr: GeoCoord, segs: seq<StreetSegment>, added: seq<GeoCoord>,
                   rank': map<GeoCoord, nat>, queue': seq<GeoCoord>, expanded': set<GeoCoord>)
    requires IndexInvariant(idx)
    requires SearchState(idx, start, end, P, rank, Q, expanded)
    requires Q != [] && curr == Q[0] && curr != end
    requires segs == if curr in idx then idx[curr] else []
    requires (P', added) == Expansion(P, curr, segs)
    requires curr in rank ==> rank' == Reranked(rank, curr, added)
    requires queue' == Q[1..] + added && expanded' == expanded + {curr}
    ensures curr in idx && curr in rank
    ensures SearchState(idx, start, end, P', rank', queue', expanded')
    ensures added == [] ==> P'.Keys == P.Keys
    ensures added != [] ==> idx.Keys - P'.Keys < idx.Keys - P.Keys
  {
    assert curr in rank;
    ExpansionExpands(P, curr, segs);
    ExpandKeepsTree(idx, start, P, P', rank, curr, added);
    forall x | x in rank'
      ensures x in expanded' || x in queue'
    {
      if x in rank && x !in expanded && x != curr {
        assert x in Q[1..];
      }
    }
    forall c, k | c in expanded' && c in idx && 0 <= k < |idx[c]|
      ensures idx[c][k].end in P'
    {
      if c == curr {
        assert segs[k].end in EndsOf(segs);
      } else {
        assert idx[c][k].end in P;
      }
    }
    if added != [] {
      EndsAreLinked(idx, curr, added[0]);
      assert added[0] in idx.Keys - P.Keys;
    }
  }

  lemma AppendAssoc<T>(a: seq<T>, b: seq<T>, c: seq<T>)
    ensures (a + b) + c == a + (b + c)
  {
  }

  /** What expanding a coordinate `curr` over `segs` does to the predecessor
      records, from `P0` to `P`: old records are kept, every coordinate in
      `added` is new, ends a segment of `segs` and records `curr`, nothing
      else is recorded, and every end of `segs` is recorded afterwards. */
  ghost predicate Expanded(P0: map<GeoCoord, GeoCoord>, P: map<GeoCoord, GeoCoord>, curr: GeoCoord,
                           segs: seq<StreetSegment>, added: seq<GeoCoord>)
  {
    && P.Keys == P0.Keys + Members(added)
    && (forall x :: x in P0 ==> P[x] == P0[x])
    && (forall x :: x in added ==> x !in P0 && P[x] == curr && x in EndsOf(segs))
    && EndsOf(segs) <= P.Keys
  }

  /** The predecessor records and the list of newly discovered coordinates
      after handling the segments `segs` leaving `curr` in order, starting
      from the records `P`: a segment's end is recorded with `curr`, and
      listed, exactly when it has no record yet. */
  function Expansion(P: map<GeoCoord, GeoCoord>, curr: GeoCoord, segs: seq<StreetSegment>)
    : (map<GeoCoord, GeoCoord>, seq<GeoCoord>)
    decreases |segs|
  {
    if segs == [] then (P, [])
    else
      var (P', added) := Expansion(P, curr, segs[..|segs| - 1]);
      var x := segs[|segs| - 1].end;
      if x in P' then (P', added) else (P'[x := curr], added + [x])
  }

  /** The records `Expansion` produces keep every old record, add a record
      of `curr` for every listed coordinate (each new, each the end of one
      of the segments), add nothing else, and cover every segment's end. */
  lemma {:induction false} ExpansionExpands(P: map<GeoCoord, GeoCoord>, curr: GeoCoord, segs: seq<StreetSegment>)
    ensures Expanded(P, Expansion(P, curr, segs).0, curr, segs, Expansion(P, curr, segs).1)
    decreases |segs|
  {
    if segs == [] {
      assert EndsOf(segs) == {};
    } else {
      var n := |segs| - 1;
      ExpansionExpands(P, curr, segs[..n]);
      assert segs[..n + 1] == segs;
      EndsOfSnoc(segs, n);
    }
  }

  /** One step of the inner loop of the search: when `target` has no
      predecessor yet, `curr` is recorded as its predecessor. */
  method Discover(curr: GeoCoord, target: GeoCoord, pred: ExpandableHashMap<GeoCoord, GeoCoord>) returns (discovered: bool)
    requires pred.Valid()
    modifies pred.Repr
    ensures pred.Valid() && fresh(pred.Repr - old(pred.Repr))
    ensures pred.table == old(pred.table) || fresh(pred.table)
    ensures discovered <==> target !in old(pred.Contents)
    ensures pred.Contents == if discovered then old(pred.Contents)[target := curr] else old(pred.Contents)
  {
    var known := pred.Find(target);
    discovered := known.None?;
    if discovered {
      pred.Associate(target, curr);
    }
  }

  /** The inner loop of the search: every segment leaving `curr` whose end has
      no predecessor yet records `curr` as that end's predecessor and enqueues
      it; `added` lists those ends in order. */
  method Expand(curr: GeoCoord, segs: seq<StreetSegment>, pred: ExpandableHashMap<GeoCoord, GeoCoord>, queue: seq<GeoCoord>)
    returns (queue': seq<GeoCoord>, ghost added: seq<GeoCoord>)
    requires pred.Valid()
    modifies pred.Repr
    ensures pred.Valid() && fresh(pred.Repr - old(pred.Repr))
    ensures pred.table == old(pred.table) || fresh(pred.table)
    ensures queue' == queue + added
    ensures (pred.Contents, added) == Expansion(old(pred.Contents), curr, segs)
  {
    queue' := queue;
    added := [];
    var i := 0;
    while i < |segs|
      invariant i <= |segs|
      invariant pred.Valid()
      invariant pred.table == old(pred.table) || fresh(pred.table)
      invariant queue' == queue + added
      invariant (pred.Contents, added) == Expansion(old(pred.Contents), curr, segs[..i])
    {
      assert segs[..i + 1][..i] == segs[..i];
      var discovered := Discover(curr, segs[i].end, pred);
      if discovered {
        AppendAssoc(queue, added, [segs[i].end]);
        queue' := queue' + [segs[i].end];
        added := added + [segs[i].end];
      }
      i := i + 1;
    }
    assert segs[..i] == segs;
  }

  /** The first segment of `segs` that ends at `target`; the caller knows there is one. */
  method FirstEndingAt(segs: seq<StreetSegment>, target: GeoCoord) returns (i: nat)
    requires exists s :: s in segs && s.end == target
    ensures i < |segs| && segs[i].end == target
    ensures forall j :: 0 <= j < i ==> segs[j].end != target
  {
    i := 0;
    while i < |segs| && segs[i].end != target
      invariant i <= |segs|
      invariant forall j :: 0 <= j < i ==> segs[j].end != target
    {
      i := i + 1;
    }
  }

  // ---------------------------------------------------------------------------
  // The router
  // ---------------------------------------------------------------------------

  class PointToPointRouter {
    const streetMap: StreetMap
    const geo: Geometry

    constructor (streetMap: StreetMap, geo: Geometry)
      ensures this.streetMap == streetMap && this.geo == geo
    {
      this.streetMap := streetMap;
      this.geo := geo;
    }

    /** One round of the breadth-first search, for a dequeued coordinate
        `curr` that is not the destination: every segment leaving `curr`
        whose end has no predecessor yet records `curr` as that end's
        predecessor and enqueues it. */
    method Visit(curr: GeoCoord, pred: ExpandableHashMap<GeoCoord, GeoCoord>, queue: seq<GeoCoord>, ghost idx: Index,
                 ghost start: GeoCoord, ghost end: GeoCoord, ghost rank: map<GeoCoord, nat>, ghost Q: seq<GeoCoord>,
                 ghost expanded: set<GeoCoord>, ghost P: map<GeoCoord, GeoCoord>)
      returns (queue': seq<GeoCoord>, ghost rank': map<GeoCoord, nat>)
      requires streetMap.Valid() && pred.Valid() && idx == streetMap.Index() && P == pred.Contents
      requires SearchState(idx, start, end, P, rank, Q, expanded)
      requires Q != [] && curr == Q[0] && queue == Q[1..] && curr != end
      modifies pred.Repr
      ensures pred.Valid() && fresh(pred.Repr - old(pred.Repr))
      ensures pred.table == old(pred.table) || fresh(pred.table)
      ensures SearchState(idx, start, end, pred.Contents, rank', queue', expanded + {curr})
      ensures idx.Keys - pred.Contents.Keys < idx.Keys - P.Keys || (pred.Contents.Keys == P.Keys && queue' == queue)
    {
      var found, startingSegs := streetMap.GetSegmentsThatStartWith(curr, []);
      ghost var added;
      queue', added := Expand(curr, startingSegs, pred, queue);
      assert curr in rank;
      rank' := Reranked(rank, curr, added);
      SearchStep(idx, start, end, P, pred.Contents, rank, Q, expanded, curr, startingSegs, added,
                 rank', queue', expanded + {curr});
    }

    /** The breadth-first search from `start` until `end` is dequeued or the
        queue runs dry. `start` is enqueued without a predecessor record, so a
        neighbour can discover it (and enqueue it) once more. */
    method Search(start: GeoCoord, end: GeoCoord)
      returns (reached: bool, pred: ExpandableHashMap<GeoCoord, GeoCoord>, ghost rank: map<GeoCoord, nat>)
      requires streetMap.Valid()
      requires start != end && start in streetMap.Index() && end in streetMap.Index()
      ensures pred.Valid()
      ensures reached ==> PredTree(streetMap.Index(), pred.Contents, rank, start) && end in pred.Contents
      ensures !reached ==> forall p :: !IsWalk(streetMap.Index(), p, start, end)
    {
      pred := new ExpandableHashMap(streetMap.hasher, DefaultMaxLoadFactor);
      reached, rank := Explore(pred, start, end, streetMap.Index());
    }

    /** The search loop proper, over an empty predecessor map. */
    method Explore(pred: ExpandableHashMap<GeoCoord, GeoCoord>, start: GeoCoord, end: GeoCoord, ghost idx: Index)
      returns (reached: bool, ghost rank: map<GeoCoord, nat>)
      requires streetMap.Valid() && pred.Valid() && pred.Contents == map[] && idx == streetMap.Index()
      requires streetMap.Repr !! pred.Repr
      requires start != end && start in idx && end in idx
      modifies pred.Repr
      ensures pred.Valid()
      ensures reached ==> PredTree(idx, pred.Contents, rank, start) && end in pred.Contents
      ensures !reached ==> forall p :: !IsWalk(idx, p, start, end)
    {
      rank := map[start := 0];
      ghost var expanded: set<GeoCoord> := {};
      var queue := [start];
      var currCoord := start;
      ghost var P: map<GeoCoord, GeoCoord> := map[];
      SearchStarts(idx, start, end);
      while queue != []
        invariant pred.Valid() && P == pred.Contents && fresh(pred.Repr - old(pred.Repr))
        invariant SearchState(idx, start, end, P, rank, queue, expanded)
        invariant currCoord != end
        decreases idx.Keys - P.Keys, |queue|
      {
        ghost var Q0 := queue;
        currCoord := queue[0];
        queue := queue[1..];
        if currCoord == end {
          ReachedIsRecorded(idx, start, end, P, rank, Q0, expanded);
          break;
        }
        queue, rank := Visit(currCoord, pred, queue, idx, start, end, rank, Q0, expanded, P);
        expanded := expanded + {currCoord};
        P := pred.Contents;
      }
      reached := currCoord == end;
      if !reached {
        ClosedWhenDone(idx, start, end, P, rank, expanded);
      }
    }

    /** One step of the backtrack: the first segment leaving `currCoord`
        that ends at its recorded predecessor `prev`, and the predecessor
        recorded for `prev` in turn (unchanged when `prev` has none). */
    method StepBack(pred: ExpandableHashMap<GeoCoord, GeoCoord>, ghost idx: Index, ghost P: map<GeoCoord, GeoCoord>, ghost rank: map<GeoCoord, nat>, start: GeoCoord,
                    currCoord: GeoCoord, prev: GeoCoord)
      returns (seg: StreetSegment, prev': GeoCoord)
      requires streetMap.Valid() && pred.Valid() && idx == streetMap.Index() && P == pred.Contents
      requires PredTree(idx, P, rank, start)
      requires currCoord in P && prev == P[currCoord]
      ensures seg.start == currCoord && seg.end == prev
      ensures currCoord in idx && seg in idx[currCoord]
      ensures FirstLink(idx, seg)
      ensures prev in P ==> prev' == P[prev]
    {
      var found, startingSegs := streetMap.GetSegmentsThatStartWith(currCoord, []);
      assert Linked(streetMap.Index(), currCoord, prev);
      var i := FirstEndingAt(startingSegs, prev);
      seg := startingSegs[i];
      assert idx[seg.start][i] == seg;
      prev' := prev;
      var earlier := pred.Find(prev);
      if earlier.Some? {
        prev' := earlier.value;
      }
    }

    /** Backtracking from `end`: at each coordinate, the segment on its list
        that leads to its recorded predecessor is pushed onto the front of the
        route and its length added to the total. */
    method Backtrack(pred: ExpandableHashMap<GeoCoord, GeoCoord>, ghost rank: map<GeoCoord, nat>, start: GeoCoord, end: GeoCoord)
      returns (route: seq<StreetSegment>, totalDistanceTravelled: real)
      requires streetMap.Valid() && pred.Valid()
      requires PredTree(streetMap.Index(), pred.Contents, rank, start) && end in pred.Contents && end != start
      ensures route != [] && BackChain(streetMap.Index(), route, start, end)
      ensures FirstLinks(streetMap.Index(), route)
      ensures totalDistanceTravelled == geo.SumLength(route)
    {
      ghost var idx := streetMap.Index();
      ghost var P := pred.Contents;
      var first := pred.Find(end);
      var prev := first.value;
      totalDistanceTravelled := 0.0;
      route := [];
      var currCoord := end;
      while currCoord != start
        invariant currCoord in rank
        invariant currCoord != start ==> currCoord in P && prev == P[currCoord]
        invariant BackChain(idx, route, currCoord, end)
        invariant FirstLinks(idx, route)
        invariant totalDistanceTravelled == geo.SumLength(route)
        invariant route == [] ==> currCoord == end
        decreases rank[currCoord]
      {
        var seg, prev' := StepBack(pred, idx, P, rank, start, currCoord, prev);
        BackChainPush(geo, idx, route, seg, end);
        route := [seg] + route;
        totalDistanceTravelled := totalDistanceTravelled + geo.distance(seg.start, seg.end);
        currCoord, prev := prev, prev';
      }
    }

    /** Finds a route from `start` to `end`. The route comes back empty on
        every outcome but a success between distinct points; the total is set
        only on success. */
    method GeneratePointToPointRoute(start: GeoCoord, end: GeoCoord, totalIn: real)
      returns (result: DeliveryResult, route: seq<StreetSegment>, totalDistanceTravelled: real)
      requires streetMap.Valid()
      ensures start == end ==> result == DeliverySuccess && route == [] && totalDistanceTravelled == 0.0
      ensures result == BadCoord <==> start != end && (start !in streetMap.Index() || end !in streetMap.Index())
      ensures result != DeliverySuccess ==> route == [] && totalDistanceTravelled == totalIn
      ensures result == NoRoute ==>
        && start != end && start in streetMap.Index() && end in streetMap.Index()
        && forall p :: !IsWalk(streetMap.Index(), p, start, end)
      ensures result == DeliverySuccess && start != end ==>
        && route != [] && BackChain(streetMap.Index(), route, start, end)
        && IsWalk(streetMap.Index(), Flip(route), start, end)
        && FirstLinks(streetMap.Index(), route)
        && totalDistanceTravelled == geo.SumLength(route)
    {
      if start == end {
        return DeliverySuccess, [], 0.0;
      }
      var startingSegs: seq<StreetSegment> := [];
      var endKnown, startKnown;
      endKnown, startingSegs := streetMap.GetSegmentsThatStartWith(end, startingSegs);
      if !endKnown {
        return BadCoord, [], totalIn;
      }
      startKnown, startingSegs := streetMap.GetSegmentsThatStartWith(start, startingSegs);
      if !startKnown {
        return BadCoord, [], totalIn;
      }
      var reached, pred, rank := Search(start, end);
      if !reached {
        return NoRoute, [], totalIn;
      }
      route, totalDistanceTravelled := Backtrack(pred, rank, start, end);
      BackChainIsWalk(streetMap.Index(), route, start, end);
      result := DeliverySuccess;
    }
  }

  /** The search starts with no predecessor records and only `start` queued. */
  lemma SearchStarts(idx: Index, start: GeoCoord, end: GeoCoord)
    requires start in idx && start != end
    ensures SearchState(idx, start, end, map[], map[start := 0], [start], {})
  {
  }

  /** A destination that reaches the front of the queue has a predecessor record. */
  lemma ReachedIsRecorded(idx: Index, start: GeoCoord, end: GeoCoord, P: map<GeoCoord, GeoCoord>,
                          rank: map<GeoCoord, nat>, Q: seq<GeoCoord>, expanded: set<GeoCoord>)
    requires SearchState(idx, start, end, P, rank, Q, expanded) && Q != [] && Q[0] == end && start != end
    ensures PredTree(idx, P, rank, start) && end in P
  {
    assert end in rank;
  }

  /** When the queue runs dry, the discovered coordinates form a closed set that
      holds `start` and not `end`, so no walk joins them. */
  lemma ClosedWhenDone(idx: Index, start: GeoCoord, end: GeoCoord, P: map<GeoCoord, GeoCoord>,
                       rank: map<GeoCoord, nat>, expanded: set<GeoCoord>)
    requires SearchState(idx, start, end, P, rank, [], expanded)
    ensures forall p :: !IsWalk(idx, p, start, end)
  {
    var S := rank.Keys;
    assert Closed(idx, S);
    forall p | IsWalk(idx, p, start, end)
      ensures false
    {
      WalkStaysInClosedSet(idx, S, p, start, end);
    }
  }
}
