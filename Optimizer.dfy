/** The delivery-order optimizer: a randomized search over orderings of the
    delivery list that keeps the ordering with the shortest crow-flies tour seen
    so far. Every step it takes only rearranges the list. Vectors are modelled
    as sequence values that each step hands back. */
module Optimizer {
  import opened GeoTypes

  // ---------------------------------------------------------------------------
  // Random numbers, swaps and the tour length
  // ---------------------------------------------------------------------------

  /** The random engine as an oracle: `draw(n)` is the raw value behind the
      n-th call of `RandInt`; nothing is assumed about it. */
  datatype Random = Random(draw: nat -> nat, calls: nat)

  function Min(a: int, b: int): int { if a <= b then a else b }
  function Max(a: int, b: int): int { if a <= b then b else a }

  /** randInt: a number between the two bounds, whichever order they come in. */
  function RandInt(rng: Random, lowest: int, highest: int): (r: (int, Random))
    ensures Min(lowest, highest) <= r.0 <= Max(lowest, highest)
    ensures r.1.draw == rng.draw && r.1.calls == rng.calls + 1
  {
    var lo := if highest < lowest then highest else lowest;
    var hi := if highest < lowest then lowest else highest;
    (lo + rng.draw(rng.calls) % (hi - lo + 1), rng.(calls := rng.calls + 1))
  }

  /** Every number in range is the outcome of some oracle. */
  lemma RandIntCoversRange(rng: Random, lowest: int, highest: int, v: int)
    requires Min(lowest, highest) <= v <= Max(lowest, highest)
    ensures RandInt(rng.(draw := (n: nat) => (v - Min(lowest, highest)) as nat), lowest, highest).0 == v
  {
    var d := v - Min(lowest, highest);
    var width := Max(lowest, highest) - Min(lowest, highest) + 1;
    assert 0 <= d < width;
    assert d % width == d;
  }

  /** Both `swap` overloads: the two entries trade places, or nothing happens
      when either index is out of range. */
  function Swap<T>(s: seq<T>, index1: int, index2: int): (r: seq<T>)
    ensures |r| == |s| && multiset(r) == multiset(s)
    ensures !(0 <= index1 < |s| && 0 <= index2 < |s|) ==> r == s
    ensures 0 <= index1 < |s| && 0 <= index2 < |s| ==>
      && r[index1] == s[index2] && r[index2] == s[index1]
      && forall k :: 0 <= k < |s| && k != index1 && k != index2 ==> r[k] == s[k]
  {
    if index1 < 0 || index2 < 0 || index1 >= |s| || index2 >= |s| then s
    else s[index1 := s[index2]][index2 := s[index1]]
  }

  /** Length of the tour from `from` through every stop in order and back to the depot. */
  function TourFrom(geo: Geometry, depot: GeoCoord, from: GeoCoord, stops: seq<DeliveryRequest>): real
    decreases |stops|
  {
    if stops == [] then geo.distance(from, depot)
    else geo.distance(from, stops[0].location) + TourFrom(geo, depot, stops[0].location, stops[1..])
  }

  /** The crow-flies length of depot → stops → depot. */
  function CrowDistance(geo: Geometry, depot: GeoCoord, stops: seq<DeliveryRequest>): real {
    TourFrom(geo, depot, depot, stops)
  }

  lemma {:induction false} TourFromNonNegative(geo: Geometry, depot: GeoCoord, from: GeoCoord, stops: seq<DeliveryRequest>)
    requires geo.Valid()
    ensures TourFrom(geo, depot, from, stops) >= 0.0
    decreases |stops|
  {
    if stops != [] {
      TourFromNonNegative(geo, depot, stops[0].location, stops[1..]);
    }
  }

  /** With one stop the tour is out and back. */
  lemma CrowDistanceOfOne(geo: Geometry, depot: GeoCoord, x: DeliveryRequest)
    ensures CrowDistance(geo, depot, [x]) == geo.distance(depot, x.location) + geo.distance(x.location, depot)
  {
    assert [x][1..] == [];
    assert TourFrom(geo, depot, x.location, []) == geo.distance(x.location, depot);
  }

  /** calcCurrCrowDistance: the tour length, summed leg by leg. The source reads
      a default coordinate for an empty list; every caller passes a non-empty one. */
  method CalcCurrCrowDistance(geo: Geometry, depot: GeoCoord, deliveries: seq<DeliveryRequest>)
    returns (newCrowDis: real)
    requires deliveries != []
    ensures newCrowDis == CrowDistance(geo, depot, deliveries)
  {
    var startCoord := depot;
    var endCoord := deliveries[0].location;
    newCrowDis := 0.0;
    var i := 0;
    while i < |deliveries|
      invariant 0 <= i <= |deliveries|
      invariant startCoord == if i == 0 then depot else deliveries[i - 1].location
      invariant i > 0 ==> endCoord == startCoord
      invariant newCrowDis + TourFrom(geo, depot, startCoord, deliveries[i..]) == CrowDistance(geo, depot, deliveries)
    {
      assert deliveries[i..][1..] == deliveries[i + 1..];
      endCoord := deliveries[i].location;
      newCrowDis := newCrowDis + geo.distance(startCoord, endCoord);
      startCoord := endCoord;
      i := i + 1;
    }
    newCrowDis := newCrowDis + geo.distance(endCoord, depot);
  }

  // ---------------------------------------------------------------------------
  // Same-location clustering
  // ---------------------------------------------------------------------------

  /** Deliveries to one location occupy consecutive positions. */
  ghost predicate SameLocTogether(s: seq<DeliveryRequest>) {
    forall a, b, c :: 0 <= a < b < c < |s| && s[a].location == s[c].location ==> s[b].location == s[a].location
  }

  lemma MultisetCancel<T>(a: multiset<T>, b: multiset<T>, c: multiset<T>)
    requires a + b == a + c
    ensures b == c
  {
    forall x
      ensures b[x] == c[x]
    {
      assert (a + b)[x] == (a + c)[x];
    }
  }

  /** Consecutiveness for every run that starts below `i`. */
  ghost predicate GroupedBelow(s: seq<DeliveryRequest>, i: int) {
    forall a, b, c :: 0 <= a < i && a < b < c < |s| && s[a].location == s[c].location ==> s[b].location == s[a].location
  }

  /** Two permutations that agree below `i` are permutations of each other from `i` on. */
  lemma SuffixPermutation<T>(s: seq<T>, t: seq<T>, i: nat)
    requires i <= |s| == |t| && t[..i] == s[..i] && multiset(t) == multiset(s)
    ensures multiset(t[i..]) == multiset(s[i..])
  {
    assert s == s[..i] + s[i..];
    assert t == t[..i] + t[i..];
    MultisetCancel(multiset(s[..i]), multiset(t[i..]), multiset(s[i..]));
  }

  /** An element of the suffix of `t` has a position in the suffix of `s`. */
  lemma SuffixSource<T>(s: seq<T>, t: seq<T>, i: nat, c: nat) returns (c0: nat)
    requires i <= c < |t| && i <= |s| && multiset(t[i..]) == multiset(s[i..])
    ensures i <= c0 < |s| && s[c0] == t[c]
  {
    assert t[c] == t[i..][c - i];
    assert t[c] in multiset(s[i..]);
    var k :| 0 <= k < |s[i..]| && s[i..][k] == t[c];
    c0 := i + k;
  }

  /** The case of `GroupStep` for one triple of positions. */
  lemma GroupStepAt(s: seq<DeliveryRequest>, t: seq<DeliveryRequest>, i: nat, p: nat, a: nat, b: nat, c: nat)
    requires i < |s| == |t| && i + 1 <= p <= |t|
    requires t[..i + 1] == s[..i + 1] && multiset(t[i + 1..]) == multiset(s[i + 1..])
    requires GroupedBelow(s, i)
    requires forall k :: i + 1 <= k < p ==> t[k].location == s[i].location
    requires forall k :: p <= k < |t| ==> t[k].location != s[i].location
    requires a < i + 1 && a < b < c < |t| && t[a].location == t[c].location
    ensures t[b].location == t[a].location
  {
    assert t[a] == s[a] && t[i] == s[i];
    if a < i && i < c {
      var c0 := SuffixSource(s, t, i + 1, c);
      assert s[i].location == s[a].location;
      if b <= i {
        assert t[b] == s[b];
      }
    } else if a < i {
      assert t[b] == s[b] && t[c] == s[c];
    }
  }

  /** One pass of the outer loop: once the deliveries sharing position `i`'s
      location have been pulled up behind it, runs starting at or below `i` are
      consecutive. */
  lemma GroupStep(s: seq<DeliveryRequest>, t: seq<DeliveryRequest>, i: nat, p: nat)
    requires i < |s| == |t| && i + 1 <= p <= |t|
    requires t[..i + 1] == s[..i + 1] && multiset(t) == multiset(s)
    requires GroupedBelow(s, i)
    requires forall k :: i + 1 <= k < p ==> t[k].location == s[i].location
    requires forall k :: p <= k < |t| ==> t[k].location != s[i].location
    ensures GroupedBelow(t, i + 1)
  {
    SuffixPermutation(s, t, i + 1);
    forall a, b, c | 0 <= a < i + 1 && a < b < c < |t| && t[a].location == t[c].location
      ensures t[b].location == t[a].location
    {
      GroupStepAt(s, t, i, p, a, b, c);
    }
  }

  /** putSameLocDeliveriesTogether: each delivery pulls the later ones at its
      location up to just behind it. */
  method PutSameLocDeliveriesTogether(deliveries: seq<DeliveryRequest>) returns (r: seq<DeliveryRequest>)
    ensures multiset(r) == multiset(deliveries)
    ensures SameLocTogether(r)
  {
    r := deliveries;
    var i := 0;
    while i < |r|
      invariant 0 <= i <= |r| == |deliveries|
      invariant multiset(r) == multiset(deliveries)
      invariant GroupedBelow(r, i)
    {
      var currLoc := r[i].location;
      var posAfterCurrLoc := i + 1;
      ghost var r0 := r;
      var j := i + 1;
      while j < |r|
        invariant i + 1 <= posAfterCurrLoc <= j <= |r| == |r0|
        invariant r[..i + 1] == r0[..i + 1] && multiset(r) == multiset(r0)
        invariant forall k :: i + 1 <= k < posAfterCurrLoc ==> r[k].location == currLoc
        invariant forall k :: posAfterCurrLoc <= k < j ==> r[k].location != currLoc
      {
        if r[j].location == currLoc {
          r := Swap(r, j, posAfterCurrLoc);
          posAfterCurrLoc := posAfterCurrLoc + 1;
        }
        j := j + 1;
      }
      GroupStep(r0, r, i, posAfterCurrLoc);
      i := i + 1;
    }
  }

  // ---------------------------------------------------------------------------
  // Grouping, group order and rebuilding
  // ---------------------------------------------------------------------------

  /** The concatenation of a list of lists, front to back. */
  function Flatten<T>(xss: seq<seq<T>>): seq<T> {
    if xss == [] then [] else Flatten(xss[..|xss| - 1]) + xss[|xss| - 1]
  }

  lemma {:induction false} FlattenAppend<T>(a: seq<seq<T>>, b: seq<seq<T>>)
    ensures Flatten(a + b) == Flatten(a) + Flatten(b)
    decreases |b|
  {
    if b != [] {
      var b' := b[..|b| - 1];
      assert (a + b)[..|a + b| - 1] == a + b';
      FlattenAppend(a, b');
    } else {
      assert a + b == a;
    }
  }

  /** Removing position `k` removes one copy of its element. */
  lemma MultisetWithout<T>(s: seq<T>, k: nat)
    requires k < |s|
    ensures multiset(s[..k] + s[k + 1..]) == multiset(s) - multiset{s[k]}
  {
    assert s == s[..k] + [s[k]] + s[k + 1..];
  }

  /** The concatenation around list `k`. */
  lemma FlattenSplit<T>(yss: seq<seq<T>>, k: nat)
    requires k < |yss|
    ensures Flatten(yss) == Flatten(yss[..k]) + yss[k] + Flatten(yss[k + 1..])
  {
    var front, back := yss[..k + 1], yss[k + 1..];
    assert front[..k] == yss[..k] && front[k] == yss[k];
    assert Flatten(front) == Flatten(yss[..k]) + yss[k];
    assert yss == front + back;
    FlattenAppend(front, back);
  }

  /** Taking list `k` out of the concatenation removes exactly its elements. */
  lemma FlattenWithout<T>(yss: seq<seq<T>>, k: nat)
    requires k < |yss|
    ensures multiset(Flatten(yss)) == multiset(Flatten(yss[..k] + yss[k + 1..])) + multiset(yss[k])
  {
    FlattenSplit(yss, k);
    FlattenAppend(yss[..k], yss[k + 1..]);
  }

  /** Reordering the lists does not change which elements the concatenation holds. */
  lemma {:induction false} FlattenPermutation<T>(xss: seq<seq<T>>, yss: seq<seq<T>>)
    requires multiset(xss) == multiset(yss)
    ensures multiset(Flatten(xss)) == multiset(Flatten(yss))
    decreases |xss|
  {
    if xss == [] {
      assert |yss| == |multiset(yss)| == 0;
    } else {
      var n := |xss| - 1;
      var x := xss[n];
      assert xss == xss[..n] + [x];
      assert x in multiset(yss);
      var k :| 0 <= k < |yss| && yss[k] == x;
      MultisetWithout(xss, n);
      MultisetWithout(yss, k);
      assert xss[n + 1..] == [];
      FlattenPermutation(xss[..n], yss[..k] + yss[k + 1..]);
      FlattenWithout(yss, k);
    }
  }

  lemma FlattenOpen<T>(xss: seq<seq<T>>)
    ensures Flatten(xss + [[]]) == Flatten(xss)
  {
    assert (xss + [[]])[..|xss|] == xss;
  }

  lemma FlattenJoinLast<T>(xss: seq<seq<T>>, x: T)
    requires xss != []
    ensures Flatten(xss[|xss| - 1 := xss[|xss| - 1] + [x]]) == Flatten(xss) + [x]
  {
    var last := |xss| - 1;
    assert xss[..last] == xss[last := xss[last] + [x]][..last];
  }

  /** A group as the grouping pass builds it: its first member is at the seed
      location, every member lies within the radius of that location, and no
      later member is at that location itself. */
  ghost predicate WellGrouped(geo: Geometry, g: seq<DeliveryRequest>, radius: int) {
    && g != []
    && (forall k :: 0 <= k < |g| ==> geo.distance(g[0].location, g[k].location) <= radius as real)
    && (forall k :: 0 < k < |g| ==> g[k].location != g[0].location)
  }

  /** Removes entry `j` the constant-time way: the last entry overwrites it
      and the last slot is dropped. Entries before `j` stay where they were. */
  function SwapRemove<T>(s: seq<T>, j: nat): (r: seq<T>)
    requires j < |s|
    ensures |r| == |s| - 1
    ensures forall k :: 0 <= k < j ==> r[k] == s[k]
    ensures multiset(r) + multiset{s[j]} == multiset(s)
  {
    var n := |s| - 1;
    var t := s[j := s[n]];
    assert t == t[..n] + [s[n]];
    assert s == s[..n] + [s[n]];
    if j < n then
      assert t[..n] == s[..n][j := s[n]];
      assert multiset(t[..n]) + multiset{s[j]} == multiset(s[..n]) + multiset{s[n]};
      t[..n]
    else
      t[..n]
  }

  ghost predicate AllWellGrouped(geo: Geometry, groups: seq<seq<DeliveryRequest>>, radius: int) {
    forall k :: 0 <= k < |groups| ==> WellGrouped(geo, groups[k], radius)
  }

  /** Adding a delivery within the radius of the seed `c` to the newest group
      keeps every group well formed, whether or not it opens a new group first. */
  lemma GatherStep(geo: Geometry, G: seq<seq<DeliveryRequest>>, x: DeliveryRequest, radius: int, c: GeoCoord)
    requires geo.Valid() && radius >= 0
    requires AllWellGrouped(geo, G, radius)
    requires geo.distance(c, x.location) <= radius as real
    requires x.location != c ==> G != [] && G[|G| - 1][0].location == c
    ensures var H := if x.location == c then G + [[]] else G;
      AllWellGrouped(geo, H[|H| - 1 := H[|H| - 1] + [x]], radius)
  {
    var H := if x.location == c then G + [[]] else G;
    var g := H[|H| - 1] + [x];
    assert WellGrouped(geo, g, radius);
    var H' := H[|H| - 1 := g];
    forall k | 0 <= k < |H'|
      ensures WellGrouped(geo, H'[k], radius)
    {
      if k < |H| - 1 {
        assert H'[k] == G[k];
      }
    }
  }

  /** Moving one element from one multiset to another keeps their sum. */
  lemma Transfer<T>(a: multiset<T>, b: multiset<T>, b': multiset<T>, x: T)
    requires b' + multiset{x} == b
    ensures (a + multiset{x}) + b' == a + b
  {
  }

  /** Puts delivery `x`, found within the radius of the seed `c`, into the
      newest group; when `x` is at the seed's very location it opens a new
      group first. */
  method JoinNewest(geo: Geometry, started: seq<seq<DeliveryRequest>>, x: DeliveryRequest, radius: int, c: GeoCoord)
    returns (started': seq<seq<DeliveryRequest>>)
    requires geo.Valid() && radius >= 0
    requires GroupsAround(geo, started, c, radius)
    requires geo.distance(c, x.location) <= radius as real
    requires x.location != c ==> started != []
    ensures started' != [] && GroupsAround(geo, started', c, radius)
    ensures multiset(Flatten(started')) == multiset(Flatten(started)) + multiset{x}
    ensures started' == if x.location == c then started + [[x]]
                        else started[..|started| - 1] + [started[|started| - 1] + [x]]
  {
    GatherStep(geo, started, x, radius, c);
    started' := started;
    if c == x.location {
      FlattenOpen(started');
      started' := started' + [[]];
    }
    FlattenJoinLast(started', x);
    ghost var before := started';
    started' := started'[|started'| - 1 := started'[|started'| - 1] + [x]];
    assert started' == before[..|before| - 1] + [before[|before| - 1] + [x]];
    if c == x.location {
      assert before[..|before| - 1] == started && before[|before| - 1] + [x] == [x];
    }
  }

  /** Well-formed groups, all of them opened at the seed location `c`. */
  ghost predicate GroupsAround(geo: Geometry, groups: seq<seq<DeliveryRequest>>, c: GeoCoord, radius: int) {
    && AllWellGrouped(geo, groups, radius)
    && forall k :: 0 <= k < |groups| ==> groups[k][0].location == c
  }

  /** The deliveries before position `j` are all farther than the radius from `c`. */
  ghost predicate FarBelow(geo: Geometry, c: GeoCoord, s: seq<DeliveryRequest>, j: int, radius: int)
    requires j <= |s|
  {
    forall k :: 0 <= k < j ==> geo.distance(c, s[k].location) > radius as real
  }

  /** The inner loop of the grouping pass for the seed location `currCoord`
      (the location of the first remaining delivery): every remaining delivery
      within the radius is taken out, overwritten by the last one, and joins
      the newest group, opening a new group when it is at the seed's very
      location. Returns the groups this pass started and the deliveries left,
      all of them farther than the radius from the seed. */
  method GatherAround(geo: Geometry, currCoord: GeoCoord, rest: seq<DeliveryRequest>, groupingRadius: int)
    returns (started: seq<seq<DeliveryRequest>>, rest': seq<DeliveryRequest>)
    requires geo.Valid() && groupingRadius >= 0
    requires rest != [] && rest[0].location == currCoord
    ensures started != [] && GroupsAround(geo, started, currCoord, groupingRadius)
    ensures multiset(Flatten(started)) + multiset(rest') == multiset(rest)
    ensures FarBelow(geo, currCoord, rest', |rest'|, groupingRadius)
  {
    started, rest' := [], rest;
    var j := 0;
    while j < |rest'|
      invariant j <= |rest'| <= |rest|
      invariant multiset(Flatten(started)) + multiset(rest') == multiset(rest)
      invariant GroupsAround(geo, started, currCoord, groupingRadius)
      invariant started == [] ==> j == 0 && 0 < |rest'| && rest'[0].location == currCoord
      invariant FarBelow(geo, currCoord, rest', j, groupingRadius)
      decreases |rest'| - j
    {
      var currDist := geo.distance(currCoord, rest'[j].location);
      if currDist <= groupingRadius as real {
        var x := rest'[j];
        ghost var before := Flatten(started);
        started := JoinNewest(geo, started, x, groupingRadius, currCoord);
        var rest'' := SwapRemove(rest', j);
        Transfer(multiset(before), multiset(rest'), multiset(rest''), x);
        rest' := rest'';
      } else {
        j := j + 1;
      }
    }
  }

  /** The grouping pass: seed after seed, the deliveries around the first
      remaining one are gathered into groups until none remains. */
  method FormGroups(geo: Geometry, deliveries: seq<DeliveryRequest>, groupingRadius: int)
    returns (groups: seq<seq<DeliveryRequest>>, rest: seq<DeliveryRequest>)
    requires geo.Valid() && groupingRadius >= 0
    ensures rest == []
    ensures multiset(Flatten(groups)) == multiset(deliveries)
    ensures AllWellGrouped(geo, groups, groupingRadius)
  {
    rest := deliveries;
    groups := [];
    while 0 < |rest|
      invariant multiset(Flatten(groups)) + multiset(rest) == multiset(deliveries)
      invariant AllWellGrouped(geo, groups, groupingRadius)
      decreases |rest|
    {
      var currCoord := rest[0].location;
      var started;
      ghost var rest0 := rest;
      started, rest := GatherAround(geo, currCoord, rest, groupingRadius);
      FlattenAppend(groups, started);
      assert |rest| < |rest0| by {
        assert |multiset(Flatten(started))| > 0 by {
          assert started[0] != [];
          FlattenWithout(started, 0);
        }
      }
      groups := groups + started;
    }
  }

  /** A group with the point its members are ordered by. */
  datatype DeliveryGroup = DeliveryGroup(avgPoint: GeoCoord, members: seq<DeliveryRequest>)

  function MemberLists(groups: seq<DeliveryGroup>): (r: seq<seq<DeliveryRequest>>)
    ensures |r| == |groups| && forall i :: 0 <= i < |groups| ==> r[i] == groups[i].members
  {
    seq(|groups|, i requires 0 <= i < |groups| => groups[i].members)
  }

  lemma MemberListsOfSwap(groups: seq<DeliveryGroup>, i: int, j: int)
    ensures MemberLists(Swap(groups, i, j)) == Swap(MemberLists(groups), i, j)
  {
  }

  /** The loop of setAvgPoint calls: each group gets the centre of its own
      members. The centre (an average of the coordinates' numeric values,
      rounded and turned back into text) is the parameter `averagePoint`. */
  method SetAvgPoints(averagePoint: seq<DeliveryRequest> -> GeoCoord, lists: seq<seq<DeliveryRequest>>)
    returns (groups: seq<DeliveryGroup>)
    ensures MemberLists(groups) == lists
    ensures forall i :: 0 <= i < |groups| ==> groups[i].avgPoint == averagePoint(groups[i].members)
  {
    groups := [];
    var i := 0;
    while i < |lists|
      invariant 0 <= i <= |lists| && |groups| == i
      invariant forall k :: 0 <= k < i ==> groups[k] == DeliveryGroup(averagePoint(lists[k]), lists[k])
    {
      groups := groups + [DeliveryGroup(averagePoint(lists[i]), lists[i])];
      i := i + 1;
    }
  }

  /** How far a group's centre is from the depot, the key groups are ordered by. */
  function GroupKey(geo: Geometry, depot: GeoCoord, g: DeliveryGroup): real {
    geo.distance(depot, g.avgPoint)
  }

  ghost predicate SortedByKey(geo: Geometry, depot: GeoCoord, groups: seq<DeliveryGroup>) {
    forall a, b :: 0 <= a < b < |groups| ==> GroupKey(geo, depot, groups[a]) <= GroupKey(geo, depot, groups[b])
  }

  /** Groups before `i` are in order and none is farther than a later one. */
  ghost predicate SortedBelow(geo: Geometry, depot: GeoCoord, groups: seq<DeliveryGroup>, i: int) {
    forall a, b :: 0 <= a < i && a < b < |groups| ==> GroupKey(geo, depot, groups[a]) <= GroupKey(geo, depot, groups[b])
  }

  /** The inner loop of the selection sort: the position of the first group
      from `i` on whose centre is nearest the depot. */
  method NearestFrom(geo: Geometry, depot: GeoCoord, groups: seq<DeliveryGroup>, i: nat) returns (minIndex: nat)
    requires i < |groups|
    ensures i <= minIndex < |groups|
    ensures forall k :: i <= k < |groups| ==> GroupKey(geo, depot, groups[minIndex]) <= GroupKey(geo, depot, groups[k])
    ensures forall k :: i <= k < minIndex ==> GroupKey(geo, depot, groups[minIndex]) < GroupKey(geo, depot, groups[k])
  {
    var minDist := geo.distance(depot, groups[i].avgPoint);
    minIndex := i;
    var j := i + 1;
    while j < |groups|
      invariant i <= minIndex < j <= |groups|
      invariant minDist == GroupKey(geo, depot, groups[minIndex])
      invariant forall k :: i <= k < j ==> minDist <= GroupKey(geo, depot, groups[k])
      invariant forall k :: i <= k < minIndex ==> minDist < GroupKey(geo, depot, groups[k])
    {
      var currDist := geo.distance(depot, groups[j].avgPoint);
      if currDist < minDist {
        minDist := currDist;
        minIndex := j;
      }
      j := j + 1;
    }
  }

  /** Swapping the nearest remaining group into place `i` extends the sorted prefix by one. */
  lemma SelectionStep(geo: Geometry, depot: GeoCoord, groups: seq<DeliveryGroup>, i: nat, m: nat)
    requires i <= m < |groups| && SortedBelow(geo, depot, groups, i)
    requires forall k :: i <= k < |groups| ==> GroupKey(geo, depot, groups[m]) <= GroupKey(geo, depot, groups[k])
    ensures SortedBelow(geo, depot, Swap(groups, i, m), i + 1)
  {
    var r := Swap(groups, i, m);
    forall a, b | 0 <= a < i + 1 && a < b < |r|
      ensures GroupKey(geo, depot, r[a]) <= GroupKey(geo, depot, r[b])
    {
      if a < i {
        assert r[a] == groups[a];
        assert r[b] == groups[b] || r[b] == groups[m] || r[b] == groups[i];
      } else {
        assert r[a] == groups[m];
        assert r[b] == groups[b] || r[b] == groups[i];
      }
    }
  }

  /** The selection sort of the groups by the distance of their centres from
      the depot; ties keep the first-found minimum. */
  method SortGroups(geo: Geometry, depot: GeoCoord, groups: seq<DeliveryGroup>) returns (r: seq<DeliveryGroup>)
    ensures multiset(r) == multiset(groups)
    ensures multiset(MemberLists(r)) == multiset(MemberLists(groups))
    ensures SortedByKey(geo, depot, r)
  {
    r := groups;
    var i := 0;
    while i < |r|
      invariant 0 <= i <= |r| == |groups|
      invariant multiset(r) == multiset(groups)
      invariant multiset(MemberLists(r)) == multiset(MemberLists(groups))
      invariant SortedBelow(geo, depot, r, i)
    {
      var minIndex := NearestFrom(geo, depot, r, i);
      SelectionStep(geo, depot, r, i, minIndex);
      MemberListsOfSwap(r, i, minIndex);
      r := Swap(r, i, minIndex);
      i := i + 1;
    }
  }

  /** Pushes every group's members onto `deliveries`, group by group. */
  method Rebuild(groups: seq<DeliveryGroup>, deliveries: seq<DeliveryRequest>) returns (r: seq<DeliveryRequest>)
    ensures r == deliveries + Flatten(MemberLists(groups))
  {
    ghost var lists := MemberLists(groups);
    r := deliveries;
    var i := 0;
    while i < |groups|
      invariant 0 <= i <= |groups|
      invariant r == deliveries + Flatten(lists[..i])
    {
      var j := 0;
      while j < |groups[i].members|
        invariant 0 <= j <= |groups[i].members|
        invariant r == deliveries + Flatten(lists[..i]) + groups[i].members[..j]
      {
        r := r + [groups[i].members[j]];
        j := j + 1;
      }
      assert lists[..i + 1][..i] == lists[..i];
      assert groups[i].members[..j] == groups[i].members;
      i := i + 1;
    }
    assert lists[..i] == lists;
  }

  // ---------------------------------------------------------------------------
  // The optimizer
  // ---------------------------------------------------------------------------

  /** How many times the cooling loop runs: the temperature starts at 10000, is
      multiplied by 0.99 each round and the loop stops once it is no longer
      above 0.0001, which takes 1833 rounds in exact arithmetic. */
  const CoolingRounds: nat := 1833
  const MaxGroupingTrials: nat := 5

  /** The conversion of a double to an int: truncation toward zero. */
  function TruncateToInt(x: real): (r: int)
    ensures x >= 0.0 ==> 0 <= r && r as real <= x < r as real + 1.0
    ensures x < 0.0 ==> r <= 0 && x <= r as real && (r - 1) as real < x
  {
    if x >= 0.0 then x.Floor else -((-x).Floor)
  }

  /** The only rearrangement of a single delivery is that delivery itself. */
  lemma SingletonPermutation(r: seq<DeliveryRequest>, x: DeliveryRequest)
    requires multiset(r) == multiset([x])
    ensures r == [x]
  {
    assert |r| == |multiset(r)| == 1;
    assert r[0] in multiset(r);
  }

  /** optimizeDeliveryOrder: an empty list is left alone; otherwise the old
      tour length is measured, and every round shuffles the list and tries five
      groupings, each time remembering the ordering whenever it beats the best
      seen so far. The best ordering is returned with its tour length. */
  method OptimizeDeliveryOrder(geo: Geometry, averagePoint: seq<DeliveryRequest> -> GeoCoord, depot: GeoCoord,
                               deliveries: seq<DeliveryRequest>, oldCrowIn: real, newCrowIn: real, rng: Random)
    returns (result: seq<DeliveryRequest>, oldCrowDistance: real, newCrowDistance: real, rng': Random)
    requires geo.Valid()
    ensures multiset(result) == multiset(deliveries)
    ensures deliveries == [] ==> result == [] && oldCrowDistance == oldCrowIn && newCrowDistance == newCrowIn
    ensures deliveries != [] ==>
      && oldCrowDistance == CrowDistance(geo, depot, deliveries)
      && newCrowDistance == CrowDistance(geo, depot, result)
      && newCrowDistance <= oldCrowDistance
    ensures |deliveries| == 1 ==> result == deliveries && newCrowDistance == oldCrowDistance
  {
    rng' := rng;
    if deliveries == [] {
      return deliveries, oldCrowIn, newCrowIn, rng';
    }
    oldCrowDistance := CalcCurrCrowDistance(geo, depot, deliveries);

    var totalDistance := 0.0;
    var i := 0;
    while i < |deliveries|
      invariant 0 <= i <= |deliveries| && totalDistance >= 0.0
    {
      totalDistance := totalDistance + geo.distance(depot, deliveries[i].location);
      i := i + 1;
    }
    var averageDistance := totalDistance / (|deliveries| as real);

    var current := deliveries;
    var shortestPermutation := deliveries;
    var prevCrowDistance := oldCrowDistance;
    newCrowDistance := newCrowIn;
    var round := 0;
    while round < CoolingRounds
      invariant multiset(current) == multiset(deliveries)
      invariant multiset(shortestPermutation) == multiset(deliveries)
      invariant prevCrowDistance == CrowDistance(geo, depot, shortestPermutation) <= oldCrowDistance
    {
      current, rng' := Shuffle(current, rng');
      newCrowDistance := CalcCurrCrowDistance(geo, depot, current);
      if newCrowDistance < prevCrowDistance {
        shortestPermutation := current;
        prevCrowDistance := newCrowDistance;
      }
      var numTrials := 0;
      while numTrials < MaxGroupingTrials
        invariant multiset(current) == multiset(deliveries)
        invariant multiset(shortestPermutation) == multiset(deliveries)
        invariant prevCrowDistance == CrowDistance(geo, depot, shortestPermutation) <= oldCrowDistance
      {
        var pick := RandInt(rng', 0, TruncateToInt(averageDistance));
        rng' := pick.1;
        var groupingRadius := pick.0;
        var lists, emptied := FormGroups(geo, current, groupingRadius);
        var groups := SetAvgPoints(averagePoint, lists);
        var sorted := SortGroups(geo, depot, groups);
        FlattenPermutation(MemberLists(sorted), lists);
        current := Rebuild(sorted, emptied);
        current := PutSameLocDeliveriesTogether(current);
        newCrowDistance := CalcCurrCrowDistance(geo, depot, current);
        if newCrowDistance < prevCrowDistance {
          shortestPermutation := current;
          prevCrowDistance := newCrowDistance;
        }
        numTrials := numTrials + 1;
      }
      round := round + 1;
    }
    result := shortestPermutation;
    newCrowDistance := CalcCurrCrowDistance(geo, depot, result);
    if |deliveries| == 1 {
      assert deliveries == [deliveries[0]];
      SingletonPermutation(result, deliveries[0]);
    }
  }

  /** The shuffle: every position in turn trades places with a random one. */
  method Shuffle(deliveries: seq<DeliveryRequest>, rng: Random) returns (r: seq<DeliveryRequest>, rng': Random)
    ensures multiset(r) == multiset(deliveries)
    ensures rng'.draw == rng.draw && rng'.calls == rng.calls + |deliveries|
  {
    r := deliveries;
    rng' := rng;
    var i := 0;
    while i < |r|
      invariant 0 <= i <= |r| == |deliveries|
      invariant multiset(r) == multiset(deliveries)
      invariant rng'.draw == rng.draw && rng'.calls == rng.calls + i
    {
      var pick := RandInt(rng', 0, |r| - 1);
      rng' := pick.1;
      r := Swap(r, i, pick.0);
      i := i + 1;
    }
  }
}
