/** The delivery planner: orders the deliveries with the optimizer, appends the
    return to the depot, asks the router for a route between each pair of
    consecutive stops, and turns each route into proceed, turn and deliver
    commands while it sums the distance travelled. */
module Planner {
  import opened GeoTypes
  import opened StreetMap
  import opened Router
  import opened Optimizer

  // ---------------------------------------------------------------------------
  // Compass names and turn directions
  // ---------------------------------------------------------------------------

  /** The eight compass points, one per 45-degree octant starting at east. */
  const CompassPoints: seq<string> :=
    ["east", "northeast", "north", "northwest", "west", "southwest", "south", "southeast"]

  /** getDirName: the compass point of a bearing in degrees; anything outside
      the eight octants that start at 0 reads as east. */
  function DirName(angle: real): (r: string)
    ensures r in CompassPoints
  {
    if 0.0 <= angle < 22.5 then "east"
    else if 22.5 <= angle < 67.5 then "northeast"
    else if 67.5 <= angle < 112.5 then "north"
    else if 112.5 <= angle < 157.5 then "northwest"
    else if 157.5 <= angle < 202.5 then "west"
    else if 202.5 <= angle < 247.5 then "southwest"
    else if 247.5 <= angle < 292.5 then "south"
    else if 292.5 <= angle < 337.5 then "southeast"
    else "east"
  }

  /** Each compass point owns the 45 degrees centred on its multiple of 45;
      octant 8 is east again, past 337.5 degrees. */
  lemma DirNameOctant(angle: real, k: int)
    requires 0 <= k <= 8
    requires 45.0 * k as real - 22.5 <= angle < 45.0 * k as real + 22.5
    ensures DirName(angle) == CompassPoints[k % 8]
  {
  }

  /** Turning a bearing in the first half-circle round by 180 degrees names the
      opposite compass point. */
  lemma DirNameOpposite(angle: real, k: int)
    requires 0 <= k <= 4 && 0.0 <= angle
    requires 45.0 * k as real - 22.5 <= angle < 45.0 * k as real + 22.5
    ensures DirName(angle) == CompassPoints[k % 8]
    ensures DirName(angle + 180.0) == CompassPoints[(k + 4) % 8]
  {
    DirNameOctant(angle, k);
    DirNameOctant(angle + 180.0, k + 4);
  }

  /** getTurnDir: left below 180 degrees, right from 180 to 359, and no turn
      (the empty name) for anything within a degree of straight ahead. */
  function TurnDir(angle: real): string {
    if angle >= 1.0 && angle < 180.0 then "left"
    else if angle >= 180.0 && angle <= 359.0 then "right"
    else ""
  }

  /** The three answers partition the angles: left, right, or straight ahead. */
  lemma TurnDirRanges(angle: real)
    ensures TurnDir(angle) == "left" <==> 1.0 <= angle < 180.0
    ensures TurnDir(angle) == "right" <==> 180.0 <= angle <= 359.0
    ensures TurnDir(angle) == "" <==> angle < 1.0 || angle > 359.0
  {
  }

  /** A left turn by some angle mirrors into a right turn by its complement. */
  lemma TurnDirMirror(angle: real)
    requires 1.0 <= angle < 180.0
    ensures TurnDir(angle) == "left" && TurnDir(360.0 - angle) == "right"
  {
  }

  // ---------------------------------------------------------------------------
  // Commands of one leg
  // ---------------------------------------------------------------------------

  /** The street the segment loop is running along: its name (empty when none
      has started), the distance covered on it so far and its starting bearing. */
  datatype StreetRun = StreetRun(name: string, distance: real, angle: real)

  const NoStreet := StreetRun("", 0.0, 0.0)

  /** On reaching a segment with no street running, the segment's name and
      bearing start one; the distance carries over. */
  function Resume(geo: Geometry, run: StreetRun, seg: StreetSegment): StreetRun {
    if run.name == "" then StreetRun(seg.name, run.distance, geo.angleOfLine(seg)) else run
  }

  /** The turn command between two consecutive segments, if the angle between
      them is not straight ahead. */
  function TurnCommand(geo: Geometry, before: StreetSegment, after: StreetSegment): (r: seq<DeliveryCommand>)
    ensures |r| <= 1
    ensures forall c :: c in r ==> c.Turn? && c.streetName == after.name
  {
    var direction := TurnDir(geo.angleBetween(before, after));
    if direction == "" then [] else [Turn(direction, after.name)]
  }

  /** The commands the segment loop emits from segment `k` of `route` on, with
      `run` the street running when it gets there: a change of street name
      closes the running street with a proceed and a turn; the last segment is
      added to the running street, whatever its name, and closes it; then the
      item is delivered unless this leg is the return to the depot. */
  function LegCommands(geo: Geometry, route: seq<StreetSegment>, k: nat, run: StreetRun, item: string, final: bool)
    : seq<DeliveryCommand>
    requires k < |route|
    requires k == 0 ==> run.name == ""
    decreases |route| - k
  {
    var st := Resume(geo, run, route[k]);
    if k + 1 == |route| then
      (if st.name != "" then [Proceed(DirName(st.angle), st.name, st.distance + geo.Length(route[k]))] else [])
      + (if final then [] else [Deliver(item)])
    else if st.name != "" && st.name != route[k].name then
      [Proceed(DirName(st.angle), st.name, st.distance)]
      + TurnCommand(geo, route[k - 1], route[k])
      + LegCommands(geo, route, k + 1, StreetRun(route[k].name, geo.Length(route[k]), geo.angleOfLine(route[k])), item, final)
    else
      LegCommands(geo, route, k + 1, st.(distance := st.distance + geo.Length(route[k])), item, final)
  }

  /** The commands of a whole leg. */
  function Leg(geo: Geometry, route: seq<StreetSegment>, item: string, final: bool): seq<DeliveryCommand>
    requires route != []
  {
    LegCommands(geo, route, 0, NoStreet, item, final)
  }

  /** The distance of every proceed command in a list, summed. */
  function ProceedSum(cmds: seq<DeliveryCommand>): real {
    if cmds == [] then 0.0
    else (if cmds[0].Proceed? then cmds[0].distance else 0.0) + ProceedSum(cmds[1..])
  }

  lemma {:induction false} ProceedSumAppend(a: seq<DeliveryCommand>, b: seq<DeliveryCommand>)
    ensures ProceedSum(a + b) == ProceedSum(a) + ProceedSum(b)
    decreases |a|
  {
    if a != [] {
      assert (a + b)[0] == a[0] && (a + b)[1..] == a[1..] + b;
      ProceedSumAppend(a[1..], b);
    } else {
      assert a + b == b;
    }
  }

  /** The items of the deliver commands in a list, in order. */
  function Delivered(cmds: seq<DeliveryCommand>): seq<string> {
    if cmds == [] then []
    else (if cmds[0].Deliver? then [cmds[0].item] else []) + Delivered(cmds[1..])
  }

  lemma {:induction false} DeliveredAppend(a: seq<DeliveryCommand>, b: seq<DeliveryCommand>)
    ensures Delivered(a + b) == Delivered(a) + Delivered(b)
    decreases |a|
  {
    if a != [] {
      assert (a + b)[0] == a[0] && (a + b)[1..] == a[1..] + b;
      DeliveredAppend(a[1..], b);
    } else {
      assert a + b == b;
    }
  }

  /** On the last segment the leg closes the running street and delivers;
      only the closing proceed counts towards the distance. Stated after any
      commands `acc` already emitted. */
  lemma LegLastStep(geo: Geometry, route: seq<StreetSegment>, k: nat, run: StreetRun, item: string, final: bool,
                    acc: seq<DeliveryCommand>)
    requires k + 1 == |route| && (k == 0 ==> run.name == "")
    ensures var st := Resume(geo, run, route[k]);
      var proceed := if st.name != "" then [Proceed(DirName(st.angle), st.name, st.distance + geo.Length(route[k]))] else [];
      && acc + LegCommands(geo, route, k, run, item, final) == acc + proceed + (if final then [] else [Deliver(item)])
      && ProceedSum(LegCommands(geo, route, k, run, item, final))
           == if st.name != "" then st.distance + geo.Length(route[k]) else 0.0
  {
    var st := Resume(geo, run, route[k]);
    var proceed: seq<DeliveryCommand> :=
      if st.name != "" then [Proceed(DirName(st.angle), st.name, st.distance + geo.Length(route[k]))] else [];
    var deliver: seq<DeliveryCommand> := if final then [] else [Deliver(item)];
    assert LegCommands(geo, route, k, run, item, final) == proceed + deliver;
    assert acc + (proceed + deliver) == acc + proceed + deliver;
    ProceedSumAppend(proceed, deliver);
    if proceed != [] { assert proceed[1..] == []; }
    if deliver != [] { assert deliver[1..] == []; }
  }

  /** At a change of street name the leg closes the running street with a
      proceed over the distance run on it, then perhaps a turn, and starts the
      new street with the current segment. Stated after any commands `acc`
      already emitted. */
  lemma LegChangeStep(geo: Geometry, route: seq<StreetSegment>, k: nat, run: StreetRun, item: string, final: bool,
                      acc: seq<DeliveryCommand>)
    requires k + 1 < |route| && (k == 0 ==> run.name == "")
    requires Resume(geo, run, route[k]).name != "" && Resume(geo, run, route[k]).name != route[k].name
    ensures var st := Resume(geo, run, route[k]);
      var rest := LegCommands(geo, route, k + 1, StreetRun(route[k].name, geo.Length(route[k]), geo.angleOfLine(route[k])), item, final);
      && acc + LegCommands(geo, route, k, run, item, final)
           == acc + [Proceed(DirName(st.angle), st.name, st.distance)] + TurnCommand(geo, route[k - 1], route[k]) + rest
      && ProceedSum(LegCommands(geo, route, k, run, item, final)) == st.distance + ProceedSum(rest)
  {
    var st := Resume(geo, run, route[k]);
    var rest := LegCommands(geo, route, k + 1, StreetRun(route[k].name, geo.Length(route[k]), geo.angleOfLine(route[k])), item, final);
    var turn := TurnCommand(geo, route[k - 1], route[k]);
    var proceed := [Proceed(DirName(st.angle), st.name, st.distance)];
    assert LegCommands(geo, route, k, run, item, final) == proceed + turn + rest;
    assert acc + (proceed + turn + rest) == acc + proceed + turn + rest;
    ProceedSumAppend(proceed + turn, rest);
    ProceedSumAppend(proceed, turn);
    assert ProceedSum(proceed) == st.distance by { assert proceed[1..] == []; }
    assert ProceedSum(turn) == 0.0 by { if turn != [] { assert turn[1..] == []; } }
  }

  // ---------------------------------------------------------------------------
  // What a leg's commands amount to
  // ---------------------------------------------------------------------------

  /** Every segment of the route carries a street name. */
  ghost predicate Named(route: seq<StreetSegment>) {
    forall i :: 0 <= i < |route| ==> route[i].name != ""
  }

  /** On named streets the proceed commands of a leg cover the distance already
      run plus every remaining segment's length, each exactly once. */
  lemma {:induction false} LegCoversRoute(geo: Geometry, route: seq<StreetSegment>, k: nat, run: StreetRun, item: string, final: bool)
    requires k < |route| && (k == 0 ==> run.name == "") && Named(route)
    ensures ProceedSum(LegCommands(geo, route, k, run, item, final)) == run.distance + geo.SumLength(route[k..])
    decreases |route| - k
  {
    var st := Resume(geo, run, route[k]);
    assert route[k..][0] == route[k] && route[k..][1..] == route[k + 1..];
    if k + 1 == |route| {
      LegLastStep(geo, route, k, run, item, final, []);
    } else if st.name != "" && st.name != route[k].name {
      LegChangeStep(geo, route, k, run, item, final, []);
      LegCoversRoute(geo, route, k + 1, StreetRun(route[k].name, geo.Length(route[k]), geo.angleOfLine(route[k])), item, final);
    } else {
      LegCoversRoute(geo, route, k + 1, st.(distance := st.distance + geo.Length(route[k])), item, final);
    }
  }

  /** A leg delivers its own item once, unless it is the return to the depot,
      which delivers nothing. */
  lemma {:induction false} LegDelivers(geo: Geometry, route: seq<StreetSegment>, k: nat, run: StreetRun, item: string, final: bool)
    requires k < |route| && (k == 0 ==> run.name == "")
    ensures Delivered(LegCommands(geo, route, k, run, item, final)) == if final then [] else [item]
    decreases |route| - k
  {
    var st := Resume(geo, run, route[k]);
    if k + 1 == |route| {
      var proceed: seq<DeliveryCommand> :=
        if st.name != "" then [Proceed(DirName(st.angle), st.name, st.distance + geo.Length(route[k]))] else [];
      var deliver: seq<DeliveryCommand> := if final then [] else [Deliver(item)];
      assert LegCommands(geo, route, k, run, item, final) == proceed + deliver;
      DeliveredAppend(proceed, deliver);
      if proceed != [] { assert proceed[1..] == []; }
      if deliver != [] { assert deliver[1..] == []; }
    } else if st.name != "" && st.name != route[k].name {
      var next := StreetRun(route[k].name, geo.Length(route[k]), geo.angleOfLine(route[k]));
      var rest := LegCommands(geo, route, k + 1, next, item, final);
      var turn := TurnCommand(geo, route[k - 1], route[k]);
      var head := [Proceed(DirName(st.angle), st.name, st.distance)] + turn;
      assert LegCommands(geo, route, k, run, item, final) == head + rest;
      LegDelivers(geo, route, k + 1, next, item, final);
      DeliveredAppend(head, rest);
      assert head[1..] == turn;
      if turn != [] { assert turn[1..] == []; }
    } else {
      LegDelivers(geo, route, k + 1, st.(distance := st.distance + geo.Length(route[k])), item, final);
    }
  }

  /** The delivery is a leg's very last command. */
  lemma {:induction false} LegEndsWithDelivery(geo: Geometry, route: seq<StreetSegment>, k: nat, run: StreetRun, item: string)
    requires k < |route| && (k == 0 ==> run.name == "")
    ensures var cmds := LegCommands(geo, route, k, run, item, false);
      cmds != [] && cmds[|cmds| - 1] == Deliver(item)
    decreases |route| - k
  {
    var st := Resume(geo, run, route[k]);
    if k + 1 == |route| {
    } else if st.name != "" && st.name != route[k].name {
      var next := StreetRun(route[k].name, geo.Length(route[k]), geo.angleOfLine(route[k]));
      LegEndsWithDelivery(geo, route, k + 1, next, item);
    } else {
      LegEndsWithDelivery(geo, route, k + 1, st.(distance := st.distance + geo.Length(route[k])), item);
    }
  }

  /** Every turn command comes straight after a proceed command. */
  ghost predicate TurnsFollowProceeds(cmds: seq<DeliveryCommand>) {
    forall i :: 0 <= i < |cmds| && cmds[i].Turn? ==> 0 < i && cmds[i - 1].Proceed?
  }

  /** A leg's commands never start with a turn and every turn in them follows a
      proceed, so no turn comes right after a delivery. */
  lemma {:induction false} LegTurnsFollowProceeds(geo: Geometry, route: seq<StreetSegment>, k: nat, run: StreetRun, item: string, final: bool)
    requires k < |route| && (k == 0 ==> run.name == "")
    ensures TurnsFollowProceeds(LegCommands(geo, route, k, run, item, final))
    ensures LegCommands(geo, route, k, run, item, final) != [] ==> !LegCommands(geo, route, k, run, item, final)[0].Turn?
    decreases |route| - k
  {
    var st := Resume(geo, run, route[k]);
    if k + 1 == |route| {
    } else if st.name != "" && st.name != route[k].name {
      var next := StreetRun(route[k].name, geo.Length(route[k]), geo.angleOfLine(route[k]));
      LegTurnsFollowProceeds(geo, route, k + 1, next, item, final);
      var head := [Proceed(DirName(st.angle), st.name, st.distance)] + TurnCommand(geo, route[k - 1], route[k]);
      var rest := LegCommands(geo, route, k + 1, next, item, final);
      var cmds := head + rest;
      assert LegCommands(geo, route, k, run, item, final) == cmds;
      forall i | 0 <= i < |cmds| && cmds[i].Turn?
        ensures 0 < i && cmds[i - 1].Proceed?
      {
        if i >= |head| {
          assert cmds[i] == rest[i - |head|];
          assert i - |head| != 0;
          assert cmds[i - 1] == rest[i - 1 - |head|];
        }
      }
    } else {
      LegTurnsFollowProceeds(geo, route, k + 1, st.(distance := st.distance + geo.Length(route[k])), item, final);
    }
  }

  /** A leg opens with a proceed along the street running at segment `k`, in
      the direction that street started with. */
  lemma {:induction false} LegOpensWithRunningStreet(geo: Geometry, route: seq<StreetSegment>, k: nat, run: StreetRun,
                                                     item: string, final: bool)
    requires k < |route| && (k == 0 ==> run.name == "") && Resume(geo, run, route[k]).name != ""
    ensures var cmds := LegCommands(geo, route, k, run, item, final);
      && cmds != [] && cmds[0].Proceed?
      && cmds[0].streetName == Resume(geo, run, route[k]).name
      && cmds[0].direction == DirName(Resume(geo, run, route[k]).angle)
    decreases |route| - k
  {
    var st := Resume(geo, run, route[k]);
    if k + 1 < |route| && st.name == route[k].name {
      LegOpensWithRunningStreet(geo, route, k + 1, st.(distance := st.distance + geo.Length(route[k])), item, final);
    }
  }

  /** The first proceed of a leg names the street of the route's first segment
      and takes its compass point from that segment's bearing. The router
      stores that segment pointing back at the leg's start (see BackChain), so
      the bearing is read off the segment as stored, not as driven. */
  lemma LegOpensWithFirstSegment(geo: Geometry, route: seq<StreetSegment>, item: string, final: bool)
    requires route != [] && route[0].name != ""
    ensures var cmds := Leg(geo, route, item, final);
      && cmds != [] && cmds[0].Proceed?
      && cmds[0].streetName == route[0].name && cmds[0].direction == DirName(geo.angleOfLine(route[0]))
  {
    LegOpensWithRunningStreet(geo, route, 0, NoStreet, item, final);
  }

  /** The last segment joins the running street whatever its own name: a leg of
      two differently named segments makes a single proceed along the first
      street, over both lengths, and no turn. */
  lemma LastSegmentJoinsRunningStreet(geo: Geometry, a: StreetSegment, b: StreetSegment, item: string)
    requires a.name != "" && b.name != "" && a.name != b.name
    ensures Leg(geo, [a, b], item, false)
         == [Proceed(DirName(geo.angleOfLine(a)), a.name, geo.Length(a) + geo.Length(b)), Deliver(item)]
  {
    assert Leg(geo, [a, b], item, false) == LegCommands(geo, [a, b], 1, StreetRun(a.name, 0.0 + geo.Length(a), geo.angleOfLine(a)), item, false);
  }

  // ---------------------------------------------------------------------------
  // Lists of deliveries
  // ---------------------------------------------------------------------------

  /** `f` applied to every element of `s`, in order. */
  function Project<A, B>(f: A -> B, s: seq<A>): (r: seq<B>)
    ensures |r| == |s|
  {
    if s == [] then [] else [f(s[0])] + Project(f, s[1..])
  }

  lemma {:induction false} ProjectAt<A, B>(f: A -> B, s: seq<A>, i: nat)
    requires i < |s|
    ensures Project(f, s)[i] == f(s[i])
    decreases i
  {
    if i > 0 {
      ProjectAt(f, s[1..], i - 1);
    }
  }

  function ItemOf(d: DeliveryRequest): string { d.item }
  function LocationOf(d: DeliveryRequest): GeoCoord { d.location }

  /** The items of a list of deliveries, in order. */
  function Items(s: seq<DeliveryRequest>): seq<string> { Project(ItemOf, s) }

  lemma {:induction false} ProjectAppend<A, B>(f: A -> B, u: seq<A>, v: seq<A>)
    ensures Project(f, u + v) == Project(f, u) + Project(f, v)
    decreases |u|
  {
    if u == [] {
      assert u + v == v;
    } else {
      assert (u + v)[0] == u[0] && (u + v)[1..] == u[1..] + v;
      ProjectAppend(f, u[1..], v);
    }
  }

  /** Taking element `j` out, seen through `f`. */
  lemma ProjectSplice<A, B>(f: A -> B, b: seq<A>, j: nat)
    requires j < |b|
    ensures multiset(Project(f, b)) == multiset(Project(f, b[..j] + b[j + 1..])) + multiset{f(b[j])}
  {
    var u, v := b[..j], b[j + 1..];
    assert b == u + ([b[j]] + v);
    ProjectAppend(f, u, [b[j]] + v);
    ProjectAppend(f, [b[j]], v);
    ProjectAppend(f, u, v);
    assert Project(f, [b[j]]) == [f(b[j])];
    assert multiset(Project(f, b)) == multiset(Project(f, u)) + multiset{f(b[j])} + multiset(Project(f, v));
    assert multiset(Project(f, u + v)) == multiset(Project(f, u)) + multiset(Project(f, v));
  }

  /** Rearranging a list rearranges what any function makes of its elements. */
  lemma {:induction false} ProjectPermutation<A, B>(f: A -> B, a: seq<A>, b: seq<A>)
    requires multiset(a) == multiset(b)
    ensures multiset(Project(f, a)) == multiset(Project(f, b))
    decreases |a|
  {
    if a == [] {
      assert |b| == |multiset(b)| == 0;
    } else {
      var x := a[0];
      assert x in multiset(b);
      var j :| 0 <= j < |b| && b[j] == x;
      var rest := b[..j] + b[j + 1..];
      MultisetWithout(b, j);
      assert a == [x] + a[1..];
      assert multiset(a) == multiset{x} + multiset(a[1..]);
      assert multiset(a[1..]) == multiset(rest);
      ProjectPermutation(f, a[1..], rest);
      ProjectSplice(f, b, j);
      assert Project(f, a) == [f(x)] + Project(f, a[1..]);
    }
  }

  /** No two deliveries share a location and none is at the depot, so every leg
      of the plan goes somewhere: the source dereferences the first segment of
      every route, and a route between equal points is empty. */
  ghost predicate DistinctStops(depot: GeoCoord, ds: seq<DeliveryRequest>) {
    && (forall i :: 0 <= i < |ds| ==> ds[i].location != depot)
    && (forall i, j :: 0 <= i < j < |ds| ==> ds[i].location != ds[j].location)
  }

  lemma {:induction false} AtMostOnce<T>(s: seq<T>, x: T)
    requires forall i, j :: 0 <= i < j < |s| ==> s[i] != s[j]
    ensures multiset(s)[x] <= 1
    decreases |s|
  {
    if s != [] {
      assert s == [s[0]] + s[1..];
      AtMostOnce(s[1..], x);
      if x == s[0] {
        forall k | 0 <= k < |s| - 1
          ensures s[1..][k] != x
        {
          assert s[1..][k] == s[k + 1];
        }
        assert x !in s[1..];
      }
    }
  }

  lemma TwiceCounted<T>(s: seq<T>, i: nat, j: nat)
    requires i < j < |s| && s[i] == s[j]
    ensures multiset(s)[s[i]] >= 2
  {
    assert s == s[..j] + s[j..];
    assert s[..j][i] == s[i];
    assert s[j..][0] == s[j];
  }

  /** The optimizer's reordering keeps the stops distinct. */
  lemma PermutationKeepsDistinct(depot: GeoCoord, ds: seq<DeliveryRequest>, ps: seq<DeliveryRequest>)
    requires multiset(ds) == multiset(ps) && DistinctStops(depot, ds)
    ensures DistinctStops(depot, ps)
  {
    forall i | 0 <= i < |ps|
      ensures ps[i].location != depot
    {
      assert ps[i] in multiset(ds);
    }
    var ld, lp := Project(LocationOf, ds), Project(LocationOf, ps);
    ProjectPermutation(LocationOf, ds, ps);
    forall i, j | 0 <= i < j < |ld|
      ensures ld[i] != ld[j]
    {
      ProjectAt(LocationOf, ds, i);
      ProjectAt(LocationOf, ds, j);
    }
    forall i, j | 0 <= i < j < |ps|
      ensures ps[i].location != ps[j].location
    {
      if ps[i].location == ps[j].location {
        ProjectAt(LocationOf, ps, i);
        ProjectAt(LocationOf, ps, j);
        TwiceCounted(lp, i, j);
        AtMostOnce(ld, lp[i]);
      }
    }
  }

  // ---------------------------------------------------------------------------
  // The plan
  // ---------------------------------------------------------------------------

  /** Where leg `i` starts: the depot, then each stop in turn. */
  function LegStart(depot: GeoCoord, stops: seq<DeliveryRequest>, i: nat): GeoCoord
    requires i <= |stops|
  {
    if i == 0 then depot else stops[i - 1].location
  }

  /** Every leg moves: each stop lies elsewhere than where its leg starts. */
  ghost predicate Moves(depot: GeoCoord, stops: seq<DeliveryRequest>) {
    forall i {:trigger LegStart(depot, stops, i)} :: 0 <= i < |stops| ==> stops[i].location != LegStart(depot, stops, i)
  }

  /** Distinct deliveries followed by the return to the depot make a tour whose
      every leg moves. */
  lemma DistinctStopsMove(depot: GeoCoord, ordered: seq<DeliveryRequest>)
    requires ordered != [] && DistinctStops(depot, ordered)
    ensures Moves(depot, ordered + [DeliveryRequest("", depot)])
  {
    var stops := ordered + [DeliveryRequest("", depot)];
    forall i | 0 <= i < |stops|
      ensures stops[i].location != LegStart(depot, stops, i)
    {
      if 0 < i < |ordered| {
        assert stops[i - 1] == ordered[i - 1] && stops[i] == ordered[i];
      }
    }
  }

  ghost predicate Routable(routes: seq<seq<StreetSegment>>) {
    forall i :: 0 <= i < |routes| ==> routes[i] != []
  }

  /** Route `i` leads from leg `i`'s start to its stop, in the backward form
      the router stores it in. */
  ghost predicate LegFollows(idx: Index, depot: GeoCoord, stops: seq<DeliveryRequest>, routes: seq<seq<StreetSegment>>, i: nat) {
    && i < |routes| && i < |stops|
    && BackChain(idx, routes[i], LegStart(depot, stops, i), stops[i].location)
  }

  /** Every route found so far leads from its leg's start to its stop. */
  ghost predicate LegsFollow(idx: Index, depot: GeoCoord, stops: seq<DeliveryRequest>, routes: seq<seq<StreetSegment>>) {
    && |routes| <= |stops|
    && forall i :: 0 <= i < |routes| ==> LegFollows(idx, depot, stops, routes, i)
  }

  /** A route from the next leg's start to its stop extends the routes found. */
  lemma LegsFollowSnoc(idx: Index, depot: GeoCoord, stops: seq<DeliveryRequest>,
                       routes: seq<seq<StreetSegment>>, route: seq<StreetSegment>)
    requires LegsFollow(idx, depot, stops, routes) && |routes| < |stops|
    requires BackChain(idx, route, LegStart(depot, stops, |routes|), stops[|routes|].location)
    ensures LegsFollow(idx, depot, stops, routes + [route])
  {
    var routes' := routes + [route];
    forall j | 0 <= j < |routes'|
      ensures LegFollows(idx, depot, stops, routes', j)
    {
      if j < |routes| {
        assert LegFollows(idx, depot, stops, routes, j);
        assert routes'[j] == routes[j];
      }
    }
  }

  /** The commands of the first |routes| legs; the leg to the last stop is the
      return to the depot and delivers nothing. */
  function Plan(geo: Geometry, routes: seq<seq<StreetSegment>>, stops: seq<DeliveryRequest>): seq<DeliveryCommand>
    requires |routes| <= |stops| && Routable(routes)
    decreases |routes|
  {
    if routes == [] then []
    else
      var n := |routes| - 1;
      Plan(geo, routes[..n], stops) + Leg(geo, routes[n], stops[n].item, n == |stops| - 1)
  }

  /** Routing one more leg appends that leg's commands to the plan. */
  lemma PlanSnoc(geo: Geometry, routes: seq<seq<StreetSegment>>, route: seq<StreetSegment>, stops: seq<DeliveryRequest>,
                  acc: seq<DeliveryCommand>)
    requires |routes| < |stops| && Routable(routes) && route != []
    ensures Routable(routes + [route])
    ensures Plan(geo, routes + [route], stops)
         == Plan(geo, routes, stops) + Leg(geo, route, stops[|routes|].item, |routes| == |stops| - 1)
    ensures acc + Plan(geo, routes + [route], stops)
         == acc + Plan(geo, routes, stops) + Leg(geo, route, stops[|routes|].item, |routes| == |stops| - 1)
  {
    assert (routes + [route])[..|routes|] == routes;
    var plan, leg := Plan(geo, routes, stops), Leg(geo, route, stops[|routes|].item, |routes| == |stops| - 1);
    assert Plan(geo, routes + [route], stops) == plan + leg;
    assert acc + (plan + leg) == acc + plan + leg;
  }

  /** The plan delivers the items of the stops it has reached, in order,
      except the return to the depot. */
  lemma {:induction false} PlanDelivers(geo: Geometry, routes: seq<seq<StreetSegment>>, stops: seq<DeliveryRequest>)
    requires |routes| <= |stops| && stops != [] && Routable(routes)
    ensures Delivered(Plan(geo, routes, stops))
         == Items(stops[..if |routes| == |stops| then |stops| - 1 else |routes|])
    decreases |routes|
  {
    if routes != [] {
      var n := |routes| - 1;
      var final := n == |stops| - 1;
      var before, leg := Plan(geo, routes[..n], stops), Leg(geo, routes[n], stops[n].item, final);
      assert Plan(geo, routes, stops) == before + leg;
      PlanDelivers(geo, routes[..n], stops);
      assert Delivered(before) == Items(stops[..n]);
      LegDelivers(geo, routes[n], 0, NoStreet, stops[n].item, final);
      DeliveredAppend(before, leg);
      if !final {
        assert stops[..n + 1] == stops[..n] + [stops[n]];
        ProjectAppend(ItemOf, stops[..n], [stops[n]]);
        assert Items([stops[n]]) == [stops[n].item];
      } else {
        assert Delivered(leg) == [];
      }
    }
  }

  /** A plan that reached every stop delivers every requested item exactly
      once, whatever order the optimizer chose. */
  lemma PlanDeliversEveryItem(geo: Geometry, depot: GeoCoord, deliveries: seq<DeliveryRequest>,
                              routes: seq<seq<StreetSegment>>, stops: seq<DeliveryRequest>)
    requires |stops| == |deliveries| + 1 && multiset(stops[..|deliveries|]) == multiset(deliveries)
    requires |routes| == |stops| && Routable(routes)
    ensures multiset(Delivered(Plan(geo, routes, stops))) == multiset(Items(deliveries))
  {
    PlanDelivers(geo, routes, stops);
    ProjectPermutation(ItemOf, stops[..|deliveries|], deliveries);
  }

  /** Sum of the lengths of all the routes. */
  function RoutesLength(geo: Geometry, routes: seq<seq<StreetSegment>>): real
    decreases |routes|
  {
    if routes == [] then 0.0 else RoutesLength(geo, routes[..|routes| - 1]) + geo.SumLength(routes[|routes| - 1])
  }

  /** On named streets the distances of the plan's proceed commands add up to
      the length of every route it has followed. */
  lemma {:induction false} PlanCoversRoutes(geo: Geometry, routes: seq<seq<StreetSegment>>, stops: seq<DeliveryRequest>)
    requires |routes| <= |stops| && Routable(routes)
    requires forall i :: 0 <= i < |routes| ==> Named(routes[i])
    ensures ProceedSum(Plan(geo, routes, stops)) == RoutesLength(geo, routes)
    decreases |routes|
  {
    if routes != [] {
      var n := |routes| - 1;
      PlanCoversRoutes(geo, routes[..n], stops);
      LegCoversRoute(geo, routes[n], 0, NoStreet, stops[n].item, n == |stops| - 1);
      ProceedSumAppend(Plan(geo, routes[..n], stops), Leg(geo, routes[n], stops[n].item, n == |stops| - 1));
      assert routes[n][0..] == routes[n];
    }
  }

  lemma TurnsFollowProceedsAppend(a: seq<DeliveryCommand>, b: seq<DeliveryCommand>)
    requires TurnsFollowProceeds(a) && TurnsFollowProceeds(b) && (b != [] ==> !b[0].Turn?)
    ensures TurnsFollowProceeds(a + b) && (a + b != [] && a == [] ==> !(a + b)[0].Turn?)
  {
    var c := a + b;
    forall i | 0 <= i < |c| && c[i].Turn?
      ensures 0 < i && c[i - 1].Proceed?
    {
      if i >= |a| {
        assert c[i] == b[i - |a|];
        assert c[i - 1] == b[i - 1 - |a|];
      }
    }
  }

  /** In the whole plan every turn comes straight after a proceed: no turn
      follows a delivery or starts the plan. */
  lemma {:induction false} PlanTurnsFollowProceeds(geo: Geometry, routes: seq<seq<StreetSegment>>, stops: seq<DeliveryRequest>)
    requires |routes| <= |stops| && Routable(routes)
    ensures TurnsFollowProceeds(Plan(geo, routes, stops))
    decreases |routes|
  {
    if routes != [] {
      var n := |routes| - 1;
      PlanTurnsFollowProceeds(geo, routes[..n], stops);
      LegTurnsFollowProceeds(geo, routes[n], 0, NoStreet, stops[n].item, n == |stops| - 1);
      TurnsFollowProceedsAppend(Plan(geo, routes[..n], stops), Leg(geo, routes[n], stops[n].item, n == |stops| - 1));
    }
  }

  // ---------------------------------------------------------------------------
  // The planner
  // ---------------------------------------------------------------------------

  class DeliveryPlanner {
    const streetMap: StreetMap
    const geo: Geometry

    constructor (streetMap: StreetMap, geo: Geometry)
      ensures this.streetMap == streetMap && this.geo == geo
    {
      this.streetMap := streetMap;
      this.geo := geo;
    }

    /** The segment loop of one leg: walks the route, closing a street with a
        proceed (and a turn where the angle is not straight) at each change of
        name, closes the last street on the last segment and delivers the item
        unless the leg is the return to the depot. Commands are appended to
        `commandsIn` and every proceed's distance is added to `totalIn`. */
    method EmitLeg(route: seq<StreetSegment>, item: string, final: bool, commandsIn: seq<DeliveryCommand>, totalIn: real)
      returns (commands: seq<DeliveryCommand>, total: real)
      requires route != []
      ensures commands == commandsIn + Leg(geo, route, item, final)
      ensures total == totalIn + ProceedSum(Leg(geo, route, item, final))
    {
      commands, total := commandsIn, totalIn;
      var currStreetName := "";
      var currStreetDistance := 0.0;
      var currStreetAngle := 0.0;
      var k := 0;
      while true
        invariant 0 <= k < |route|
        invariant k == 0 ==> currStreetName == ""
        invariant commandsIn + Leg(geo, route, item, final)
               == commands + LegCommands(geo, route, k, StreetRun(currStreetName, currStreetDistance, currStreetAngle), item, final)
        invariant totalIn + ProceedSum(Leg(geo, route, item, final))
               == total + ProceedSum(LegCommands(geo, route, k, StreetRun(currStreetName, currStreetDistance, currStreetAngle), item, final))
        decreases |route| - k
      {
        ghost var run := StreetRun(currStreetName, currStreetDistance, currStreetAngle);
        if currStreetName == "" {
          currStreetName := route[k].name;
          currStreetAngle := geo.angleOfLine(route[k]);
        }
        if k + 1 == |route| {
          LegLastStep(geo, route, k, run, item, final, commands);
          if currStreetName != "" {
            currStreetDistance := currStreetDistance + geo.Length(route[k]);
            commands := commands + [Proceed(DirName(currStreetAngle), currStreetName, currStreetDistance)];
            total := total + currStreetDistance;
          }
          if !final {
            commands := commands + [Deliver(item)];
          }
          break;
        }
        if currStreetName != "" && currStreetName != route[k].name {
          LegChangeStep(geo, route, k, run, item, final, commands);
          commands := commands + [Proceed(DirName(currStreetAngle), currStreetName, currStreetDistance)];
          commands := commands + TurnCommand(geo, route[k - 1], route[k]);
          total := total + currStreetDistance;
          currStreetDistance := 0.0;
          currStreetAngle := geo.angleOfLine(route[k]);
          currStreetName := route[k].name;
        }
        currStreetDistance := currStreetDistance + geo.Length(route[k]);
        k := k + 1;
      }
    }

    /** generateDeliveryPlan: refuses a depot the map does not know; otherwise
        lets the optimizer order the deliveries, appends the return to the
        depot and plans one leg per stop, stopping at the first leg the router
        cannot route. Commands and distance are appended to what the caller
        passes in, also for the legs planned before a failure. */
    method GenerateDeliveryPlan(depot: GeoCoord, deliveries: seq<DeliveryRequest>, commandsIn: seq<DeliveryCommand>,
                                totalIn: real, averagePoint: seq<DeliveryRequest> -> GeoCoord, rng: Random)
      returns (result: DeliveryResult, commands: seq<DeliveryCommand>, total: real, rng': Random,
               ghost stops: seq<DeliveryRequest>, ghost routes: seq<seq<StreetSegment>>)
      requires streetMap.Valid() && geo.Valid()
      requires deliveries != [] && DistinctStops(depot, deliveries)
      ensures depot !in streetMap.Index() ==> result == BadCoord && commands == commandsIn && total == totalIn
      ensures depot in streetMap.Index() ==>
        && |stops| == |deliveries| + 1
        && multiset(stops[..|deliveries|]) == multiset(deliveries)
        && stops[|deliveries|] == DeliveryRequest("", depot)
        && LegsFollow(streetMap.Index(), depot, stops, routes)
      ensures |routes| <= |stops| && Routable(routes)
      ensures commands == commandsIn + Plan(geo, routes, stops)
      ensures total == totalIn + ProceedSum(Plan(geo, routes, stops))
      ensures result == DeliverySuccess <==> depot in streetMap.Index() && |routes| == |stops|
      ensures result == NoRoute ==>
        && depot in streetMap.Index() && |routes| < |stops|
        && forall p :: !IsWalk(streetMap.Index(), p, LegStart(depot, stops, |routes|), stops[|routes|].location)
      ensures result == BadCoord && depot in streetMap.Index() ==>
        |routes| < |stops| && stops[|routes|].location !in streetMap.Index()
    {
      commands, total, rng', stops, routes := commandsIn, totalIn, rng, [], [];
      var depotKnown, temp := streetMap.GetSegmentsThatStartWith(depot, []);
      if !depotKnown {
        assert commands + Plan(geo, routes, stops) == commands;
        return BadCoord, commands, total, rng', stops, routes;
      }
      var router := new PointToPointRouter(streetMap, geo);
      var deliverAndReturn, oldCrowDist, newCrowDist;
      deliverAndReturn, oldCrowDist, newCrowDist, rng' :=
        OptimizeDeliveryOrder(geo, averagePoint, depot, deliveries, 0.0, 0.0, rng);
      ghost var ordered := deliverAndReturn;
      assert |ordered| == |multiset(ordered)| == |multiset(deliveries)| == |deliveries|;
      PermutationKeepsDistinct(depot, deliveries, ordered);
      DistinctStopsMove(depot, ordered);
      deliverAndReturn := deliverAndReturn + [DeliveryRequest("", depot)];
      assert deliverAndReturn[..|deliveries|] == ordered;
      stops := deliverAndReturn;
      result, commands, total, routes := PlanLegs(router, depot, deliverAndReturn, commandsIn, totalIn);
    }

    /** One pass of the loop over the stops: routes the leg from `start` to
        the stop and, when the router succeeds, emits the leg's commands. */
    method PlanLeg(router: PointToPointRouter, ghost idx: Index, start: GeoCoord, stop: DeliveryRequest, final: bool,
                   commandsIn: seq<DeliveryCommand>, totalIn: real)
      returns (delRes: DeliveryResult, commands: seq<DeliveryCommand>, total: real, route: seq<StreetSegment>)
      requires streetMap.Valid() && streetMap.Index() == idx && router.streetMap == streetMap && router.geo == geo
      requires start != stop.location && start in idx
      ensures streetMap.Valid() && streetMap.Index() == idx
      ensures delRes == DeliverySuccess ==>
        && route != [] && BackChain(idx, route, start, stop.location)
        && stop.location in idx
        && commands == commandsIn + Leg(geo, route, stop.item, final)
        && total == totalIn + ProceedSum(Leg(geo, route, stop.item, final))
      ensures delRes == NoRoute ==> forall p :: !IsWalk(idx, p, start, stop.location)
      ensures delRes == BadCoord ==> stop.location !in idx
      ensures delRes != DeliverySuccess ==> commands == commandsIn && total == totalIn
    {
      var dist;
      delRes, route, dist := router.GeneratePointToPointRoute(start, stop.location, 0.0);
      commands, total := commandsIn, totalIn;
      if delRes == DeliverySuccess {
        commands, total := EmitLeg(route, stop.item, final, commands, total);
      }
    }

    /** The loop over the stops: routes each leg with the router and emits its
        commands, and stops at the first leg the router cannot route. */
    method PlanLegs(router: PointToPointRouter, depot: GeoCoord, deliverAndReturn: seq<DeliveryRequest>,
                    commandsIn: seq<DeliveryCommand>, totalIn: real)
      returns (result: DeliveryResult, commands: seq<DeliveryCommand>, total: real, ghost routes: seq<seq<StreetSegment>>)
      requires streetMap.Valid() && router.streetMap == streetMap && router.geo == geo
      requires depot in streetMap.Index() && Moves(depot, deliverAndReturn)
      ensures |routes| <= |deliverAndReturn| && Routable(routes)
      ensures LegsFollow(streetMap.Index(), depot, deliverAndReturn, routes)
      ensures commands == commandsIn + Plan(geo, routes, deliverAndReturn)
      ensures total == totalIn + ProceedSum(Plan(geo, routes, deliverAndReturn))
      ensures result == DeliverySuccess <==> |routes| == |deliverAndReturn|
      ensures result == NoRoute ==>
        && |routes| < |deliverAndReturn|
        && forall p :: !IsWalk(streetMap.Index(), p, LegStart(depot, deliverAndReturn, |routes|), deliverAndReturn[|routes|].location)
      ensures result == BadCoord ==>
        |routes| < |deliverAndReturn| && deliverAndReturn[|routes|].location !in streetMap.Index()
    {
      commands, total, routes := commandsIn, totalIn, [];
      ghost var idx := streetMap.Index();
      var startCoord := depot;
      var i := 0;
      while i < |deliverAndReturn|
        invariant streetMap.Valid() && streetMap.Index() == idx
        invariant i == |routes| <= |deliverAndReturn| && Routable(routes)
        invariant LegsFollow(idx, depot, deliverAndReturn, routes)
        invariant startCoord == LegStart(depot, deliverAndReturn, i) && startCoord in idx
        invariant commands == commandsIn + Plan(geo, routes, deliverAndReturn)
        invariant total == totalIn + ProceedSum(Plan(geo, routes, deliverAndReturn))
      {
        ghost var plan := Plan(geo, routes, deliverAndReturn);
        assert startCoord != deliverAndReturn[i].location;
        var delRes, route;
        delRes, commands, total, route :=
          PlanLeg(router, idx, startCoord, deliverAndReturn[i], i == |deliverAndReturn| - 1, commands, total);
        if delRes != DeliverySuccess {
          result := delRes;
          return;
        }
        ghost var leg := Leg(geo, route, deliverAndReturn[i].item, i == |deliverAndReturn| - 1);
        ProceedSumAppend(plan, leg);
        PlanSnoc(geo, routes, route, deliverAndReturn, commandsIn);
        LegsFollowSnoc(idx, depot, deliverAndReturn, routes, route);
        routes := routes + [route];
        startCoord := deliverAndReturn[i].location;
        i := i + 1;
      }
      result := DeliverySuccess;
    }
  }
}
