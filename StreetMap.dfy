/** The street index: every coordinate of the map is associated with the list of
    street segments that leave it. A map file lists streets as a name line, a
    count line and that many coordinate lines; each coordinate line is stored
    twice, forward under its start and reversed under its end. */
module StreetMap {
  import opened GeoTypes
  import opened HashMap

  /** The hash of a coordinate: a string hash of its latitude text followed by
      its longitude text, truncated to the 32 bits of an `unsigned int`. */
  function CoordHash(stringHash: string -> nat, g: GeoCoord): (h: nat)
    ensures h < 0x1_0000_0000
  {
    stringHash(g.latitudeText + g.longitudeText) % 0x1_0000_0000
  }

  /** The hash sees only the concatenated text, so coordinates that split the
      same characters differently always collide. */
  lemma CoordHashSeesOnlyText(stringHash: string -> nat, g1: GeoCoord, g2: GeoCoord)
    requires g1.latitudeText + g1.longitudeText == g2.latitudeText + g2.longitudeText
    ensures CoordHash(stringHash, g1) == CoordHash(stringHash, g2)
  {
  }

  // ---------------------------------------------------------------------------
  // The index as a value
  // ---------------------------------------------------------------------------

  type Index = map<GeoCoord, seq<StreetSegment>>

  /** The list stored under `c`, or the empty list when there is none (the
      vector the load starts from when `find` returns null). */
  function Get(idx: Index, c: GeoCoord): seq<StreetSegment> {
    if c in idx then idx[c] else []
  }

  /** Every segment stored under a coordinate starts at that coordinate. */
  ghost predicate StartsAtKey(idx: Index) {
    forall c, k :: c in idx && 0 <= k < |idx[c]| ==> idx[c][k].start == c
  }

  /** Every stored segment can be travelled back: its reverse is stored under
      its end. (The trigger keeps the reverse of a reverse from being looked up.) */
  ghost predicate Symmetric(idx: Index) {
    forall c, k {:trigger Reverse(idx[c][k])} :: c in idx && 0 <= k < |idx[c]| ==>
      idx[c][k].end in idx && Reverse(idx[c][k]) in idx[idx[c][k].end]
  }

  ghost predicate IndexInvariant(idx: Index) {
    StartsAtKey(idx) && Symmetric(idx)
  }

  /** One coordinate line's effect: the forward segment is appended to its
      start's list, then the reversed segment to its end's list (for a segment
      from a point to itself both land on the same list). */
  function AddSegment(idx: Index, seg: StreetSegment): Index {
    var withStart := idx[seg.start := Get(idx, seg.start) + [seg]];
    withStart[seg.end := Get(withStart, seg.end) + [Reverse(seg)]]
  }

  /** What one segment adds under `c`: itself when it starts there, then its
      reverse when it ends there. */
  function Added(seg: StreetSegment, c: GeoCoord): seq<StreetSegment> {
    (if c == seg.start then [seg] else []) + (if c == seg.end then [Reverse(seg)] else [])
  }

  /** The forward segment lands on its start's list and the reversed one on its
      end's list, after what was there; every other list is unchanged. */
  lemma AddSegmentLists(idx: Index, seg: StreetSegment)
    ensures AddSegment(idx, seg).Keys == idx.Keys + {seg.start, seg.end}
    ensures forall c :: Get(AddSegment(idx, seg), c) == Get(idx, c) + Added(seg, c)
  {
  }

  lemma AddSegmentKeepsInvariant(idx: Index, seg: StreetSegment)
    requires IndexInvariant(idx)
    ensures IndexInvariant(AddSegment(idx, seg))
  {
    AddSegmentLists(idx, seg);
    var r: Index := AddSegment(idx, seg);
    forall c: GeoCoord, k: int | c in r && 0 <= k < |r[c]|
      ensures r[c][k].start == c
      ensures r[c][k].end in r && Reverse(r[c][k]) in r[r[c][k].end]
    {
      var old_ := Get(idx, c);
      assert r[c] == Get(r, c);
      if k < |old_| {
        assert r[c][k] == idx[c][k];
        var e := idx[c][k].end;
        assert Reverse(idx[c][k]) in Get(idx, e);
        assert Get(idx, e) <= Get(r, e);
      } else if c == seg.start && k == |old_| {
        assert r[c][k] == seg;
        assert Reverse(seg) in Get(r, seg.end);
      } else {
        assert c == seg.end && r[c][k] == Reverse(seg);
        assert seg in Get(r, seg.start);
      }
    }
  }

  /** The segments appended under `c` by a run of coordinate lines, in order. */
  function Outgoing(segs: seq<StreetSegment>, c: GeoCoord): seq<StreetSegment> {
    if segs == [] then []
    else
      Outgoing(segs[..|segs| - 1], c) + Added(segs[|segs| - 1], c)
  }

  /** Adding the segments of a run of coordinate lines, one after another. */
  function AddAll(idx: Index, segs: seq<StreetSegment>): Index {
    if segs == [] then idx else AddSegment(AddAll(idx, segs[..|segs| - 1]), segs[|segs| - 1])
  }

  /** Segments already stored keep their place and their order; under each
      coordinate the new ones follow in the order of the lines. */
  lemma {:induction false} AddAllAppends(idx: Index, segs: seq<StreetSegment>, c: GeoCoord)
    ensures Get(AddAll(idx, segs), c) == Get(idx, c) + Outgoing(segs, c)
  {
    if segs != [] {
      var init, last := segs[..|segs| - 1], segs[|segs| - 1];
      var before := AddAll(idx, init);
      AddAllAppends(idx, init, c);
      AddSegmentLists(before, last);
      assert AddAll(idx, segs) == AddSegment(before, last);
      assert Outgoing(segs, c) == Outgoing(init, c) + Added(last, c);
    }
  }

  lemma {:induction false} AddAllKeepsInvariant(idx: Index, segs: seq<StreetSegment>)
    requires IndexInvariant(idx)
    ensures IndexInvariant(AddAll(idx, segs))
  {
    if segs != [] {
      AddAllKeepsInvariant(idx, segs[..|segs| - 1]);
      AddSegmentKeepsInvariant(AddAll(idx, segs[..|segs| - 1]), segs[|segs| - 1]);
    }
  }

  // ---------------------------------------------------------------------------
  // The map file, line by line
  // ---------------------------------------------------------------------------

  /** One line of a map file, already read: the whole text (taken when a street
      name is expected), the integer at its front (taken when a count is
      expected) and its first four blank-separated tokens, "" where missing
      (taken when a coordinate line is expected). */
  datatype MapLine = MapLine(text: string, number: int, tokens: (string, string, string, string))

  /** The loop's flags and registers. */
  datatype LoadState = LoadState(nameNext: bool, countNext: bool, name: string, count: int)

  const InitialLoadState := LoadState(true, false, "", 0)

  /** One pass of the load loop: a name line stores the name, a count line the
      count, and a coordinate line decrements the count, expecting a name
      again only when it reaches exactly zero. */
  function StepLine(st: LoadState, line: MapLine): LoadState {
    if st.nameNext then st.(nameNext := false, countNext := true, name := line.text)
    else if st.countNext then st.(countNext := false, count := line.number)
    else st.(nameNext := st.count - 1 == 0, count := st.count - 1)
  }

  /** The segment a line adds in state `st`: only coordinate lines add one. */
  function LineSegment(st: LoadState, line: MapLine): Option<StreetSegment> {
    if st.nameNext || st.countNext then None
    else
      var (lat1, lon1, lat2, lon2) := line.tokens;
      Some(StreetSegment(GeoCoord(lat1, lon1), GeoCoord(lat2, lon2), st.name))
  }

  function RunFrom(st: LoadState, lines: seq<MapLine>): LoadState {
    if lines == [] then st else StepLine(RunFrom(st, lines[..|lines| - 1]), lines[|lines| - 1])
  }

  /** The forward segments, in order, that `lines` add when read from state `st`. */
  function SegmentsFrom(st: LoadState, lines: seq<MapLine>): seq<StreetSegment> {
    if lines == [] then []
    else
      var init := lines[..|lines| - 1];
      var seg := LineSegment(RunFrom(st, init), lines[|lines| - 1]);
      SegmentsFrom(st, init) + (if seg.Some? then [seg.value] else [])
  }

  function LoadSegments(lines: seq<MapLine>): seq<StreetSegment> {
    SegmentsFrom(InitialLoadState, lines)
  }

  lemma {:induction false} RunFromConcat(st: LoadState, a: seq<MapLine>, b: seq<MapLine>)
    ensures RunFrom(st, a + b) == RunFrom(RunFrom(st, a), b)
    ensures SegmentsFrom(st, a + b) == SegmentsFrom(st, a) + SegmentsFrom(RunFrom(st, a), b)
    decreases |b|
  {
    if b != [] {
      var b' := b[..|b| - 1];
      assert (a + b)[..|a + b| - 1] == a + b';
      RunFromConcat(st, a, b');
    } else {
      assert a + b == a;
    }
  }

  /** The lines of one street: its name, its count, and one coordinate line
      per segment. */
  function StreetLines(name: string, coords: seq<(string, string, string, string)>): seq<MapLine> {
    [MapLine(name, 0, ("", "", "", "")), MapLine("", |coords|, ("", "", "", ""))]
      + seq(|coords|, k requires 0 <= k < |coords| => MapLine("", 0, coords[k]))
  }

  function StreetSegments(name: string, coords: seq<(string, string, string, string)>): seq<StreetSegment> {
    seq(|coords|, k requires 0 <= k < |coords| =>
      StreetSegment(GeoCoord(coords[k].0, coords[k].1), GeoCoord(coords[k].2, coords[k].3), name))
  }

  /** Reading a street with at least one segment from a state that expects a
      name adds exactly its segments, named after it, and ends expecting the
      next name. */
  lemma {:induction false} StreetRecord(st: LoadState, name: string, coords: seq<(string, string, string, string)>)
    requires st.nameNext && |coords| >= 1
    ensures RunFrom(st, StreetLines(name, coords)).nameNext
    ensures SegmentsFrom(st, StreetLines(name, coords)) == StreetSegments(name, coords)
  {
    var lines := StreetLines(name, coords);
    var n := |coords|;
    StreetPrefix(st, name, coords, n);
    assert lines[..n + 2] == lines;
    assert coords[..n] == coords;
  }

  lemma {:induction false} StreetPrefix(st: LoadState, name: string, coords: seq<(string, string, string, string)>, j: nat)
    requires st.nameNext && 1 <= |coords| && j <= |coords|
    ensures var lines := StreetLines(name, coords); var n := |coords|;
      && RunFrom(st, lines[..j + 2]) == LoadState(j == n, false, name, n - j)
      && SegmentsFrom(st, lines[..j + 2]) == StreetSegments(name, coords[..j])
  {
    var lines := StreetLines(name, coords);
    var n := |coords|;
    if j == 0 {
      RunFromLast(st, lines, 1);
      RunFromLast(st, lines, 2);
      assert lines[..0] == [];
      assert StreetSegments(name, coords[..0]) == [];
    } else {
      StreetPrefix(st, name, coords, j - 1);
      RunFromLast(st, lines, j + 2);
      assert lines[j + 1] == MapLine("", 0, coords[j - 1]);
      StreetSegmentsLast(name, coords, j);
    }
  }

  /** Reading the first `k` lines is reading the first `k - 1` and then line `k - 1`. */
  lemma RunFromLast(st: LoadState, lines: seq<MapLine>, k: nat)
    requires 1 <= k <= |lines|
    ensures RunFrom(st, lines[..k]) == StepLine(RunFrom(st, lines[..k - 1]), lines[k - 1])
    ensures SegmentsFrom(st, lines[..k]) == SegmentsFrom(st, lines[..k - 1])
      + (var seg := LineSegment(RunFrom(st, lines[..k - 1]), lines[k - 1]); if seg.Some? then [seg.value] else [])
  {
    assert lines[..k][..k - 1] == lines[..k - 1];
  }

  lemma StreetSegmentsLast(name: string, coords: seq<(string, string, string, string)>, j: nat)
    requires 1 <= j <= |coords|
    ensures StreetSegments(name, coords[..j]) == StreetSegments(name, coords[..j - 1])
      + [StreetSegment(GeoCoord(coords[j - 1].0, coords[j - 1].1), GeoCoord(coords[j - 1].2, coords[j - 1].3), name)]
  {
  }

  /** A street as the map file lists it: its name and one coordinate quadruple
      (start latitude, start longitude, end latitude, end longitude) per segment. */
  datatype Street = Street(name: string, coords: seq<(string, string, string, string)>)

  function MapFile(streets: seq<Street>): seq<MapLine> {
    if streets == [] then []
    else
      var last := streets[|streets| - 1];
      MapFile(streets[..|streets| - 1]) + StreetLines(last.name, last.coords)
  }

  function FileSegments(streets: seq<Street>): seq<StreetSegment> {
    if streets == [] then []
    else
      var last := streets[|streets| - 1];
      FileSegments(streets[..|streets| - 1]) + StreetSegments(last.name, last.coords)
  }

  /** Loading a map file whose every street has at least one segment adds
      exactly the file's segments, each named after its street, in file order. */
  lemma {:induction false} LoadWellFormedFile(streets: seq<Street>)
    requires forall k :: 0 <= k < |streets| ==> |streets[k].coords| >= 1
    ensures RunFrom(InitialLoadState, MapFile(streets)).nameNext
    ensures LoadSegments(MapFile(streets)) == FileSegments(streets)
  {
    if streets != [] {
      var init, last := streets[..|streets| - 1], streets[|streets| - 1];
      LoadWellFormedFile(init);
      RunFromConcat(InitialLoadState, MapFile(init), StreetLines(last.name, last.coords));
      StreetRecord(RunFrom(InitialLoadState, MapFile(init)), last.name, last.coords);
    }
  }

  /** A count of zero or less never comes back to zero: from then on every line
      is read as a coordinate line and adds a segment. */
  lemma {:induction false} CountBelowOneSwallowsRest(lines: seq<MapLine>, k: nat, j: nat)
    requires k <= j <= |lines|
    requires var st := RunFrom(InitialLoadState, lines[..k]); !st.nameNext && !st.countNext && st.count <= 0
    ensures var st := RunFrom(InitialLoadState, lines[..k]); var st' := RunFrom(InitialLoadState, lines[..j]);
      && !st'.nameNext && !st'.countNext && st'.count == st.count - (j - k)
      && |LoadSegments(lines[..j])| == |LoadSegments(lines[..k])| + (j - k)
  {
    if j > k {
      CountBelowOneSwallowsRest(lines, k, j - 1);
      assert lines[..j][..j - 1] == lines[..j - 1];
    }
  }

  // ---------------------------------------------------------------------------
  // The street map object
  // ---------------------------------------------------------------------------

  class StreetMap {
    const hasher: GeoCoord -> nat
    /** The source's `m_map`. */
    const segments: ExpandableHashMap<GeoCoord, seq<StreetSegment>>
    ghost var Repr: set<object>

    /** The object structure: the hash map is owned and consistent. */
    ghost predicate MapValid()
      reads this, Repr
      ensures MapValid() ==> this in Repr
    {
      && this in Repr && segments in Repr && segments.Repr <= Repr && this !in segments.Repr
      && segments.Valid()
      && segments.hasher == hasher
    }

    ghost predicate Valid()
      reads this, Repr
      ensures Valid() ==> this in Repr
    {
      MapValid() && IndexInvariant(segments.Contents)
    }

    ghost function Index(): Index
      reads this, segments
    {
      segments.Contents
    }

    constructor (stringHash: string -> nat)
      ensures Valid() && fresh(Repr) && Index() == map[]
      ensures forall g :: hasher(g) == CoordHash(stringHash, g)
    {
      var h := (g: GeoCoord) => CoordHash(stringHash, g);
      hasher := h;
      segments := new ExpandableHashMap(h, DefaultMaxLoadFactor);
      new;
      Repr := {this} + segments.Repr;
    }

    /** One read-modify-write of `m_map`: the list under `key` (or an empty one)
        is copied out, `seg` is pushed onto it, and it is associated back. */
    method Append(key: GeoCoord, seg: StreetSegment, ghost before: Index)
      requires MapValid() && before == Index()
      modifies Repr
      ensures MapValid() && fresh(Repr - old(Repr))
      ensures Index() == before[key := Get(before, key) + [seg]]
    {
      var found := segments.Find(key);
      var v := if found.Some? then found.value else [];
      segments.Associate(key, v + [seg]);
      Repr := Repr + segments.Repr;
    }

    /** Appends `seg` to its start's list and its reverse to its end's list. */
    method AddStreetSegment(seg: StreetSegment)
      requires Valid()
      modifies Repr
      ensures Valid() && fresh(Repr - old(Repr))
      ensures Index() == AddSegment(old(Index()), seg)
    {
      AddSegmentKeepsInvariant(segments.Contents, seg);
      Append(seg.start, seg, Index());
      Append(seg.end, Reverse(seg), Index());
    }

    /** Reads the lines of a map file. `fileOpened` stands for the file having
        been opened; when it was not, nothing is read and false is returned. */
    method Load(fileOpened: bool, lines: seq<MapLine>) returns (loaded: bool)
      requires Valid()
      modifies Repr
      ensures Valid() && fresh(Repr - old(Repr))
      ensures loaded == fileOpened
      ensures Index() == if fileOpened then AddAll(old(Index()), LoadSegments(lines)) else old(Index())
    {
      if !fileOpened {
        return false;
      }
      ghost var index0 := Index();
      ghost var added: seq<StreetSegment> := [];
      var nameNext, countNext, name, count := true, false, "", 0;
      var i := 0;
      while i < |lines|
        invariant i <= |lines|
        invariant Valid() && fresh(Repr - old(Repr))
        invariant LoadState(nameNext, countNext, name, count) == RunFrom(InitialLoadState, lines[..i])
        invariant added == LoadSegments(lines[..i])
        invariant Index() == AddAll(index0, added)
      {
        var line := lines[i];
        ghost var st := RunFrom(InitialLoadState, lines[..i]);
        ghost var next := LineSegment(st, line);
        assert lines[..i + 1][..i] == lines[..i];
        assert RunFrom(InitialLoadState, lines[..i + 1]) == StepLine(st, line);
        assert LoadSegments(lines[..i + 1]) == LoadSegments(lines[..i]) + (if next.Some? then [next.value] else []);
        if nameNext {
          name := line.text;
          countNext := true;
          nameNext := false;
        } else if countNext {
          count := line.number;
          countNext := false;
        } else {
          count := count - 1;
          var (lat1, lon1, lat2, lon2) := line.tokens;
          var seg := StreetSegment(GeoCoord(lat1, lon1), GeoCoord(lat2, lon2), name);
          assert next == Some(seg);
          AddStreetSegment(seg);
          assert (added + [seg])[..|added|] == added;
          added := added + [seg];
          if count == 0 {
            nameNext := true;
          }
        }
        assert LoadState(nameNext, countNext, name, count) == StepLine(st, line);
        i := i + 1;
      }
      assert lines[..i] == lines;
      assert index0 == old(Index());
      return true;
    }

    /** The list stored under `gc`, replacing `segs`; when `gc` has no list the
        answer is false and `segs` comes back untouched. The index is not changed. */
    method GetSegmentsThatStartWith(gc: GeoCoord, segs: seq<StreetSegment>) returns (found: bool, result: seq<StreetSegment>)
      requires Valid()
      ensures found <==> gc in Index()
      ensures result == if found then Index()[gc] else segs
      ensures found ==> forall k :: 0 <= k < |result| ==> result[k].start == gc
    {
      var r := segments.Find(gc);
      if r.None? {
        return false, segs;
      }
      return true, r.value;
    }
  }
}
