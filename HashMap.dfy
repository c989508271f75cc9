/** ExpandableHashMap: a separate-chaining hash table that starts with 8 buckets
    and doubles, rehashing every entry, when a new key would push the load
    factor past its maximum.

    A bucket is a sequence of key/value pairs; the empty sequence stands for the
    source's null bucket (a bucket list, once created, is never emptied). The
    hash function is a constant field: its values are whatever the caller's
    hasher returns. */
module HashMap {
  import opened GeoTypes

  const InitialSlots: nat := 8
  const DefaultMaxLoadFactor: real := 0.5

  /** Some entry of bucket `b` has key `k`. */
  ghost predicate InBucket<K, V>(b: seq<(K, V)>, k: K) {
    exists j :: 0 <= j < |b| && b[j].0 == k
  }

  /** Every entry sits in the bucket its hash selects. */
  ghost predicate Placed<K, V>(hasher: K -> nat, s: seq<seq<(K, V)>>) {
    && |s| > 0
    && forall i, j :: 0 <= i < |s| && 0 <= j < |s[i]| ==> hasher(s[i][j].0) % |s| == i
  }

  /** No bucket holds a key twice (with Placed, no key appears twice in the table). */
  ghost predicate UniqueKeys<K, V>(s: seq<seq<(K, V)>>) {
    forall i, j1, j2 :: 0 <= i < |s| && 0 <= j1 < j2 < |s[i]| ==> s[i][j1].0 != s[i][j2].0
  }

  /** The entries of the table are exactly the pairs of the map `m`. */
  ghost predicate Represents<K, V>(hasher: K -> nat, s: seq<seq<(K, V)>>, m: map<K, V>) {
    && |s| > 0
    && (forall i, j :: 0 <= i < |s| && 0 <= j < |s[i]| ==> s[i][j].0 in m && m[s[i][j].0] == s[i][j].1)
    && (forall k {:trigger hasher(k)} :: k in m ==> InBucket(s[hasher(k) % |s|], k))
  }

  ghost predicate WellFormed<K, V>(hasher: K -> nat, s: seq<seq<(K, V)>>, m: map<K, V>) {
    Placed(hasher, s) && UniqueKeys(s) && Represents(hasher, s, m)
  }

  /** Number of entries over all buckets. */
  ghost function Total<K, V>(s: seq<seq<(K, V)>>): nat {
    if s == [] then 0 else Total(s[..|s| - 1]) + |s[|s| - 1]|
  }

  /** The non-empty (in the source: non-null) buckets. */
  ghost function FilledSet<K, V>(s: seq<seq<(K, V)>>): set<nat> {
    set a: nat | a < |s| && |s[a]| > 0
  }

  /** Number of non-empty buckets. */
  ghost function Filled<K, V>(s: seq<seq<(K, V)>>): nat {
    |FilledSet(s)|
  }

  function Occupied<K, V>(b: seq<(K, V)>): nat {
    if |b| == 0 then 0 else 1
  }

  lemma {:induction false} CountsOfEmpty<K, V>(s: seq<seq<(K, V)>>)
    requires forall i :: 0 <= i < |s| ==> |s[i]| == 0
    ensures Total(s) == 0 && Filled(s) == 0
  {
    assert FilledSet(s) == {};
    if s != [] {
      CountsOfEmpty(s[..|s| - 1]);
    }
  }

  /** Replacing one bucket changes the entry count by that bucket's difference only. */
  lemma {:induction false} TotalUpdate<K, V>(s: seq<seq<(K, V)>>, a: nat, b: seq<(K, V)>)
    requires a < |s|
    ensures Total(s[a := b]) == Total(s) - |s[a]| + |b|
    decreases |s|
  {
    var t := s[a := b];
    if a == |s| - 1 {
      assert t[..|t| - 1] == s[..|s| - 1];
    } else {
      assert t[..|t| - 1] == s[..|s| - 1][a := b];
      TotalUpdate(s[..|s| - 1], a, b);
    }
  }

  /** Replacing one bucket changes the filled-bucket count by that bucket's change only. */
  lemma FilledUpdate<K, V>(s: seq<seq<(K, V)>>, a: nat, b: seq<(K, V)>)
    requires a < |s|
    ensures Filled(s[a := b]) == Filled(s) - Occupied(s[a]) + Occupied(b)
  {
    var rest := FilledSet(s) - {a};
    assert FilledSet(s[a := b]) - {a} == rest;
    if |s[a]| > 0 {
      assert FilledSet(s) == rest + {a};
    } else {
      assert FilledSet(s) == rest;
    }
    if |b| > 0 {
      assert FilledSet(s[a := b]) == rest + {a};
    } else {
      assert FilledSet(s[a := b]) == rest;
    }
  }

  lemma CountsUpdate<K, V>(s: seq<seq<(K, V)>>, a: nat, b: seq<(K, V)>)
    requires a < |s|
    ensures Total(s[a := b]) == Total(s) - |s[a]| + |b|
    ensures Filled(s[a := b]) == Filled(s) - Occupied(s[a]) + Occupied(b)
  {
    TotalUpdate(s, a, b);
    FilledUpdate(s, a, b);
  }

  /** A table of `n` empty (null) buckets. */
  function EmptyTable<K, V>(n: nat): seq<seq<(K, V)>> {
    seq(n, _ => [])
  }

  /** Appends entry `e` to the bucket its hash selects. */
  function Insert<K, V>(hasher: K -> nat, s: seq<seq<(K, V)>>, e: (K, V)): (r: seq<seq<(K, V)>>)
    requires |s| > 0
    ensures |r| == |s|
  {
    var a := hasher(e.0) % |s|;
    s[a := s[a] + [e]]
  }

  /** Appends the entries `es`, in order, each to the bucket its hash selects. */
  function InsertAll<K, V>(hasher: K -> nat, s: seq<seq<(K, V)>>, es: seq<(K, V)>): (r: seq<seq<(K, V)>>)
    requires |s| > 0
    ensures |r| == |s|
    decreases |es|
  {
    if es == [] then s else Insert(hasher, InsertAll(hasher, s, es[..|es| - 1]), es[|es| - 1])
  }

  /** All entries of the table, bucket 0 first, each bucket in list order. */
  function Flatten<K, V>(t: seq<seq<(K, V)>>): seq<(K, V)> {
    if t == [] then [] else Flatten(t[..|t| - 1]) + t[|t| - 1]
  }

  /** The source's resize: every entry of `t`, visited bucket by bucket and in
      list order, appended to its bucket in a table of `n` empty buckets. */
  function Rehash<K, V>(hasher: K -> nat, t: seq<seq<(K, V)>>, n: nat): seq<seq<(K, V)>>
    requires n > 0
  {
    InsertAll(hasher, EmptyTable(n), Flatten(t))
  }

  /** Appending an entry with a new key to the bucket its hash selects keeps the
      table well formed and makes it represent the map extended by that entry. */
  lemma AppendEntry<K, V>(hasher: K -> nat, s: seq<seq<(K, V)>>, m: map<K, V>, e: (K, V))
    requires WellFormed(hasher, s, m) && e.0 !in m
    ensures WellFormed(hasher, Insert(hasher, s, e), m[e.0 := e.1])
  {
    var a := hasher(e.0) % |s|;
    var t := Insert(hasher, s, e);
    var m' := m[e.0 := e.1];
    forall k | k in m'
      ensures InBucket(t[hasher(k) % |t|], k)
    {
      if k == e.0 {
        assert t[a][|s[a]|].0 == k;
      } else {
        var b := hasher(k) % |s|;
        assert InBucket(s[b], k);
        var j :| 0 <= j < |s[b]| && s[b][j].0 == k;
        assert t[b][j].0 == k;
      }
    }
  }

  /** Overwriting the value of an entry in place keeps the table well formed,
      represents the updated map, and fills no bucket. */
  lemma OverwriteEntry<K, V>(hasher: K -> nat, s: seq<seq<(K, V)>>, m: map<K, V>, a: nat, p: nat, v: V)
    requires WellFormed(hasher, s, m) && a < |s| && p < |s[a]|
    ensures var k := s[a][p].0;
      var t := s[a := s[a][p := (k, v)]];
      && WellFormed(hasher, t, m[k := v])
      && Filled(t) == Filled(s)
  {
    var k := s[a][p].0;
    var t := s[a := s[a][p := (k, v)]];
    var m' := m[k := v];
    forall kk | kk in m'
      ensures InBucket(t[hasher(kk) % |t|], kk)
    {
      var b := hasher(kk) % |s|;
      assert InBucket(s[b], kk);
      var j :| 0 <= j < |s[b]| && s[b][j].0 == kk;
      assert t[b][j].0 == kk;
    }
    FilledUpdate(s, a, s[a][p := (k, v)]);
  }

  /** The part of map `m` already moved into the new table when the rehash has
      gone through buckets 0..i-1 of `t` and the first j entries of bucket i. */
  ghost function Rehashed<K, V>(hasher: K -> nat, t: seq<seq<(K, V)>>, m: map<K, V>, i: nat, j: nat): map<K, V>
    requires |t| > 0
  {
    map k | k in m && (hasher(k) % |t| < i || (hasher(k) % |t| == i < |t| && j <= |t[i]| && InBucket(t[i][..j], k))) :: m[k]
  }

  lemma RehashStart<K, V>(hasher: K -> nat, t: seq<seq<(K, V)>>, m: map<K, V>, s: seq<seq<(K, V)>>)
    requires |t| > 0 && |s| > 0 && forall a :: 0 <= a < |s| ==> |s[a]| == 0
    ensures Rehashed(hasher, t, m, 0, 0) == map[]
    ensures WellFormed(hasher, s, map[]) && Total(s) == 0 && Filled(s) == 0
  {
    CountsOfEmpty(s);
    assert Rehashed(hasher, t, m, 0, 0).Keys == {};
  }

  /** Moving entry j of bucket i adds exactly that entry, under a key not moved before. */
  lemma RehashedGains<K, V>(hasher: K -> nat, t: seq<seq<(K, V)>>, m: map<K, V>, i: nat, j: nat)
    requires WellFormed(hasher, t, m) && i < |t| && j < |t[i]|
    ensures t[i][j].0 !in Rehashed(hasher, t, m, i, j)
    ensures Rehashed(hasher, t, m, i, j + 1) == Rehashed(hasher, t, m, i, j)[t[i][j].0 := t[i][j].1]
  {
    var e := t[i][j];
    var before := Rehashed(hasher, t, m, i, j);
    var after := Rehashed(hasher, t, m, i, j + 1);
    assert e.0 in m && m[e.0] == e.1 && hasher(e.0) % |t| == i;
    assert e.0 !in before;
    assert t[i][..j + 1][j] == e;
    forall k | k != e.0
      ensures InBucket(t[i][..j + 1], k) <==> InBucket(t[i][..j], k)
    {
      if InBucket(t[i][..j + 1], k) {
        var p :| 0 <= p < j + 1 && t[i][..j + 1][p].0 == k;
        assert t[i][..j][p].0 == k;
      }
      if InBucket(t[i][..j], k) {
        var p :| 0 <= p < j && t[i][..j][p].0 == k;
        assert t[i][..j + 1][p].0 == k;
      }
    }
  }

  /** Moving entry j of bucket i: the new table gains exactly that entry. */
  lemma RehashStep<K, V>(hasher: K -> nat, t: seq<seq<(K, V)>>, m: map<K, V>, i: nat, j: nat, s: seq<seq<(K, V)>>)
    requires WellFormed(hasher, t, m) && i < |t| && j < |t[i]|
    requires WellFormed(hasher, s, Rehashed(hasher, t, m, i, j)) && Total(s) == |Rehashed(hasher, t, m, i, j)|
    ensures WellFormed(hasher, Insert(hasher, s, t[i][j]), Rehashed(hasher, t, m, i, j + 1))
    ensures Total(Insert(hasher, s, t[i][j])) == |Rehashed(hasher, t, m, i, j + 1)|
  {
    RehashedGains(hasher, t, m, i, j);
    AppendEntry(hasher, s, Rehashed(hasher, t, m, i, j), t[i][j]);
    var a := hasher(t[i][j].0) % |s|;
    TotalUpdate(s, a, s[a] + [t[i][j]]);
  }

  lemma RehashNextBucket<K, V>(hasher: K -> nat, t: seq<seq<(K, V)>>, m: map<K, V>, i: nat)
    requires WellFormed(hasher, t, m) && i < |t|
    ensures Rehashed(hasher, t, m, i, |t[i]|) == Rehashed(hasher, t, m, i + 1, 0)
  {
    assert t[i][..|t[i]|] == t[i];
    forall k | k in m && hasher(k) % |t| == i
      ensures InBucket(t[i], k)
    {
    }
  }

  lemma RehashDone<K, V>(hasher: K -> nat, t: seq<seq<(K, V)>>, m: map<K, V>)
    requires WellFormed(hasher, t, m)
    ensures Rehashed(hasher, t, m, |t|, 0) == m
  {
  }

  lemma {:induction false} InsertAllConcat<K, V>(hasher: K -> nat, s: seq<seq<(K, V)>>, a: seq<(K, V)>, b: seq<(K, V)>)
    requires |s| > 0
    ensures InsertAll(hasher, s, a + b) == InsertAll(hasher, InsertAll(hasher, s, a), b)
    decreases |b|
  {
    if b == [] {
      assert a + b == a;
    } else {
      assert (a + b)[..|a + b| - 1] == a + b[..|b| - 1];
      InsertAllConcat(hasher, s, a, b[..|b| - 1]);
    }
  }

  /** Inserting the first j entries of `b` is inserting the first j - 1, then entry j - 1. */
  lemma InsertAllSnoc<K, V>(hasher: K -> nat, s: seq<seq<(K, V)>>, b: seq<(K, V)>, j: nat)
    requires |s| > 0 && 0 < j <= |b|
    ensures InsertAll(hasher, s, b[..j]) == Insert(hasher, InsertAll(hasher, s, b[..j - 1]), b[j - 1])
  {
    assert b[..j][..j - 1] == b[..j - 1];
  }

  /** Moving the first j entries of bucket i. */
  lemma {:induction false} RehashBucketPrefix<K, V>(hasher: K -> nat, t: seq<seq<(K, V)>>, m: map<K, V>, i: nat, j: nat, s: seq<seq<(K, V)>>)
    requires WellFormed(hasher, t, m) && i < |t| && j <= |t[i]|
    requires WellFormed(hasher, s, Rehashed(hasher, t, m, i, 0)) && Total(s) == |Rehashed(hasher, t, m, i, 0)|
    ensures WellFormed(hasher, InsertAll(hasher, s, t[i][..j]), Rehashed(hasher, t, m, i, j))
    ensures Total(InsertAll(hasher, s, t[i][..j])) == |Rehashed(hasher, t, m, i, j)|
    decreases j
  {
    if j > 0 {
      RehashBucketPrefix(hasher, t, m, i, j - 1, s);
      InsertAllSnoc(hasher, s, t[i], j);
      RehashStep(hasher, t, m, i, j - 1, InsertAll(hasher, s, t[i][..j - 1]));
    } else {
      assert t[i][..0] == [];
    }
  }

  /** Moving every entry of buckets 0..i-1 into an empty table. */
  lemma {:induction false} RehashPrefix<K, V>(hasher: K -> nat, t: seq<seq<(K, V)>>, m: map<K, V>, i: nat, n: nat)
    requires WellFormed(hasher, t, m) && i <= |t| && n > 0
    ensures var r := InsertAll(hasher, EmptyTable(n), Flatten(t[..i]));
      WellFormed(hasher, r, Rehashed(hasher, t, m, i, 0)) && Total(r) == |Rehashed(hasher, t, m, i, 0)|
    decreases i
  {
    var e: seq<seq<(K, V)>> := EmptyTable(n);
    if i == 0 {
      assert t[..0] == [];
      RehashStart(hasher, t, m, e);
    } else {
      RehashPrefix(hasher, t, m, i - 1, n);
      assert t[..i][..i - 1] == t[..i - 1];
      InsertAllConcat(hasher, e, Flatten(t[..i - 1]), t[i - 1]);
      RehashBucketPrefix(hasher, t, m, i - 1, |t[i - 1]|, InsertAll(hasher, e, Flatten(t[..i - 1])));
      assert t[i - 1][..|t[i - 1]|] == t[i - 1];
      RehashNextBucket(hasher, t, m, i - 1);
    }
  }

  /** The resize keeps the map: the rehashed table is well formed, represents
      the same map, and holds as many entries as there are keys. */
  lemma RehashKeepsContents<K, V>(hasher: K -> nat, t: seq<seq<(K, V)>>, m: map<K, V>, n: nat)
    requires WellFormed(hasher, t, m) && n > 0
    ensures WellFormed(hasher, Rehash(hasher, t, n), m) && Total(Rehash(hasher, t, n)) == |m|
  {
    RehashPrefix(hasher, t, m, |t|, n);
    assert t[..|t|] == t;
    RehashDone(hasher, t, m);
  }

  /** The inner loop of the resize: appends every entry of one old bucket to the
      bucket of `newhash` its hash selects, counting the entries moved and the
      buckets that stop being empty. */
  method RehashBucket<K(!new), V(!new)>(hasher: K -> nat, newhash: array<seq<(K, V)>>, bucket: seq<(K, V)>)
    returns (added: nat, filled: nat)
    requires newhash.Length > 0
    modifies newhash
    ensures newhash[..] == InsertAll(hasher, old(newhash[..]), bucket)
    ensures Total(newhash[..]) == old(Total(newhash[..])) + added
    ensures Filled(newhash[..]) == old(Filled(newhash[..])) + filled
  {
    added, filled := 0, 0;
    var j := 0;
    while j < |bucket|
      invariant 0 <= j <= |bucket|
      invariant newhash[..] == InsertAll(hasher, old(newhash[..]), bucket[..j])
      invariant Total(newhash[..]) == old(Total(newhash[..])) + added
      invariant Filled(newhash[..]) == old(Filled(newhash[..])) + filled
    {
      var e := bucket[j];
      var newIndex := hasher(e.0) % newhash.Length;
      ghost var s0 := newhash[..];
      CountsUpdate(s0, newIndex, s0[newIndex] + [e]);
      if |newhash[newIndex]| == 0 {
        filled := filled + 1;
      }
      newhash[newIndex] := newhash[newIndex] + [e];
      assert newhash[..] == s0[newIndex := s0[newIndex] + [e]];
      assert bucket[..j + 1][..j] == bucket[..j];
      added := added + 1;
      j := j + 1;
    }
    assert bucket[..j] == bucket;
  }

  /** The nested loop of the resize: a fresh table of `n` buckets receives every
      entry of `src`, bucket by bucket; the counters are recounted as it fills. */
  method RehashTable<K(!new), V(!new)>(hasher: K -> nat, src: array<seq<(K, V)>>, n: nat, ghost m: map<K, V>)
    returns (newhash: array<seq<(K, V)>>, associations: nat, filledBuckets: nat)
    requires n > 0 && WellFormed(hasher, src[..], m)
    ensures fresh(newhash) && newhash.Length == n
    ensures WellFormed(hasher, newhash[..], m)
    ensures associations == Total(newhash[..]) == |m| && filledBuckets == Filled(newhash[..])
  {
    filledBuckets := 0;
    associations := 0;
    newhash := new seq<(K, V)>[n](_ => []);
    ghost var T := src[..];
    ghost var E: seq<seq<(K, V)>> := EmptyTable(n);
    assert newhash[..] == E;
    CountsOfEmpty(E);
    assert T[..0] == [];
    var i := 0;
    while i < src.Length
      invariant 0 <= i <= src.Length
      invariant newhash[..] == InsertAll(hasher, E, Flatten(T[..i]))
      invariant associations == Total(newhash[..]) && filledBuckets == Filled(newhash[..])
    {
      ghost var before := Flatten(T[..i]);
      var added, filled := RehashBucket(hasher, newhash, src[i]);
      assert T[..i + 1][..i] == T[..i];
      InsertAllConcat(hasher, E, before, T[i]);
      associations := associations + added;
      filledBuckets := filledBuckets + filled;
      i := i + 1;
    }
    assert T[..i] == T;
    RehashKeepsContents(hasher, T, m, n);
  }

  /** The bucket with the entry under `key`, if any, given the value `value`. */
  function Replace<K(==), V>(b: seq<(K, V)>, key: K, value: V): (r: seq<(K, V)>)
    ensures |r| == |b|
  {
    seq(|b|, j requires 0 <= j < |b| => if b[j].0 == key then (key, value) else b[j])
  }

  /** Since keys are unique, overwriting the entry found at `pos` is replacing
      the key's value throughout its bucket. */
  lemma ReplaceAt<K, V>(s: seq<seq<(K, V)>>, a: nat, p: nat, v: V)
    requires UniqueKeys(s) && a < |s| && p < |s[a]|
    ensures s[a][p := (s[a][p].0, v)] == Replace(s[a], s[a][p].0, v)
  {
    var k := s[a][p].0;
    forall j | 0 <= j < |s[a]| && j != p
      ensures s[a][j].0 != k
    {
      if j < p {
        assert s[a][j].0 != s[a][p].0;
      } else {
        assert s[a][p].0 != s[a][j].0;
      }
    }
  }

  /** With at most one doubling per insertion, the load stays within the maximum
      as long as sixteen buckets' worth of load factor covers a whole entry:
      while the bound allows no entry at all the table is empty, and the one
      doubling of the first insertion makes room for it. */
  lemma LoadAfterInsert(size: nat, slots: nat, f: real, newSlots: nat)
    requires slots >= InitialSlots && 0.0 < f
    requires newSlots == if (size + 1) as real / slots as real > f then 2 * slots else slots
    ensures 16.0 * f >= 1.0 && size as real <= f * slots as real ==> (size + 1) as real <= f * newSlots as real
  {
    if 16.0 * f >= 1.0 && size as real <= f * slots as real {
      var n := slots as real;
      if (size + 1) as real / n > f {
        assert f * n >= f * 8.0 by {
          assert f * (n - 8.0) >= 0.0;
        }
        assert f * (2 * slots) as real == f * n + f * n;
        if size == 0 {
          assert f * n + f * n >= 16.0 * f;
        } else {
          assert f * n >= 1.0;
        }
      } else {
        assert (size + 1) as real == ((size + 1) as real / n) * n;
        assert ((size + 1) as real / n) * n <= f * n;
      }
    }
  }

  /** Below one sixteenth the bound fails on the very first insertion: a fresh
      table of 8 buckets is doubled once, and one entry in 16 buckets is still a
      load above the bound. */
  lemma LoadCanExceedSmallFactor(f: real)
    requires 0.0 < f < 1.0 / 16.0
    ensures var newSlots := if (0 + 1) as real / InitialSlots as real > f then 2 * InitialSlots else InitialSlots;
      && newSlots == 16
      && (0 + 1) as real > f * newSlots as real
  {
  }

  /** `size` entries in `slots` buckets are a load of at most `f`. */
  ghost predicate LoadWithin(size: nat, slots: nat, f: real) {
    size as real <= f * slots as real
  }

  /** The table `s` of `n` buckets holds exactly the map `m`, and the two
      counters agree with it: `a` entries, `f` non-empty buckets. */
  ghost predicate Counted<K, V>(hasher: K -> nat, n: nat, s: seq<seq<(K, V)>>, m: map<K, V>, a: nat, f: nat) {
    && n >= InitialSlots
    && WellFormed(hasher, s, m)
    && a == |m|
    && f == Filled(s)
  }

  class ExpandableHashMap<K(==, !new), V(!new)> {
    const hasher: K -> nat
    const maxLoadFactor: real
    var nSlots: nat
    var table: array<seq<(K, V)>>
    var filledBuckets: nat
    var associations: nat

    ghost var Contents: map<K, V>
    ghost var Repr: set<object>

    ghost predicate Valid()
      reads this, Repr
      ensures Valid() ==> this in Repr
    {
      && Repr == {this, table}
      && 0.0 < maxLoadFactor <= 1.0
      && nSlots == table.Length
      && Counted(hasher, nSlots, table[..], Contents, associations, filledBuckets)
    }

    /** The load (associations per bucket) is within the maximum load factor. */
    ghost predicate WithinLoad()
      reads this
    {
      LoadWithin(associations, nSlots, maxLoadFactor)
    }

    constructor (hasher: K -> nat, maximumLoadFactor: real)
      ensures Valid() && fresh(Repr)
      ensures this.hasher == hasher
      ensures maxLoadFactor == if 0.0 < maximumLoadFactor <= 1.0 then maximumLoadFactor else DefaultMaxLoadFactor
      ensures nSlots == InitialSlots && Contents == map[]
      ensures associations == 0 && filledBuckets == 0 && WithinLoad()
    {
      this.hasher := hasher;
      if 0.0 < maximumLoadFactor <= 1.0 {
        maxLoadFactor := maximumLoadFactor;
      } else {
        maxLoadFactor := DefaultMaxLoadFactor;
      }
      nSlots := InitialSlots;
      table := new seq<(K, V)>[InitialSlots](_ => []);
      filledBuckets := 0;
      associations := 0;
      Contents := map[];
      new;
      Repr := {this, table};
      CountsOfEmpty(table[..]);
    }

    /** Empties the map and goes back to 8 buckets; the maximum load factor is kept. */
    method Reset()
      requires Valid()
      modifies Repr
      ensures Valid() && fresh(Repr - old(Repr))
      ensures Contents == map[] && nSlots == InitialSlots
      ensures associations == 0 && filledBuckets == 0 && WithinLoad()
    {
      nSlots := InitialSlots;
      table := new seq<(K, V)>[InitialSlots](_ => []);
      filledBuckets := 0;
      associations := 0;
      Contents := map[];
      Repr := {this, table};
      CountsOfEmpty(table[..]);
    }

    method Size() returns (n: nat)
      requires Valid()
      ensures n == |Contents|
    {
      n := associations;
    }

    /** The lookup the source's `find` performs: the bucket the key hashes to and
        the position of the key in it, or -1 (where `find` returns null) when absent. */
    method Lookup(key: K) returns (index: nat, pos: int)
      requires Valid()
      ensures index == hasher(key) % nSlots && index < table.Length
      ensures -1 <= pos < |table[index]|
      ensures pos == -1 <==> key !in Contents
      ensures 0 <= pos ==> table[index][pos].0 == key && key in Contents && Contents[key] == table[index][pos].1
    {
      index := hasher(key) % nSlots;
      var bucket := table[index];
      pos := 0;
      while pos < |bucket|
        invariant 0 <= pos <= |bucket|
        invariant forall t :: 0 <= t < pos ==> bucket[t].0 != key
      {
        if bucket[pos].0 == key {
          return;
        }
        pos := pos + 1;
      }
      pos := -1;
    }

    /** The value stored under `key`, or None when there is none. */
    method Find(key: K) returns (r: Option<V>)
      requires Valid()
      ensures r == if key in Contents then Some(Contents[key]) else None
    {
      var index, pos := Lookup(key);
      if pos < 0 {
        r := None;
      } else {
        r := Some(table[index][pos].1);
      }
    }

    /** The doubling step of `associate`: a fresh table with twice the buckets,
        every entry rehashed into it, the counters recounted. */
    method Grow()
      requires Valid()
      modifies this
      ensures Valid() && fresh(table) && Repr == {this, table}
      ensures Contents == old(Contents) && nSlots == 2 * old(nSlots)
      ensures associations == old(associations)
    {
      var newhash, moved, filled := RehashTable(hasher, table, nSlots * 2, Contents);
      ghost var s := newhash[..];
      assert Counted(hasher, nSlots * 2, s, Contents, moved, filled);
      table, nSlots, associations, filledBuckets, Repr := newhash, nSlots * 2, moved, filled, {this, newhash};
      assert table[..] == s;
    }

    /** The overwrite case of `associate`: the entry at position `pos` of bucket
        `index` gets the new value; no count changes. */
    method OverwriteAt(index: nat, pos: nat, value: V)
      requires Valid() && index < table.Length && pos < |table[index]|
      modifies this, table
      ensures Valid() && Repr == old(Repr) && table == old(table)
      ensures var key := old(table[index][pos].0);
        && Contents == old(Contents)[key := value]
        && table[..] == old(table[..])[index := Replace(old(table[index]), key, value)]
      ensures nSlots == old(nSlots) && associations == old(associations) && filledBuckets == old(filledBuckets)
    {
      ghost var s := table[..];
      var key := table[index][pos].0;
      OverwriteEntry(hasher, s, Contents, index, pos, value);
      ReplaceAt(s, index, pos, value);
      table[index] := table[index][pos := (key, value)];
      Contents := Contents[key := value];
      assert table[..] == s[index := s[index][pos := (key, value)]];
    }

    /** The resize decision of `associate` for a new key: doubles the table when
        one more entry would push the load past the maximum (LoadAfterInsert says
        what this buys). */
    method GrowIfNeeded()
      requires Valid()
      modifies Repr
      ensures Valid() && fresh(Repr - old(Repr))
      ensures Contents == old(Contents) && associations == old(associations)
      ensures nSlots == if (old(associations) + 1) as real / old(nSlots) as real > maxLoadFactor
                        then 2 * old(nSlots) else old(nSlots)
      ensures 16.0 * maxLoadFactor >= 1.0 && old(WithinLoad()) ==> LoadWithin(associations + 1, nSlots, maxLoadFactor)
    {
      LoadAfterInsert(associations, nSlots, maxLoadFactor, if (associations + 1) as real / nSlots as real > maxLoadFactor
                                                           then 2 * nSlots else nSlots);
      var loadFactorAfterInsertion := (associations + 1) as real / nSlots as real;
      if loadFactorAfterInsertion > maxLoadFactor {
        Grow();
      }
    }

    /** The final step of `associate` for a new key: the entry is appended to the
        bucket its hash selects, and the counters follow. */
    method AppendNew(key: K, value: V)
      requires Valid() && key !in Contents
      modifies this, table
      ensures Valid() && Repr == old(Repr) && table == old(table) && nSlots == old(nSlots)
      ensures Contents == old(Contents)[key := value] && associations == old(associations) + 1
      ensures var a := hasher(key) % old(nSlots);
        table[..] == old(table[..])[a := old(table[..])[a] + [(key, value)]]
    {
      var index := hasher(key) % nSlots;
      ghost var s := table[..];
      AppendEntry(hasher, s, Contents, (key, value));
      FilledUpdate(s, index, s[index] + [(key, value)]);
      if |table[index]| == 0 {
        filledBuckets := filledBuckets + 1;
      }
      table[index] := table[index] + [(key, value)];
      assert table[..] == s[index := s[index] + [(key, value)]];
      associations := associations + 1;
      Contents := Contents[key := value];
    }

    /** Stores `value` under `key`: an existing key's value is overwritten in
        place and nothing else changes; a new key first doubles the table if
        (size + 1) / nSlots would exceed the maximum load factor, then is
        appended to its bucket. */
    method Associate(key: K, value: V)
      requires Valid()
      modifies Repr
      ensures Valid() && fresh(Repr - old(Repr))
      ensures Contents == old(Contents)[key := value]
      ensures if key in old(Contents) then
          && table == old(table) && nSlots == old(nSlots)
          && associations == old(associations) && filledBuckets == old(filledBuckets)
          && var a := hasher(key) % old(nSlots);
             table[..] == old(table[..])[a := Replace(old(table[..])[a], key, value)]
        else
          && associations == old(associations) + 1
          && nSlots == if (old(associations) + 1) as real / old(nSlots) as real > maxLoadFactor
                       then 2 * old(nSlots) else old(nSlots)
      ensures 16.0 * maxLoadFactor >= 1.0 && old(WithinLoad()) ==> WithinLoad()
    {
      var index, pos := Lookup(key);
      if pos >= 0 {
        OverwriteAt(index, pos, value);
        return;
      }
      GrowIfNeeded();
      AppendNew(key, value);
    }
  }
}
