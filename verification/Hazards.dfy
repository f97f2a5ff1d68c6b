/**
 When an insertion loses an entry, in terms of the keys alone: how many of them have their home at or past each
 bucket. From this follows which rehashes get stuck, from the old table and the new capacity.
 */
module Hazards {
  import opened Base
  import opened RobinHood
  import opened RobinHoodPut
  import opened Rebuild

  // ---------- Counting homes ----------

  /** The number of keys whose home is bucket `j` or later. */
  ghost function Above(n: nat, keys: set<Word>, j: nat): nat
    requires n > 0
  {
    |set k | k in keys && Home(n, k) >= j|
  }

  /** The greatest excess of keys over the buckets from some `j` up to the end. */
  ghost function Excess(n: nat, keys: set<Word>, j: nat): nat
    requires n > 0 && j <= n
    decreases n - j
  {
    if j == n then 0
    else
      var rest := Excess(n, keys, j + 1);
      if Above(n, keys, j) > n - j + rest then Above(n, keys, j) - (n - j) else rest
  }

  /** So many keys do not fit between their home and the end of the table. */
  ghost function Wrapping(n: nat, keys: set<Word>): nat
    requires n > 0
  {
    Excess(n, keys, 0)
  }

  /** No bucket is left from `home` to the end: from some `j` up to `home` on, the buckets are just used up. */
  ghost predicate TailUsed(n: nat, keys: set<Word>, home: nat)
    requires n > 0
  {
    exists j: nat :: j <= home && Above(n, keys, j) == n - j + Wrapping(n, keys)
  }

  ghost predicate LowHome(n: nat, keys: set<Word>)
    requires n > 0
  {
    exists k: Word :: k in keys && Home(n, k) <= Wrapping(n, keys)
  }

  /** The hazard state for a new key with this home, in terms of the keys in the table. */
  ghost predicate KeyHazard(n: nat, keys: set<Word>, home: nat)
    requires n > 0
  {
    TailUsed(n, keys, home) && LowHome(n, keys)
  }

  lemma {:induction false} ExcessBounds(n: nat, keys: set<Word>, j: nat, i: nat)
    requires n > 0 && j <= i < n
    ensures Above(n, keys, i) <= n - i + Excess(n, keys, j)
    decreases n - j
  {
    if j < i {
      ExcessBounds(n, keys, j + 1, i);
    }
  }

  lemma {:induction false} ExcessReached(n: nat, keys: set<Word>, j: nat)
    requires n > 0 && j <= n
    ensures Excess(n, keys, j) == 0
         || exists i: nat :: j <= i < n && Above(n, keys, i) == n - i + Excess(n, keys, j)
    decreases n - j
  {
    if j < n {
      ExcessReached(n, keys, j + 1);
    }
  }

  // ---------- Buckets and keys ----------

  ghost predicate Taken(t: seq<Entry>, b: nat) {
    b < |t| && !Empty(t[b])
  }

  /** The taken buckets whose entries have their home at bucket `j` or later. */
  ghost function From(t: seq<Entry>, j: nat): set<nat> {
    set b: nat | b < |t| && Taken(t, b) && Home(|t|, t[b].key) >= j
  }

  /** The taken buckets whose entries have wrapped round. */
  ghost function Wrapped(t: seq<Entry>): set<nat> {
    set b: nat | b < |t| && Taken(t, b) && Home(|t|, t[b].key) > b
  }

  lemma {:induction false} ImageCount(t: seq<Entry>, bs: set<nat>)
    requires Unique(t) && forall b: nat :: b in bs ==> Taken(t, b)
    ensures |set b: nat | b in bs && b < |t| :: t[b].key| == |bs|
    decreases |bs|
  {
    if bs != {} {
      var c :| c in bs;
      var rest := bs - {c};
      ImageCount(t, rest);
      var all, part := set b: nat | b in bs && b < |t| :: t[b].key, set b: nat | b in rest && b < |t| :: t[b].key;
      forall b: nat | b in rest ensures t[b].key != t[c].key {
        assert Holds(t, t[c].key, c) && Holds(t, t[b].key, b);
      }
      assert all == part + {t[c].key};
    }
  }

  /** Keys and buckets can be counted for one another. */
  lemma AboveCounts(t: seq<Entry>, j: nat)
    requires |t| > 0 && Unique(t)
    ensures Above(|t|, Keys(t), j) == |From(t, j)|
  {
    var bs := From(t, j);
    ImageCount(t, bs);
    assert (set k | k in Keys(t) && Home(|t|, k) >= j) == (set b: nat | b in bs && b < |t| :: t[b].key);
  }

  // ---------- Wrapped entries ----------

  /** The path of a wrapped entry leads over the end: the tail from its home and the start up to it are taken. */
  lemma WrappedPath(t: seq<Entry>, b: nat, c: nat)
    requires Ordered(t) && b in Wrapped(t) && c < |t| && (c >= Home(|t|, t[b].key) || c <= b)
    ensures Taken(t, c)
  {
    var n, h := |t|, Home(|t|, t[b].key);
    assert D(t, b) == b + n - h;
    OnPath(t, t[b].key, b, if c >= h then c else c + n);
  }

  lemma UnwrappedPath(t: seq<Entry>, b: nat, c: nat)
    requires Ordered(t) && Taken(t, b) && b !in Wrapped(t) && Home(|t|, t[b].key) <= c <= b
    ensures Taken(t, c)
  {
    assert D(t, b) == b - Home(|t|, t[b].key);
    OnPath(t, t[b].key, b, c);
  }

  /** Before a wrapped entry come only wrapped entries. */
  lemma {:induction false} WrappedPrefix(t: seq<Entry>, b: nat, c: nat)
    requires Ordered(t) && b in Wrapped(t) && c <= b
    ensures c in Wrapped(t)
    decreases b - c
  {
    if c < b {
      WrappedPrefix(t, b, c + 1);
      assert Settled(t, c + 1);
      WrappedPath(t, b, c);
    }
  }

  /** The wrapped entries fill exactly the first buckets. */
  lemma {:induction false} WrappedAre(t: seq<Entry>, m: nat)
    requires Ordered(t) && m <= |t| && Below(m) <= Wrapped(t)
    ensures Wrapped(t) == Below(|Wrapped(t)|) && |Wrapped(t)| <= |t|
    decreases |t| - m
  {
    BelowCount(m);
    if m in Wrapped(t) {
      WrappedAre(t, m + 1);
    } else {
      forall b | b in Wrapped(t) ensures b in Below(m) {
        if b >= m {
          WrappedPrefix(t, b, m);
        }
      }
      assert Wrapped(t) == Below(m);
    }
  }

  /** The last empty bucket. */
  lemma {:induction false} LastEmpty(t: seq<Entry>, i: nat) returns (z: nat)
    requires HasEmpty(t) && i <= |t| && forall b: nat :: i <= b < |t| ==> Taken(t, b)
    ensures z < i && Empty(t[z]) && forall b: nat :: z < b < |t| ==> Taken(t, b)
  {
    if i > 0 && Taken(t, i - 1) {
      z := LastEmpty(t, i - 1);
    } else {
      var e: nat :| e < |t| && Empty(t[e]);
      assert !Taken(t, e);
      z := i - 1;
    }
  }

  /** Entries at home from `j` on are in the tail from `j`, or wrapped. */
  lemma FromBound(t: seq<Entry>, j: nat)
    requires |t| > 0 && j <= |t|
    ensures From(t, j) <= (Below(|t|) - Below(j)) + Wrapped(t)
    ensures |From(t, j)| <= |t| - j + |Wrapped(t)|
  {
    var tail := Below(|t|) - Below(j);
    TailCount(j, |t|);
    forall b | b in From(t, j) ensures b in tail + Wrapped(t) {
      BelowCount(|t|);
      BelowCount(j);
    }
    SubsetCount(From(t, j), tail + Wrapped(t));
    assert |tail + Wrapped(t)| <= |tail| + |Wrapped(t)|;
  }

  lemma WrappedBeyond(t: seq<Entry>, b: nat, z: nat)
    requires Ordered(t) && z < |t| && Empty(t[z]) && (forall c: nat :: z < c < |t| ==> Taken(t, c)) && b in Wrapped(t)
    ensures b < z && b in From(t, z + 1)
  {
    if Home(|t|, t[b].key) <= z || z <= b {
      WrappedPath(t, b, z);
    }
  }

  lemma TailBeyond(t: seq<Entry>, b: nat, z: nat)
    requires Ordered(t) && z < b < |t| && Empty(t[z]) && forall c: nat :: z < c < |t| ==> Taken(t, c)
    ensures b in From(t, z + 1) && b !in Wrapped(t)
  {
    if b in Wrapped(t) {
      WrappedBeyond(t, b, z);
    }
    if Home(|t|, t[b].key) <= z {
      UnwrappedPath(t, b, z);
    }
  }

  /** From after the last empty bucket on, the entries are those of the tail and the wrapped ones. */
  lemma TailIsFrom(t: seq<Entry>, z: nat, tail: set<nat>)
    requires Ordered(t) && z < |t| && Empty(t[z]) && forall b: nat :: z < b < |t| ==> Taken(t, b)
    requires tail == Below(|t|) - Below(z + 1)
    ensures |From(t, z + 1)| == |tail| + |Wrapped(t)|
  {
    BelowCount(|t|);
    BelowCount(z + 1);
    forall b | b in Wrapped(t) ensures b in From(t, z + 1) {
      WrappedBeyond(t, b, z);
    }
    forall b | b in tail ensures b in From(t, z + 1) && b !in Wrapped(t) {
      TailBeyond(t, b, z);
    }
    FromBound(t, z + 1);
    TwoParts(From(t, z + 1), tail, Wrapped(t));
  }

  lemma TwoParts(c: set<nat>, a: set<nat>, b: set<nat>)
    requires c <= a + b && a + b <= c && a !! b
    ensures |c| == |a| + |b|
  {
    assert c == a + b;
  }

  /** After the last empty bucket the bound is reached. */
  lemma FromLastEmpty(t: seq<Entry>, z: nat)
    requires Ordered(t) && z < |t| && Empty(t[z]) && forall b: nat :: z < b < |t| ==> Taken(t, b)
    ensures |From(t, z + 1)| == |t| - (z + 1) + |Wrapped(t)|
  {
    TailCount(z + 1, |t|);
    TailIsFrom(t, z, Below(|t|) - Below(z + 1));
  }

  /** The number of wrapped entries is the excess of the keys, whatever the order of insertion was. */
  lemma WrappingIsWrapped(t: seq<Entry>)
    requires WellFormed(t) && HasEmpty(t)
    ensures |t| > 0 && Wrapping(|t|, Keys(t)) == |Wrapped(t)|
  {
    var n, keys := |t|, Keys(t);
    var z := LastEmpty(t, n);
    FromLastEmpty(t, z);
    AboveCounts(t, z + 1);
    if z + 1 < n {
      ExcessBounds(n, keys, 0, z + 1);
    } else {
      assert From(t, n) == {};
    }
    ExcessReached(n, keys, 0);
    if Excess(n, keys, 0) > 0 {
      var i: nat :| i < n && Above(n, keys, i) == n - i + Excess(n, keys, 0);
      AboveCounts(t, i);
      FromBound(t, i);
    }
  }

  // ---------- The hazard state ----------

  lemma TailUsedMeans(t: seq<Entry>, home: nat)
    requires WellFormed(t) && HasEmpty(t) && home < |t|
    ensures TailUsed(|t|, Keys(t), home) <==> forall b: nat :: home <= b < |t| ==> !Empty(t[b])
  {
    var n, keys := |t|, Keys(t);
    WrappingIsWrapped(t);
    if forall b: nat :: home <= b < n ==> !Empty(t[b]) {
      var z := LastEmpty(t, home);
      FromLastEmpty(t, z);
      AboveCounts(t, z + 1);
      assert z + 1 <= home && Above(n, keys, z + 1) == n - (z + 1) + Wrapping(n, keys);
    }
    if TailUsed(n, keys, home) {
      var j: nat :| j <= home && Above(n, keys, j) == n - j + Wrapping(n, keys);
      AboveCounts(t, j);
      FromBound(t, j);
      TailCount(j, n);
      FullUnion(From(t, j), Below(n) - Below(j), Wrapped(t));
      forall b: nat | home <= b < n ensures !Empty(t[b]) {
        BelowCount(n);
        BelowCount(j);
        assert b in From(t, j);
      }
    }
  }

  lemma FullUnion(a: set<nat>, x: set<nat>, y: set<nat>)
    requires a <= x + y && |a| == |x| + |y|
    ensures a == x + y
  {
    assert |x + y| <= |x| + |y|;
    if a != x + y {
      var e :| e in x + y && e !in a;
      SubsetCount(a, x + y - {e});
    }
  }

  /** The start of the table is taken up to an entry that is not wrapped, if and only if a key has a low home. */
  lemma LowHomeMeans(t: seq<Entry>)
    requires WellFormed(t) && HasEmpty(t)
    ensures |t| > 0
    ensures LowHome(|t|, Keys(t)) <==> exists b: nat :: TakenUpTo(t, b) && Home(|t|, t[b].key) <= b
  {
    var n, w := |t|, |Wrapped(t)|;
    WrappingIsWrapped(t);
    BelowCount(0);
    WrappedAre(t, 0);
    BelowCount(w);
    if b: nat :| TakenUpTo(t, b) && Home(n, t[b].key) <= b {
      assert b !in Wrapped(t);
      assert w !in Wrapped(t) && w <= b && Taken(t, w);
      assert t[w].key in Keys(t) && Home(n, t[w].key) <= w;
    }
    if LowHome(n, Keys(t)) {
      var k: Word :| k in Keys(t) && Home(n, k) <= w;
      var c: nat :| c < n && !Empty(t[c]) && t[c].key == k;
      LowRun(t, c, w);
    }
  }

  /** An entry with a low home is not wrapped, or no bucket would be empty. */
  lemma LowIsUnwrapped(t: seq<Entry>, c: nat)
    requires Ordered(t) && HasEmpty(t) && Taken(t, c) && Home(|t|, t[c].key) <= |Wrapped(t)|
    requires Wrapped(t) == Below(|Wrapped(t)|)
    ensures c !in Wrapped(t)
  {
    var e: nat :| e < |t| && Empty(t[e]);
    BelowCount(|Wrapped(t)|);
    assert e !in Wrapped(t);
    if c in Wrapped(t) {
      WrappedPath(t, c, e);
    }
  }

  lemma LowRun(t: seq<Entry>, c: nat, w: nat)
    requires Ordered(t) && HasEmpty(t) && Taken(t, c) && w == |Wrapped(t)| && Home(|t|, t[c].key) <= w
    requires Wrapped(t) == Below(w)
    ensures TakenUpTo(t, w) && Home(|t|, t[w].key) <= w
  {
    LowIsUnwrapped(t, c);
    BelowCount(w);
    UnwrappedPath(t, c, w);
    forall b: nat | b < w ensures !Empty(t[b]) {
      assert b in Wrapped(t);
    }
    assert w !in Wrapped(t);
  }

  /** The hazard state depends on the keys alone. */
  lemma HazardByKeys(t: seq<Entry>, home: nat)
    requires WellFormed(t) && HasEmpty(t) && home < |t|
    ensures Hazard(t, home) <==> KeyHazard(|t|, Contents(t).Keys, home)
  {
    assert Contents(t).Keys == Keys(t);
    TailUsedMeans(t, home);
    LowHomeMeans(t);
  }

  /** The exact outcome of an insertion, read off the keys: it loses an entry if and only if they make the hazard. */
  lemma PutByKeys(t: seq<Entry>, key: Word, slot: Word)
    requires |t| > 0 && slot != 0 && WellFormed(t) && HasEmpty(t)
    ensures Put(t, key, slot).Full? <==>
      key !in Contents(t) && KeyHazard(|t|, Contents(t).Keys, Home(|t|, key))
  {
    PutExact(t, key, slot);
    HazardByKeys(t, Home(|t|, key));
  }

  // ---------- Rehashes that get stuck ----------

  /** The keys of the first `i` entries. */
  ghost function KeysUpTo(es: seq<Entry>, i: nat): set<Word> {
    set j: nat | j < i && j < |es| :: es[j].key
  }

  ghost predicate StuckAt(n: nat, es: seq<Entry>, i: nat)
    requires n > 0 && i < |es|
  {
    KeyHazard(n, KeysUpTo(es, i), Home(n, es[i].key))
  }

  /** Some entry finds the keys before it in the hazard state for its home. */
  ghost predicate Stuck(n: nat, es: seq<Entry>)
    requires n > 0
  {
    exists i: nat :: i < |es| && StuckAt(n, es, i)
  }

  /** A rehash of table `t` to capacity `n` gets stuck: a condition on the keys of `t` in bucket order. */
  ghost predicate Sticks(t: seq<Entry>, n: nat)
    requires n > 0
  {
    Stuck(n, Compact(t))
  }

  /** A rehash to capacity `n` loses keys: they get stuck, or they are more than the buckets. */
  ghost predicate Loses(t: seq<Entry>, n: nat)
    requires n > 0
  {
    Occupied(t) > n || Sticks(t, n)
  }

  lemma StuckByPrefix(n: nat, es: seq<Entry>)
    requires n > 0 && es != []
    ensures Stuck(n, es) <==> Stuck(n, es[..|es| - 1]) || StuckAt(n, es, |es| - 1)
  {
    var u := es[..|es| - 1];
    forall i: nat | i < |u| ensures StuckAt(n, es, i) <==> StuckAt(n, u, i) {
      assert KeysUpTo(es, i) == KeysUpTo(u, i);
    }
    if Stuck(n, u) {
      var i: nat :| i < |u| && StuckAt(n, u, i);
      assert StuckAt(n, es, i);
    }
  }

  lemma MapOfKeySet(es: seq<Entry>)
    ensures MapOf(es).Keys == KeysUpTo(es, |es|)
  {
    forall k: Word ensures k in MapOf(es).Keys <==> k in KeysUpTo(es, |es|) {
      MapOfKeys(es, k);
    }
  }

  lemma NextEntry(t: seq<Entry>, u: seq<Entry>, e: Entry)
    requires WellFormed(t) && |t| > |u| && DistinctKeys(u) && Contents(t) == MapOf(u)
    requires !Empty(e) && e.key !in MapOf(u)
    ensures Put(t, e.key, e.slot).Full? <==> KeyHazard(|t|, KeysUpTo(u, |u|), Home(|t|, e.key))
  {
    MapOfCount(u);
    ContentsCount(t);
    NoEmptyCount(t);
    PutByKeys(t, e.key, e.slot);
    MapOfKeySet(u);
  }

  /** How many of the entries reinsertion places: it ends at the first that gets stuck, and at a full table. */
  ghost function Placed(n: nat, es: seq<Entry>): (p: nat)
    requires n > 0
    ensures p <= |es| && p <= n
  {
    if es == [] then 0
    else
      var u := es[..|es| - 1];
      if Placed(n, u) == |u| < n && !StuckAt(n, es, |u|) then |es| else Placed(n, u)
  }

  /** All of them, if and only if they are no more than the buckets and none gets stuck; else those before the first. */
  lemma {:induction false} PlacedMeans(n: nat, es: seq<Entry>)
    requires n > 0
    ensures Placed(n, es) == |es| <==> |es| <= n && !Stuck(n, es)
    ensures Placed(n, es) < |es| && Placed(n, es) < n ==> StuckAt(n, es, Placed(n, es))
    ensures forall i: nat :: i < Placed(n, es) ==> !StuckAt(n, es, i)
  {
    if es != [] {
      var u := es[..|es| - 1];
      PlacedMeans(n, u);
      StuckByPrefix(n, es);
      forall i: nat | i < |u| ensures StuckAt(n, es, i) <==> StuckAt(n, u, i) {
        assert KeysUpTo(es, i) == KeysUpTo(u, i);
      }
    }
  }

  /** How many keys of table `t` a rehash to capacity `n` keeps. */
  ghost function Kept(t: seq<Entry>, n: nat): nat
    requires n > 0
  {
    Placed(n, Compact(t))
  }

  lemma KeptMeans(t: seq<Entry>, n: nat)
    requires n > 0
    ensures Kept(t, n) <= Occupied(t) && Kept(t, n) <= n
    ensures Kept(t, n) < Occupied(t) <==> Loses(t, n)
  {
    CompactCount(t);
    PlacedMeans(n, Compact(t));
  }

  /** One more entry on a table that holds some of the entries before it. */
  lemma OneMore(t: seq<Entry>, m: map<Word, Word>, e: Entry)
    requires |t| > 0 && WellFormed(t) && Submap(Contents(t), m) && !Empty(e) && e.key !in m
    ensures var r := Put(t, e.key, e.slot);
      && WellFormed(r.table) && Submap(Contents(r.table), m[e.key := e.slot])
      && (Occupied(t) == |t| ==> Occupied(r.table) == |t|)
  {
    var lost := PutCount(t, e.key, e.slot);
    NoEmptyCount(t);
  }

  /** One more entry on a table with room that holds all the entries before it. */
  lemma OneMoreOfAll(t: seq<Entry>, u: seq<Entry>, e: Entry)
    requires WellFormed(t) && |t| > |u| && DistinctKeys(u) && Contents(t) == MapOf(u)
    requires !Empty(e) && e.key !in MapOf(u)
    ensures var r := Put(t, e.key, e.slot);
      if KeyHazard(|t|, KeysUpTo(u, |u|), Home(|t|, e.key)) then !r.Stored? && Occupied(r.table) == |u|
      else r.Stored? && Occupied(r.table) == |u| + 1 && Contents(r.table) == MapOf(u)[e.key := e.slot]
  {
    MapOfCount(u);
    ContentsCount(t);
    NoEmptyCount(t);
    NextEntry(t, u, e);
    PutExact(t, e.key, e.slot);
    var lost := PutCount(t, e.key, e.slot);
  }

  /**
   The outcome of reinsertion, read off the keys: an ordered table with exactly so many of the collected entries as
   can be placed. With all of them placed it succeeds; with some missing it fails, or the table is full.
   */
  lemma {:induction false} ReinsertExact(t: seq<Entry>, es: seq<Entry>)
    requires |t| > 0 && AllEmpty(t) && DistinctKeys(es)
    ensures var r := Reinsert(t, es);
      && WellFormed(r.table) && Submap(Contents(r.table), MapOf(es)) && Occupied(r.table) == Placed(|t|, es)
      && (Placed(|t|, es) == |es| ==> r.ok && Contents(r.table) == MapOf(es))
      && (r.ok ==> Placed(|t|, es) == |es| || Placed(|t|, es) == |t|)
  {
    if es == [] {
      AllEmptyFacts(t);
      AllEmptyCount(t);
    } else {
      var u, e := es[..|es| - 1], es[|es| - 1];
      PrefixDistinct(es);
      ReinsertExact(t, u);
      assert KeysUpTo(es, |u|) == KeysUpTo(u, |u|);
      if Reinsert(t, u).ok {
        OneMore(Reinsert(t, u).table, MapOf(u), e);
        if Placed(|t|, u) == |u| < |t| {
          OneMoreOfAll(Reinsert(t, u).table, u, e);
        }
      }
    }
  }

  /** No more entries than buckets: reinsertion succeeds if and only if none of them gets stuck. */
  lemma ReinsertOk(t: seq<Entry>, es: seq<Entry>)
    requires |t| >= |es| && |t| > 0 && AllEmpty(t) && DistinctKeys(es)
    ensures Reinsert(t, es).ok <==> !Stuck(|t|, es)
  {
    ReinsertExact(t, es);
    PlacedMeans(|t|, es);
  }

  /** Only the keys and their order matter. */
  lemma {:induction false} PlacedByKeys(n: nat, es: seq<Entry>, fs: seq<Entry>)
    requires n > 0 && |es| == |fs| && forall i: nat :: i < |es| ==> es[i].key == fs[i].key
    ensures Placed(n, es) == Placed(n, fs)
  {
    if es != [] {
      PlacedByKeys(n, es[..|es| - 1], fs[..|fs| - 1]);
      assert KeysUpTo(es, |es| - 1) == KeysUpTo(fs, |fs| - 1);
    }
  }

  // ---------- Keys that get stuck ----------

  /** With keys whose homes are the last and the first bucket, another key for the last bucket meets the hazard. */
  lemma EndsTaken(n: nat, keys: set<Word>, last: Word, first: Word)
    requires n > 0 && last in keys && first in keys && Home(n, last) == n - 1 && Home(n, first) == 0
    ensures KeyHazard(n, keys, n - 1)
  {
    ExcessReached(n, keys, 0);
    if Excess(n, keys, 0) == 0 {
      ExcessBounds(n, keys, 0, n - 1);
      SubsetCount({last}, set k | k in keys && Home(n, k) >= n - 1);
    }
    assert LowHome(n, keys);
  }

  /** Two keys for the last bucket, with one for the first bucket before the second of them, always get stuck. */
  lemma StuckAtEnds(n: nat, es: seq<Entry>, i: nat, j: nat, k: nat)
    requires n > 0 && j < i < |es| && k < i
    requires Home(n, es[j].key) == n - 1 && Home(n, es[k].key) == 0 && Home(n, es[i].key) == n - 1
    ensures Stuck(n, es) && StuckAt(n, es, i)
  {
    EndsTaken(n, KeysUpTo(es, i), es[j].key, es[k].key);
    assert StuckAt(n, es, i);
  }

  lemma HomeIs(k: nat, key: Word)
    ensures Home(Pow2(k), key) == key % Pow2(k)
  {
    MaskIsRemainder(key, k);
  }

  lemma Homes16(key: Word)
    ensures Home(16, key) == key % 16
  {
    HomeIs(4, key);
  }

  lemma Homes32(key: Word)
    ensures Home(32, key) == key % 32
  {
    HomeIs(5, key);
  }

  /** The entries at their homes. */
  ghost function AtHome(t: seq<Entry>, es: seq<Entry>): (u: seq<Entry>)
    requires |t| > 0
    ensures |u| == |t|
  {
    if es == [] then t
    else AtHome(t, es[..|es| - 1])[Home(|t|, es[|es| - 1].key) := es[|es| - 1]]
  }

  ghost predicate Apart(n: nat, es: seq<Entry>)
    requires n > 0
  {
    forall i: nat, j: nat :: i < j < |es| ==> Home(n, es[i].key) != Home(n, es[j].key)
  }

  lemma {:induction false} AtHomeElsewhere(t: seq<Entry>, es: seq<Entry>, b: nat)
    requires |t| > 0 && b < |t| && forall i: nat :: i < |es| ==> Home(|t|, es[i].key) != b
    ensures AtHome(t, es)[b] == t[b]
  {
    if es != [] {
      AtHomeElsewhere(t, es[..|es| - 1], b);
    }
  }

  /** Keys with different homes are all placed, each at home. */
  lemma {:induction false} ApartAtHome(t: seq<Entry>, es: seq<Entry>)
    requires |t| > 0 && AllEmpty(t) && Apart(|t|, es)
    ensures Reinsert(t, es) == Rebuilt(true, AtHome(t, es))
  {
    if es != [] {
      var u, e := es[..|es| - 1], es[|es| - 1];
      ApartAtHome(t, u);
      AtHomeElsewhere(t, u, Home(|t|, e.key));
      PutAtHome(AtHome(t, u), e.key, e.slot);
    }
  }

  /** With the first `k` keys apart, and the next one stuck, just those are placed. */
  lemma ApartPlaced(n: nat, es: seq<Entry>, k: nat)
    requires n > 0 && DistinctKeys(es) && k < |es| <= n && Apart(n, es[..k]) && StuckAt(n, es, k)
    ensures Placed(n, es) == k
  {
    var blank, u := seq(n, _ => EMPTY), es[..k];
    ApartAtHome(blank, u);
    ReinsertOk(blank, u);
    PlacedMeans(n, es);
    forall i: nat | i < k ensures !StuckAt(n, es, i) {
      assert KeysUpTo(es, i) == KeysUpTo(u, i);
      assert !StuckAt(n, u, i);
    }
    assert Stuck(n, es);
  }

  lemma {:induction false} CompactSkip(t: seq<Entry>, m: nat)
    requires m <= |t| && forall b: nat :: m <= b < |t| ==> Empty(t[b])
    ensures Compact(t) == Compact(t[..m])
    decreases |t|
  {
    if m < |t| {
      CompactSkip(t[..|t| - 1], m);
      assert t[..|t| - 1][..m] == t[..m];
    } else {
      assert t[..m] == t;
    }
  }

  lemma CompactStep(t: seq<Entry>, m: nat)
    requires m < |t| && !Empty(t[m])
    ensures Compact(t[..m + 1]) == Compact(t[..m]) + [t[m]]
  {
    assert t[..m + 1][..m] == t[..m];
  }

  lemma CompactGap(t: seq<Entry>, m: nat, to: nat)
    requires m <= to <= |t| && forall b: nat :: m <= b < to ==> Empty(t[b])
    ensures Compact(t[..to]) == Compact(t[..m])
  {
    CompactSkip(t[..to], m);
    assert t[..to][..m] == t[..m];
  }

  /** A table of 32 buckets with keys 15, 16 and 31. */
  ghost predicate ThreeKeys(t: seq<Entry>) {
    && |t| == 32 && t[15].key == 15 && t[16].key == 16 && t[31].key == 31
    && forall b: nat :: b < 32 ==> (!Empty(t[b]) <==> b == 15 || b == 16 || b == 31)
  }

  lemma ThreeKeysFormed(t: seq<Entry>)
    requires ThreeKeys(t)
    ensures WellFormed(t)
  {
    Homes32(15);
    Homes32(16);
    Homes32(31);
  }

  lemma ThreeKeysCollected(t: seq<Entry>)
    requires ThreeKeys(t)
    ensures Compact(t) == [t[15], t[16], t[31]] && Occupied(t) == 3
  {
    CompactStep(t, 31);
    CompactGap(t, 17, 31);
    CompactStep(t, 16);
    CompactStep(t, 15);
    CompactGap(t, 0, 15);
    assert t[..32] == t && Compact(t[..0]) == [];
    CompactCount(t);
  }

  /** A sound table that shrinking to 16 buckets, the capacity it is due for, cannot keep. */
  lemma ShrinkWitness(t: seq<Entry>)
    requires ThreeKeys(t)
    ensures WellFormed(t) && Occupied(t) == 3 && Sticks(t, 16)
    ensures !Reinsert(seq(16, _ => EMPTY), Compact(t)).ok
    ensures Kept(t, 16) == 2 && Occupied(t[..16]) == 1
  {
    ThreeKeysFormed(t);
    ThreeKeysCollected(t);
    Homes16(15);
    Homes16(16);
    Homes16(31);
    StuckAtEnds(16, Compact(t), 2, 0, 1);
    CompactContents(t);
    ReinsertOk(seq(16, _ => EMPTY), Compact(t));
    ApartPlaced(16, Compact(t), 2);
    CompactGap(t, 0, 15);
    CompactStep(t, 15);
    CompactCount(t[..16]);
  }

  /** A table of 16 buckets with key 63 wrapped round to the start, 32 behind it, 2 to 10 at home, and 31 at the end. */
  ghost predicate TwelveKeys(t: seq<Entry>) {
    && |t| == 16 && t[0].key == 63 && t[1].key == 32 && t[15].key == 31
    && (forall b: nat :: 2 <= b < 11 ==> t[b].key == b)
    && (forall b: nat :: b < 16 ==> (!Empty(t[b]) <==> b < 11 || b == 15))
    && (forall b: nat :: 11 <= b < 15 ==> t[b] == EMPTY)
  }

  lemma {:induction false} CompactFull(t: seq<Entry>)
    requires forall b: nat :: b < |t| ==> !Empty(t[b])
    ensures Compact(t) == t
  {
    if t != [] {
      CompactFull(t[..|t| - 1]);
    }
  }

  lemma TwelveKeysCollected(t: seq<Entry>)
    requires TwelveKeys(t)
    ensures Compact(t) == t[..11] + [t[15]] && Occupied(t) == 12
  {
    CompactFull(t[..11]);
    CompactGap(t, 11, 15);
    CompactStep(t, 15);
    assert t[..16] == t;
    CompactCount(t);
  }

  /** The table once the last and the first `m` buckets have been filled. */
  ghost function FilledTo(t: seq<Entry>, m: nat): seq<Entry> {
    seq(|t|, b requires 0 <= b < |t| => if b == |t| - 1 || b < m then t[b] else EMPTY)
  }

  /** A key whose home is taken by an entry as near to its own home goes to the next bucket, if that is empty. */
  lemma PutNext(t: seq<Entry>, key: Word, slot: Word)
    requires |t| > 1
    requires var h := Home(|t|, key);
      && !Empty(t[h]) && t[h].key != key && Empty(t[Wrap(|t|, h + 1)])
    ensures var b := Wrap(|t|, Home(|t|, key) + 1);
      Put(t, key, slot) == Stored(t[b := Entry(key, slot)], true)
  {
    var h := Home(|t|, key);
    assert Put(t, key, slot) == InsertFrom(t, key, slot, Entry(key, slot), h, h + 1);
  }

  lemma FillAtHome(t: seq<Entry>, m: nat)
    requires m < |t| - 1 && Home(|t|, t[m].key) == m
    ensures Put(FilledTo(t, m), t[m].key, t[m].slot) == Stored(FilledTo(t, m + 1), true)
  {
    var f := FilledTo(t, m);
    PutAtHome(f, t[m].key, t[m].slot);
    assert t[m] == Entry(t[m].key, t[m].slot);
    assert f[m := t[m]] == FilledTo(t, m + 1);
  }

  lemma FillBehind(t: seq<Entry>, m: nat)
    requires m < |t| - 1 && Home(|t|, t[m].key) == Pred(|t|, m)
    requires !Empty(t[Pred(|t|, m)]) && t[Pred(|t|, m)].key != t[m].key
    ensures Put(FilledTo(t, m), t[m].key, t[m].slot) == Stored(FilledTo(t, m + 1), true)
  {
    var f := FilledTo(t, m);
    assert Wrap(|t|, Pred(|t|, m) + 1) == m;
    PutNext(f, t[m].key, t[m].slot);
    assert t[m] == Entry(t[m].key, t[m].slot);
    assert f[m := t[m]] == FilledTo(t, m + 1);
  }

  lemma FillNext(t: seq<Entry>, m: nat)
    requires TwelveKeys(t) && m < 11
    ensures Put(FilledTo(t, m), t[m].key, t[m].slot) == Stored(FilledTo(t, m + 1), true)
  {
    Homes16(t[m].key);
    if m < 2 {
      FillBehind(t, m);
    } else {
      FillAtHome(t, m);
    }
  }

  lemma FillLast(t: seq<Entry>, blank: seq<Entry>)
    requires |t| > 0 && blank == seq(|t|, _ => EMPTY) && Home(|t|, t[|t| - 1].key) == |t| - 1
    ensures Yields(blank, [t[|t| - 1]], FilledTo(t, 0))
  {
    var e := t[|t| - 1];
    PutAtHome(blank, e.key, e.slot);
    ReinsertLast(blank, [], e);
    assert [] + [e] == [e] && e == Entry(e.key, e.slot);
    assert blank[|t| - 1 := e] == FilledTo(t, 0);
  }

  /** Inserting the entries one after the other succeeds each time and gives the table `f`. */
  ghost predicate Yields(blank: seq<Entry>, es: seq<Entry>, f: seq<Entry>) {
    |blank| > 0 && Reinsert(blank, es) == Rebuilt(true, f)
  }

  lemma YieldsNext(blank: seq<Entry>, es: seq<Entry>, f: seq<Entry>, e: Entry, g: seq<Entry>, fs: seq<Entry>)
    requires Yields(blank, es, f) && |f| > 0 && Put(f, e.key, e.slot) == Stored(g, true) && fs == es + [e]
    ensures Yields(blank, fs, g)
  {
    ReinsertLast(blank, es, e);
  }

  /** Each of the first `m` buckets in turn takes its entry. */
  ghost predicate Fills(t: seq<Entry>, m: nat) {
    m <= |t| && forall i: nat :: i < m ==> FillsAt(t, i)
  }

  ghost predicate FillsAt(t: seq<Entry>, i: nat)
    requires i < |t|
  {
    Put(FilledTo(t, i), t[i].key, t[i].slot) == Stored(FilledTo(t, i + 1), true)
  }

  lemma {:induction false} FillRun(t: seq<Entry>, blank: seq<Entry>, es: seq<Entry>, m: nat)
    requires Fills(t, m) && Yields(blank, es, FilledTo(t, 0))
    ensures Yields(blank, es + t[..m], FilledTo(t, m))
  {
    var v := es + t[..m];
    if m == 0 {
      assert v == es;
    } else {
      var u := es + t[..m - 1];
      FillRun(t, blank, es, m - 1);
      assert FillsAt(t, m - 1) && v == u + [t[m - 1]];
      YieldsNext(blank, u, FilledTo(t, m - 1), t[m - 1], FilledTo(t, m), v);
    }
  }

  /**
   Twelve insertions into an empty table of 16 buckets that all succeed, after which the table is due to grow to
   32 and the rehash gets stuck.
   */
  lemma GrowthWitness(t: seq<Entry>)
    requires TwelveKeys(t)
    ensures Yields(seq(16, _ => EMPTY), [t[15]] + t[..11], t)
    ensures Occupied(t) == 12 && Sticks(t, 32)
  {
    var blank := seq(16, _ => EMPTY);
    Homes16(31);
    FillLast(t, blank);
    forall i: nat | i < 11 ensures FillsAt(t, i) {
      FillNext(t, i);
    }
    FillRun(t, blank, [t[15]], 11);
    assert FilledTo(t, 11) == t;
    TwelveKeysCollected(t);
    Homes32(63);
    Homes32(32);
    Homes32(31);
    StuckAtEnds(32, Compact(t), 11, 0, 1);
  }
}
