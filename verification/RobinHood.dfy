/**
 The Robin Hood table of `src/ef_index.c` as a value: probing, displacement chains and
 backward-shift deletion on a cyclic sequence of buckets, and their agreement with a plain map.
 */
module RobinHood {
  import opened Base

  /** A bucket. It is empty when its slot offset is zero. */
  datatype Entry = Entry(key: Word, slot: Word)

  const EMPTY := Entry(0, 0)

  predicate Empty(e: Entry) {
    e.slot == 0
  }

  /** The bucket at which the probe for a key starts: its low bits. */
  function Home(n: nat, key: Word): (h: nat)
    requires n > 0
    ensures h < n
  {
    And(key, n - 1)
  }

  /** How far `pos` lies past `home`, going round. */
  function Dist(n: nat, home: nat, pos: nat): (d: nat)
    requires home < n && pos < n
    ensures d < n && d == if home <= pos then pos - home else pos + n - home
  {
    Wrap(n, pos + n - home)
  }

  /** The probe distance of the entry in bucket `b`. */
  function D(t: seq<Entry>, b: nat): (d: nat)
    requires b < |t|
    ensures d < |t|
  {
    Dist(|t|, Home(|t|, t[b].key), b)
  }

  function Pred(n: nat, b: nat): (p: nat)
    requires b < n
    ensures p < n
  {
    if b == 0 then n - 1 else b - 1
  }

  /** An entry lies at its home, or next to an entry that is at most one step closer to its own home. */
  ghost predicate Settled(t: seq<Entry>, b: nat)
    requires b < |t|
  {
    D(t, b) == 0 || (!Empty(t[Pred(|t|, b)]) && D(t, b) <= D(t, Pred(|t|, b)) + 1)
  }

  /** The Robin Hood ordering. */
  ghost predicate Ordered(t: seq<Entry>) {
    forall b: nat {:trigger Settled(t, b)} :: b < |t| && !Empty(t[b]) ==> Settled(t, b)
  }

  ghost predicate Holds(t: seq<Entry>, key: Word, b: nat) {
    b < |t| && !Empty(t[b]) && t[b].key == key
  }

  ghost predicate Unique(t: seq<Entry>) {
    forall k: Word, a: nat, b: nat :: Holds(t, k, a) && Holds(t, k, b) ==> a == b
  }

  ghost predicate WellFormed(t: seq<Entry>) {
    Ordered(t) && Unique(t)
  }

  ghost predicate Absent(t: seq<Entry>, key: Word) {
    forall b: nat :: !Holds(t, key, b)
  }

  ghost predicate HasEmpty(t: seq<Entry>) {
    exists b: nat :: b < |t| && Empty(t[b])
  }

  ghost function Keys(t: seq<Entry>): set<Word> {
    set b: nat | b < |t| && !Empty(t[b]) :: t[b].key
  }

  ghost function SlotOf(t: seq<Entry>, key: Word): Word
    requires key in Keys(t)
  {
    var b: nat :| b < |t| && !Empty(t[b]) && t[b].key == key;
    t[b].slot
  }

  /** The map that a table with unique keys stands for. */
  ghost function Contents(t: seq<Entry>): map<Word, Word> {
    map k | k in Keys(t) :: SlotOf(t, k)
  }

  lemma ContentsHas(t: seq<Entry>, k: Word, b: nat)
    requires Unique(t) && Holds(t, k, b)
    ensures k in Contents(t) && Contents(t)[k] == t[b].slot
  {
    var c: nat :| c < |t| && !Empty(t[c]) && t[c].key == k && SlotOf(t, k) == t[c].slot;
    assert Holds(t, k, c);
  }

  lemma ContentsLacks(t: seq<Entry>, k: Word)
    requires Absent(t, k)
    ensures k !in Contents(t)
  {
    if k in Contents(t) {
      var c: nat :| c < |t| && !Empty(t[c]) && t[c].key == k;
      assert Holds(t, k, c);
    }
  }

  /** A key of the map sits in some bucket. */
  lemma BucketOf(t: seq<Entry>, k: Word) returns (b: nat)
    requires k in Contents(t)
    ensures Holds(t, k, b)
  {
    b :| b < |t| && !Empty(t[b]) && t[b].key == k;
  }

  // ---------- Replacing one bucket ----------

  ghost function Without(m: map<Word, Word>, e: Entry): map<Word, Word> {
    if Empty(e) then m else m - {e.key}
  }

  ghost function With(m: map<Word, Word>, e: Entry): map<Word, Word> {
    if Empty(e) then m else m[e.key := e.slot]
  }

  lemma ReplaceUnique(t: seq<Entry>, b: nat, e: Entry)
    requires b < |t| && Unique(t)
    requires Empty(e) || forall c: nat :: Holds(t, e.key, c) ==> c == b
    ensures Unique(t[b := e])
  {
    var t' := t[b := e];
    forall k: Word, c: nat, d: nat | Holds(t', k, c) && Holds(t', k, d)
      ensures c == d
    {
      assert c == b || Holds(t, k, c);
      assert d == b || Holds(t, k, d);
    }
  }

  /** What replacing one bucket does to the map. */
  lemma ReplaceContents(t: seq<Entry>, b: nat, e: Entry)
    requires b < |t| && Unique(t) && Unique(t[b := e])
    ensures Contents(t[b := e]) == With(Without(Contents(t), t[b]), e)
  {
    var t' := t[b := e];
    var m, m' := Contents(t), Contents(t');
    var w := With(Without(m, t[b]), e);
    forall k: Word
      ensures k in m' <==> k in w
      ensures k in m' ==> m'[k] == w[k]
    {
      ReplaceLookup(t, b, e, k);
    }
  }

  lemma ReplaceLookup(t: seq<Entry>, b: nat, e: Entry, k: Word)
    requires b < |t| && Unique(t) && Unique(t[b := e])
    ensures k in Contents(t[b := e]) <==> k in With(Without(Contents(t), t[b]), e)
    ensures k in Contents(t[b := e]) ==> Contents(t[b := e])[k] == With(Without(Contents(t), t[b]), e)[k]
  {
    var t' := t[b := e];
    if Holds(t', k, b) {
      ContentsHas(t', k, b);
    } else if Holds(t, k, b) {
      forall c: nat ensures !Holds(t', k, c) {
        assert c != b ==> (Holds(t', k, c) <==> Holds(t, k, c));
      }
      ContentsLacks(t', k);
    } else {
      if c: nat :| Holds(t, k, c) {
        assert Holds(t', k, c);
        ContentsHas(t, k, c);
        ContentsHas(t', k, c);
      } else {
        forall c: nat ensures !Holds(t', k, c) {
          assert c != b ==> (Holds(t', k, c) <==> Holds(t, k, c));
        }
        ContentsLacks(t, k);
        ContentsLacks(t', k);
      }
    }
  }

  ghost predicate Submap(a: map<Word, Word>, b: map<Word, Word>) {
    forall k: Word :: k in a ==> k in b && a[k] == b[k]
  }

  // ---------- Counting ----------

  /** The number of occupied buckets. */
  function Occupied(t: seq<Entry>): nat {
    if t == [] then 0 else Occupied(t[..|t| - 1]) + (if Empty(t[|t| - 1]) then 0 else 1)
  }

  lemma {:induction false} OccupiedBound(t: seq<Entry>)
    ensures Occupied(t) <= |t|
  {
    if t != [] {
      OccupiedBound(t[..|t| - 1]);
    }
  }

  lemma {:induction false} NoEmptyCount(t: seq<Entry>)
    ensures Occupied(t) == |t| <==> !HasEmpty(t)
  {
    if t != [] {
      var u := t[..|t| - 1];
      NoEmptyCount(u);
      OccupiedBound(u);
      assert HasEmpty(t) <==> HasEmpty(u) || Empty(t[|t| - 1]) by {
        if b: nat :| b < |t| && Empty(t[b]) {
          assert b == |t| - 1 || Empty(u[b]);
        }
        if c: nat :| c < |u| && Empty(u[c]) {
          assert Empty(t[c]);
        }
      }
    }
  }

  /** With unique keys, the map has as many keys as the table has occupied buckets. */
  lemma {:induction false} ContentsCount(t: seq<Entry>)
    requires Unique(t)
    ensures |Contents(t)| == Occupied(t)
  {
    assert |Contents(t)| == |Keys(t)| by {
      assert Contents(t).Keys == Keys(t);
    }
    KeysCount(t);
  }

  lemma {:induction false} KeysCount(t: seq<Entry>)
    requires Unique(t)
    ensures |Keys(t)| == Occupied(t)
  {
    if t != [] {
      var u, last := t[..|t| - 1], t[|t| - 1];
      forall k: Word, a: nat, b: nat | Holds(u, k, a) && Holds(u, k, b)
        ensures a == b
      {
        assert Holds(t, k, a) && Holds(t, k, b);
      }
      KeysCount(u);
      if Empty(last) {
        assert Keys(t) == Keys(u);
      } else {
        assert Keys(t) == Keys(u) + {last.key} by {
          assert t[|t| - 1].key in Keys(t);
          assert forall b: nat :: b < |u| ==> u[b] == t[b];
        }
        if last.key in Keys(u) {
          var b: nat :| b < |u| && !Empty(u[b]) && u[b].key == last.key;
          assert Holds(t, last.key, b) && Holds(t, last.key, |t| - 1);
        }
      }
    }
  }

  // ---------- Probing ----------

  /** Bucket `j` places before `b`, going round. */
  function Back(n: nat, b: nat, j: nat): (c: nat)
    requires b < n && j < n
    ensures c < n
  {
    if j <= b then b - j else b + n - j
  }

  /** Walking back from an entry towards its home meets no empty bucket and distances fall by at most one a step. */
  lemma {:induction false} BackChain(t: seq<Entry>, b: nat, j: nat)
    requires Ordered(t) && b < |t| && !Empty(t[b]) && j <= D(t, b)
    ensures !Empty(t[Back(|t|, b, j)]) && D(t, Back(|t|, b, j)) >= D(t, b) - j
  {
    if j > 0 {
      BackChain(t, b, j - 1);
      var c := Back(|t|, b, j - 1);
      assert Settled(t, c);
      assert Back(|t|, b, j) == Pred(|t|, c);
    }
  }

  /** On the path from its home to a key, every bucket is taken by an entry at least as far from its own home. */
  lemma OnPath(t: seq<Entry>, key: Word, b: nat, i: nat)
    requires Ordered(t) && Holds(t, key, b)
    requires Home(|t|, key) <= i <= Home(|t|, key) + D(t, b)
    ensures i < 2 * |t|
    ensures !Empty(t[Wrap(|t|, i)]) && D(t, Wrap(|t|, i)) >= i - Home(|t|, key)
    ensures i == Home(|t|, key) + D(t, b) ==> Wrap(|t|, i) == b
  {
    var j := Home(|t|, key) + D(t, b) - i;
    BackChain(t, b, j);
    assert Back(|t|, b, j) == Wrap(|t|, i);
  }

  /** The probe for a key has passed the buckets from its home up to `i` without meeting the key. */
  ghost predicate Passed(t: seq<Entry>, key: Word, i: nat) {
    && |t| > 0
    && Home(|t|, key) <= i <= Home(|t|, key) + |t|
    && forall k: nat :: Home(|t|, key) <= k < i ==>
         !Empty(t[Wrap(|t|, k)]) && t[Wrap(|t|, k)].key != key && D(t, Wrap(|t|, k)) >= k - Home(|t|, key)
  }

  /** A probe may stop at an empty bucket, or where it has come further than the entry it meets. */
  lemma StopMeansAbsent(t: seq<Entry>, key: Word, i: nat)
    requires Ordered(t) && |t| > 0 && Home(|t|, key) <= i < Home(|t|, key) + |t|
    requires forall k: nat :: Home(|t|, key) <= k < i ==> !Holds(t, key, Wrap(|t|, k))
    requires var b := Wrap(|t|, i);
             Empty(t[b]) || (t[b].key != key && D(t, b) < i - Home(|t|, key))
    ensures Absent(t, key)
  {
    forall b: nat ensures !Holds(t, key, b) {
      if Holds(t, key, b) {
        var h, d := Home(|t|, key), D(t, b);
        OnPath(t, key, b, h + d);
        if i <= h + d {
          OnPath(t, key, b, i);
        }
      }
    }
  }

  lemma LapMeansAbsent(t: seq<Entry>, key: Word)
    requires |t| > 0
    requires forall k: nat :: Home(|t|, key) <= k < Home(|t|, key) + |t| ==> !Holds(t, key, Wrap(|t|, k))
    ensures Absent(t, key)
  {
    forall b: nat ensures !Holds(t, key, b) {
      if b < |t| && t[b].key == key {
        var i := Home(|t|, key) + D(t, b);
        assert Wrap(|t|, i) == b;
      }
    }
  }

  /** The probe loop of `ef_index_find_entry_unlocked`. */
  function FindFrom(t: seq<Entry>, key: Word, i: nat): Option<Entry>
    requires |t| > 0 && Home(|t|, key) <= i <= Home(|t|, key) + |t|
    decreases Home(|t|, key) + |t| - i
  {
    if i == Home(|t|, key) + |t| then None
    else
      var e := t[Wrap(|t|, i)];
      if Empty(e) then None
      else if e.key == key then Some(e)
      else FindFrom(t, key, i + 1)
  }

  function Find(t: seq<Entry>, key: Word): Option<Entry>
    requires |t| > 0
  {
    FindFrom(t, key, Home(|t|, key))
  }

  lemma {:induction false} FindFromCorrect(t: seq<Entry>, key: Word, i: nat)
    requires |t| > 0 && Ordered(t) && Unique(t)
    requires Home(|t|, key) <= i <= Home(|t|, key) + |t|
    requires forall k: nat :: Home(|t|, key) <= k < i ==> !Holds(t, key, Wrap(|t|, k))
    ensures FindFrom(t, key, i)
         == if key in Contents(t) then Some(Entry(key, Contents(t)[key])) else None
    decreases Home(|t|, key) + |t| - i
  {
    if i == Home(|t|, key) + |t| {
      LapMeansAbsent(t, key);
      ContentsLacks(t, key);
    } else {
      var b := Wrap(|t|, i);
      if Empty(t[b]) {
        StopMeansAbsent(t, key, i);
        ContentsLacks(t, key);
      } else if t[b].key == key {
        ContentsHas(t, key, b);
      } else {
        FindFromCorrect(t, key, i + 1);
      }
    }
  }

  /** Lookup answers exactly as the map does, hit or miss, wrapped round or not. */
  lemma FindCorrect(t: seq<Entry>, key: Word)
    requires |t| > 0 && Ordered(t) && Unique(t)
    ensures Find(t, key) == if key in Contents(t) then Some(Entry(key, Contents(t)[key])) else None
  {
    FindFromCorrect(t, key, Home(|t|, key));
  }
}
